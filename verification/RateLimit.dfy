/** When an address is blocked: a window of detection times for each address, kept across
    changes of the configuration. */
module RateLimit {
  import opened Addresses
  import opened Arithmetic

  /** No other length comes out of an exemption's text. */
  type PrefixLength = n: nat | n <= 128

  datatype Exemption = Exemption(network: Addr, bits: PrefixLength)

  /** The part of the configuration that decides about blocking. */
  datatype Policy = Policy(exempted: seq<Exemption>, rateMax: nat, rateInterval: nat)

  datatype AddressData = AddressData(times: seq<int>, blocked: bool)

  type Book = map<Addr, AddressData>

  const UNSEEN := AddressData([], false)

  function Data(book: Book, a: Addr): AddressData {
    if a in book then book[a] else UNSEEN
  }

  predicate Covers(x: Exemption, a: Addr) {
    Matches(x.network, Mask(x.bits, 16), a)
  }

  predicate Exempt(p: Policy, a: Addr) {
    exists i :: 0 <= i < |p.exempted| && Covers(p.exempted[i], a)
  }

  /** Removes times from the front while they are before `cutoff`. */
  function Strip(times: seq<int>, cutoff: int): (r: seq<int>)
    decreases |times|
  {
    if times == [] || times[0] >= cutoff then times else Strip(times[1..], cutoff)
  }

  /** The same by arithmetic: `a` is in a network that was written without host bits. */
  ghost predicate InExemptNetwork(p: Policy, a: Addr) {
    exists i :: 0 <= i < |p.exempted| &&
      InNetwork(p.exempted[i].network, p.exempted[i].bits, a) &&
      HostBitsZero(p.exempted[i].network, p.exempted[i].bits)
  }

  lemma ExemptIff(p: Policy, a: Addr)
    ensures Exempt(p, a) <==> InExemptNetwork(p, a)
  {
    forall i | 0 <= i < |p.exempted|
      ensures Covers(p.exempted[i], a) <==>
        InNetwork(p.exempted[i].network, p.exempted[i].bits, a) &&
        HostBitsZero(p.exempted[i].network, p.exempted[i].bits)
    {
      MatchesIsArithmetic(p.exempted[i].network, p.exempted[i].bits, a);
    }
  }

  datatype Verdict = Verdict(book: Book, attempted: bool)

  /** One detection of `a` at time `now`; `ok` is what the block method would answer. */
  function Detect(p: Policy, book: Book, a: Addr, now: int, ok: bool): Verdict {
    var ad := Data(book, a);
    if Exempt(p, a) || ad.blocked then Verdict(book, false)
    else
      var times := Strip(ad.times, now - p.rateInterval) + [now];
      var attempted := |times| > p.rateMax;
      Verdict(book[a := AddressData(times, attempted && ok)], attempted)
  }

  // ----- Runs -----

  datatype Event =
    | Detection(a: Addr, now: int, ok: bool)
    | Reload(policy: Policy)

  datatype State = State(policy: Policy, book: Book)

  function Step(s: State, e: Event): State {
    match e
    case Detection(a, now, ok) => s.(book := Detect(s.policy, s.book, a, now, ok).book)
    case Reload(policy) => s.(policy := policy)
  }

  /** The state after all of `es`, from an empty book. */
  function After(p: Policy, es: seq<Event>): State {
    if es == [] then State(p, map[]) else Step(After(p, es[..|es| - 1]), es[|es| - 1])
  }

  /** Whether event `i` makes the daemon try to block. */
  predicate AttemptAt(p: Policy, es: seq<Event>, i: nat)
    requires i < |es|
  {
    var s := After(p, es[..i]);
    es[i].Detection? && Detect(s.policy, s.book, es[i].a, es[i].now, es[i].ok).attempted
  }

  predicate BlockedAfter(p: Policy, es: seq<Event>, a: Addr) {
    Data(After(p, es).book, a).blocked
  }

  /** A detection of `a` that counts: not exempt at the time, and not blocked yet. */
  predicate Counts(p: Policy, es: seq<Event>, i: nat, a: Addr)
    requires i < |es|
  {
    es[i].Detection? && es[i].a == a && !BlockedAfter(p, es[..i], a) && !Exempt(After(p, es[..i]).policy, a)
  }

  /** When `a` was detected by detections that count. */
  function Recorded(p: Policy, es: seq<Event>, a: Addr): seq<int> {
    if es == [] then [] else
      var n := |es| - 1;
      if Counts(p, es, n, a) then Recorded(p, es[..n], a) + [es[n].now] else Recorded(p, es[..n], a)
  }

  function Filter(times: seq<int>, from: int): (r: seq<int>) {
    if times == [] then [] else
      var n := |times| - 1;
      if times[n] >= from then Filter(times[..n], from) + [times[n]] else Filter(times[..n], from)
  }

  /** The clock is not set back: detections come in order of time. */
  predicate Monotone(es: seq<Event>) {
    forall i, j :: 0 <= i < j < |es| && es[i].Detection? && es[j].Detection? ==> es[i].now <= es[j].now
  }

  /** Nothing from before this time is in the window of `a` any more: the latest of the limits
      that counting detections imposed. */
  function Horizon(p: Policy, es: seq<Event>, a: Addr): int
    requires Recorded(p, es, a) != []
  {
    var n := |es| - 1;
    if !Counts(p, es, n, a) then Horizon(p, es[..n], a)
    else
      var limit := es[n].now - After(p, es[..n]).policy.rateInterval;
      if Recorded(p, es[..n], a) == [] then limit else Max(limit, Horizon(p, es[..n], a))
  }

  // ----- One address at a time -----

  /** A detection of one address leaves every other alone. */
  lemma DetectFrame(p: Policy, book: Book, a: Addr, now: int, ok: bool, b: Addr)
    requires a != b
    ensures Data(Detect(p, book, a, now, ok).book, b) == Data(book, b)
  {
  }

  /** The events that concern `a`. */
  function About(es: seq<Event>, a: Addr): seq<Event> {
    if es == [] then [] else
      var e := es[|es| - 1];
      if e.Reload? || e.a == a then About(es[..|es| - 1], a) + [e] else About(es[..|es| - 1], a)
  }

  /** What becomes of an address depends on its own detections and on the configuration only,
      whichever log they come from and however they are interleaved with others. */
  lemma {:induction false} NoInterference(p: Policy, es: seq<Event>, a: Addr)
    ensures Data(After(p, es).book, a) == Data(After(p, About(es, a)).book, a)
    ensures After(p, es).policy == After(p, About(es, a)).policy
  {
    if es != [] {
      var n := |es| - 1;
      NoInterference(p, es[..n], a);
      var e := es[n];
      if e.Reload? || e.a == a {
        var fs := About(es[..n], a);
        assert About(es, a) == fs + [e];
        assert (fs + [e])[..|fs|] == fs;
      } else {
        DetectFrame(After(p, es[..n]).policy, After(p, es[..n]).book, e.a, e.now, e.ok, a);
        assert About(es, a) == About(es[..n], a);
      }
    }
  }

  // ----- The window -----

  predicate Ascending(times: seq<int>) {
    forall i, j :: 0 <= i < j < |times| ==> times[i] <= times[j]
  }

  lemma {:induction false} FilterAll(times: seq<int>, from: int)
    requires forall i :: 0 <= i < |times| ==> from <= times[i]
    ensures Filter(times, from) == times
  {
    if times != [] {
      var n := |times| - 1;
      FilterAll(times[..n], from);
      assert times == times[..n] + [times[n]];
    }
  }

  lemma {:induction false} FilterWithoutFirst(times: seq<int>, from: int)
    requires times != [] && times[0] < from
    ensures Filter(times, from) == Filter(times[1..], from)
  {
    var n := |times| - 1;
    if n == 0 {
      assert times[..0] == [];
    } else {
      FilterWithoutFirst(times[..n], from);
      assert times[1..][..n - 1] == times[..n][1..];
    }
  }

  /** Stripping the front of an ascending window is filtering it. */
  lemma {:induction false} StripFilters(times: seq<int>, cutoff: int)
    requires Ascending(times)
    ensures Strip(times, cutoff) == Filter(times, cutoff)
    decreases |times|
  {
    if times == [] {
    } else if times[0] >= cutoff {
      FilterAll(times, cutoff);
    } else {
      StripFilters(times[1..], cutoff);
      FilterWithoutFirst(times, cutoff);
    }
  }

  lemma {:induction false} FilterAscending(times: seq<int>, from: int)
    requires Ascending(times)
    ensures Ascending(Filter(times, from))
    ensures forall i :: 0 <= i < |Filter(times, from)| ==> Filter(times, from)[i] in times
  {
    if times != [] {
      var n := |times| - 1;
      var f := Filter(times[..n], from);
      FilterAscending(times[..n], from);
      forall i | 0 <= i < |f|
        ensures f[i] <= times[n] && f[i] in times
      {
        assert f[i] in times[..n];
        var k :| 0 <= k < n && times[..n][k] == f[i];
        assert times[k] == f[i];
      }
    }
  }

  lemma FilterSnoc(times: seq<int>, t: int, from: int)
    ensures Filter(times + [t], from) == if t >= from then Filter(times, from) + [t] else Filter(times, from)
  {
    assert (times + [t])[..|times|] == times;
  }

  lemma {:induction false} FilterTwice(times: seq<int>, from: int, again: int)
    ensures Filter(Filter(times, from), again) == Filter(times, Max(from, again))
  {
    if times != [] {
      var n := |times| - 1;
      FilterTwice(times[..n], from, again);
      FilterSnoc(Filter(times[..n], from), times[n], again);
    }
  }

  /** Recorded times are in order, and not in the future. */
  lemma {:induction false} RecordedAscending(p: Policy, es: seq<Event>, a: Addr)
    requires Monotone(es)
    ensures Ascending(Recorded(p, es, a))
    ensures forall t :: t in Recorded(p, es, a) ==> exists i :: 0 <= i < |es| && es[i].Detection? && es[i].now == t
  {
    if es != [] {
      var n := |es| - 1;
      RecordedAscending(p, es[..n], a);
      var before := Recorded(p, es[..n], a);
      forall t | t in before
        ensures exists i :: 0 <= i < n && es[i].Detection? && es[i].now == t
      {
        var i :| 0 <= i < n && es[..n][i].Detection? && es[..n][i].now == t;
        assert es[i] == es[..n][i];
      }
      if Counts(p, es, n, a) {
        forall k | 0 <= k < |before|
          ensures before[k] <= es[n].now
        {
          assert before[k] in before;
        }
        assert es[n].now == es[n].now;
      }
    }
  }

  /** The window holds the recorded times from the horizon on. */
  predicate WindowIs(p: Policy, es: seq<Event>, a: Addr) {
    Data(After(p, es).book, a).times ==
      if Recorded(p, es, a) == [] then [] else Filter(Recorded(p, es, a), Horizon(p, es, a))
  }

  /** The window of an address holds its recorded times from the horizon on: exactly those,
      whatever the configuration was in between. */
  lemma {:induction false} WindowExactly(p: Policy, es: seq<Event>, a: Addr)
    requires Monotone(es)
    ensures WindowIs(p, es, a)
    decreases |es|
  {
    if es != [] {
      var n := |es| - 1;
      WindowExactly(p, es[..n], a);
      if Counts(p, es, n, a) {
        WindowGrows(p, es, a);
      } else if es[n].Detection? && es[n].a != a {
        DetectFrame(After(p, es[..n]).policy, After(p, es[..n]).book, es[n].a, es[n].now, es[n].ok, a);
      }
    }
  }

  /** What a counting detection does to the window. */
  lemma CountedStep(p: Policy, es: seq<Event>, a: Addr)
    requires es != [] && Counts(p, es, |es| - 1, a)
    ensures var n := |es| - 1; var limit := es[n].now - After(p, es[..n]).policy.rateInterval;
      && Data(After(p, es).book, a).times == Strip(Data(After(p, es[..n]).book, a).times, limit) + [es[n].now]
      && After(p, es).policy == After(p, es[..n]).policy
  {
  }

  /** What it does to the record and the horizon. */
  lemma CountedHistory(p: Policy, es: seq<Event>, a: Addr)
    requires Monotone(es) && es != [] && Counts(p, es, |es| - 1, a)
    ensures var n := |es| - 1; var before := Recorded(p, es[..n], a);
      var limit := es[n].now - After(p, es[..n]).policy.rateInterval;
      && Recorded(p, es, a) == before + [es[n].now]
      && Horizon(p, es, a) == (if before == [] then limit else Max(limit, Horizon(p, es[..n], a)))
      && Ascending(before) && (before != [] ==> Horizon(p, es[..n], a) <= es[n].now)
  {
    var n := |es| - 1;
    RecordedAscending(p, es[..n], a);
    if Recorded(p, es[..n], a) != [] {
      HorizonPast(p, es[..n], a, es[n].now);
    }
  }

  lemma WindowGrows(p: Policy, es: seq<Event>, a: Addr)
    requires Monotone(es) && es != [] && Counts(p, es, |es| - 1, a) && WindowIs(p, es[..|es| - 1], a)
    ensures WindowIs(p, es, a)
  {
    var es', now := es[..|es| - 1], es[|es| - 1].now;
    var times, times' := Data(After(p, es').book, a).times, Data(After(p, es).book, a).times;
    var before, all := Recorded(p, es', a), Recorded(p, es, a);
    var limit := now - After(p, es').policy.rateInterval;
    var horizon := if before == [] then limit else Horizon(p, es', a);
    assert times' == Strip(times, limit) + [now] by { CountedStep(p, es, a); }
    assert all == before + [now] && Ascending(before) && horizon <= now by { CountedHistory(p, es, a); }
    assert Horizon(p, es, a) == Max(limit, horizon) by { CountedHistory(p, es, a); }
    assert times == Filter(before, horizon);
    StripMerges(before, horizon, limit, now);
  }

  /** Stripping a window and adding to it is moving its horizon. */
  lemma StripMerges(before: seq<int>, horizon: int, limit: int, now: int)
    requires Ascending(before) && horizon <= now && limit <= now
    ensures Strip(Filter(before, horizon), limit) + [now] == Filter(before + [now], Max(limit, horizon))
  {
    FilterAscending(before, horizon);
    StripFilters(Filter(before, horizon), limit);
    FilterTwice(before, horizon, limit);
    FilterSnoc(before, now, Max(limit, horizon));
  }

  /** The horizon is no later than any time from the last counting detection on. */
  lemma {:induction false} HorizonPast(p: Policy, es: seq<Event>, a: Addr, now: int)
    requires Recorded(p, es, a) != []
    requires forall i :: 0 <= i < |es| && es[i].Detection? ==> es[i].now <= now
    ensures Horizon(p, es, a) <= now
  {
    var n := |es| - 1;
    if !Counts(p, es, n, a) || Recorded(p, es[..n], a) != [] {
      HorizonPast(p, es[..n], a, now);
    }
  }

  // ----- A fixed configuration -----

  predicate NoReloads(es: seq<Event>) {
    forall i :: 0 <= i < |es| ==> es[i].Detection?
  }

  /** Every time `a` was detected, for the events alone. */
  function Times(es: seq<Event>, a: Addr): seq<int> {
    if es == [] then [] else
      var e := es[|es| - 1];
      if e.Detection? && e.a == a then Times(es[..|es| - 1], a) + [e.now] else Times(es[..|es| - 1], a)
  }

  /** Blocking is for good. */
  lemma StepSticky(p: Policy, es: seq<Event>, a: Addr)
    requires es != [] && BlockedAfter(p, es[..|es| - 1], a)
    ensures BlockedAfter(p, es, a)
  {
    var n := |es| - 1;
    if es[n].Detection? && es[n].a != a {
      DetectFrame(After(p, es[..n]).policy, After(p, es[..n]).book, es[n].a, es[n].now, es[n].ok, a);
    }
  }

  lemma {:induction false} NothingSkipped(p: Policy, es: seq<Event>, a: Addr)
    requires NoReloads(es) && !Exempt(p, a)
    ensures After(p, es).policy == p
    ensures !BlockedAfter(p, es, a) ==> Recorded(p, es, a) == Times(es, a)
  {
    if es != [] {
      var n := |es| - 1;
      NothingSkipped(p, es[..n], a);
      if BlockedAfter(p, es[..n], a) {
        StepSticky(p, es, a);
      }
    }
  }

  /** Every reload keeps the interval or makes it shorter. */
  predicate Narrowing(p: Policy, es: seq<Event>) {
    es == [] || (
      var n := |es| - 1;
      Narrowing(p, es[..n]) &&
      (es[n].Reload? ==> es[n].policy.rateInterval <= After(p, es[..n]).policy.rateInterval))
  }

  lemma {:induction false} NoReloadsNarrow(p: Policy, es: seq<Event>)
    requires NoReloads(es)
    ensures Narrowing(p, es)
  {
    if es != [] {
      NoReloadsNarrow(p, es[..|es| - 1]);
    }
  }

  lemma {:induction false} HorizonBound(p: Policy, es: seq<Event>, a: Addr, now: int)
    requires Narrowing(p, es) && Recorded(p, es, a) != []
    requires forall i :: 0 <= i < |es| && es[i].Detection? ==> es[i].now <= now
    ensures Horizon(p, es, a) <= now - After(p, es).policy.rateInterval
  {
    var n := |es| - 1;
    if !Counts(p, es, n, a) || Recorded(p, es[..n], a) != [] {
      HorizonBound(p, es[..n], a, now);
    }
  }

  /** If intervals only get shorter, the horizon is the limit of the present interval. */
  lemma HorizonIsCurrent(p: Policy, es: seq<Event>, a: Addr)
    requires Monotone(es) && Narrowing(p, es) && es != [] && Counts(p, es, |es| - 1, a)
    ensures Horizon(p, es, a) == es[|es| - 1].now - After(p, es).policy.rateInterval
  {
    var n := |es| - 1;
    if Recorded(p, es[..n], a) != [] {
      HorizonBound(p, es[..n], a, es[n].now);
    }
  }

  /** What a detection that counts leads to: the window is looked at and nothing else. */
  lemma AttemptIff(p: Policy, es: seq<Event>, a: Addr)
    requires es != [] && Counts(p, es, |es| - 1, a)
    ensures AttemptAt(p, es, |es| - 1) <==> |Data(After(p, es).book, a).times| > After(p, es).policy.rateMax
  {
  }

  // ----- Changing configurations -----

  /** No time lies between `from` and `to`. */
  predicate NoneBetween(times: seq<int>, from: int, to: int) {
    forall i :: 0 <= i < |times| && from <= times[i] ==> to <= times[i]
  }

  lemma {:induction false} FilterMono(times: seq<int>, from: int, to: int)
    requires from <= to
    ensures |Filter(times, to)| <= |Filter(times, from)|
    ensures |Filter(times, to)| == |Filter(times, from)| ==> NoneBetween(times, from, to)
    ensures NoneBetween(times, from, to) ==> Filter(times, to) == Filter(times, from)
  {
    if times != [] {
      var n := |times| - 1;
      FilterMono(times[..n], from, to);
      assert forall i :: 0 <= i < n ==> times[i] == times[..n][i];
    }
  }

  /** When the last event counts, how its window stands to the present interval. */
  lemma LastWindow(p: Policy, es: seq<Event>, a: Addr, limit: int)
    requires Monotone(es) && es != [] && Counts(p, es, |es| - 1, a)
    requires limit == es[|es| - 1].now - After(p, es).policy.rateInterval
    ensures Recorded(p, es, a) != [] && limit <= Horizon(p, es, a)
    ensures Data(After(p, es).book, a).times == Filter(Recorded(p, es, a), Horizon(p, es, a))
    ensures AttemptAt(p, es, |es| - 1) <==> |Data(After(p, es).book, a).times| > After(p, es).policy.rateMax
  {
    CountedStep(p, es, a);
    AttemptIff(p, es, a);
    WindowExactly(p, es, a);
  }

  /** Whatever the configuration was before, an attempt to block means that there were too many
      detections in the present interval. */
  lemma AttemptsAreSound(p: Policy, es: seq<Event>, a: Addr)
    requires Monotone(es) && es != [] && Counts(p, es, |es| - 1, a) && AttemptAt(p, es, |es| - 1)
    ensures var policy := After(p, es).policy;
      |Filter(Recorded(p, es, a), es[|es| - 1].now - policy.rateInterval)| > policy.rateMax
  {
    var limit := es[|es| - 1].now - After(p, es).policy.rateInterval;
    LastWindow(p, es, a, limit);
    FilterMono(Recorded(p, es, a), limit, Horizon(p, es, a));
  }

  /** The window is all of the present interval exactly when nothing recorded in it lies before
      the horizon. */
  lemma WindowCompleteIff(p: Policy, es: seq<Event>, a: Addr)
    requires Monotone(es) && es != [] && Counts(p, es, |es| - 1, a)
    ensures var limit := es[|es| - 1].now - After(p, es).policy.rateInterval;
      Data(After(p, es).book, a).times == Filter(Recorded(p, es, a), limit) <==>
        NoneBetween(Recorded(p, es, a), limit, Horizon(p, es, a))
  {
    var limit := es[|es| - 1].now - After(p, es).policy.rateInterval;
    LastWindow(p, es, a, limit);
    FilterMono(Recorded(p, es, a), limit, Horizon(p, es, a));
  }

  /** It always is when no reload lengthened the interval. */
  lemma NarrowingIsComplete(p: Policy, es: seq<Event>, a: Addr)
    requires Monotone(es) && Narrowing(p, es) && es != [] && Counts(p, es, |es| - 1, a)
    ensures var policy := After(p, es).policy;
      var window := Filter(Recorded(p, es, a), es[|es| - 1].now - policy.rateInterval);
      && Data(After(p, es).book, a).times == window
      && (AttemptAt(p, es, |es| - 1) <==> |window| > policy.rateMax)
  {
    HorizonIsCurrent(p, es, a);
    LastWindow(p, es, a, es[|es| - 1].now - After(p, es).policy.rateInterval);
  }

  /** With one configuration and a clock that is not set back, the window of an address that
      is neither exempt nor blocked holds exactly its detections of the last interval, and an
      attempt to block it is made exactly when they are too many. */
  lemma SlidingWindow(p: Policy, es: seq<Event>, a: Addr)
    requires NoReloads(es) && Monotone(es) && es != [] && es[|es| - 1].a == a
    requires !Exempt(p, a) && !BlockedAfter(p, es[..|es| - 1], a)
    ensures var n := |es| - 1; var window := Filter(Times(es, a), es[n].now - p.rateInterval);
      && Data(After(p, es).book, a).times == window
      && (AttemptAt(p, es, n) <==> |window| > p.rateMax)
  {
    var n := |es| - 1;
    NothingSkipped(p, es[..n], a);
    assert Counts(p, es, n, a);
    assert Recorded(p, es, a) == Times(es, a);
    assert After(p, es).policy == p;
    NoReloadsNarrow(p, es);
    NarrowingIsComplete(p, es, a);
  }

  /** The decision in full: with one configuration and a clock that is not set back, an attempt
      is made exactly on an address that is in no exempt network, is not blocked, and has been
      detected too often in the last interval. */
  lemma AttemptedIff(p: Policy, es: seq<Event>, a: Addr)
    requires NoReloads(es) && Monotone(es) && es != [] && es[|es| - 1].a == a
    ensures var n := |es| - 1;
      AttemptAt(p, es, n) <==>
        && !InExemptNetwork(p, a) && !BlockedAfter(p, es[..n], a)
        && |Filter(Times(es, a), es[n].now - p.rateInterval)| > p.rateMax
  {
    var n := |es| - 1;
    ExemptIff(p, a);
    FixedPolicy(p, es[..n]);
    if !Exempt(p, a) && !BlockedAfter(p, es[..n], a) {
      SlidingWindow(p, es, a);
    }
  }

  lemma {:induction false} FixedPolicy(p: Policy, es: seq<Event>)
    requires NoReloads(es)
    ensures After(p, es).policy == p
  {
    if es != [] {
      FixedPolicy(p, es[..|es| - 1]);
    }
  }

  /** After a reload its policy holds until the next. */
  lemma {:induction false} PolicyIsLatest(p: Policy, es: seq<Event>, i: nat)
    requires i < |es| && es[i].Reload? && forall j :: i < j < |es| ==> es[j].Detection?
    ensures After(p, es).policy == es[i].policy
  {
    if i < |es| - 1 {
      PolicyIsLatest(p, es[..|es| - 1], i);
    }
  }

  // ----- Over a whole run -----

  predicate SuccessAt(p: Policy, es: seq<Event>, i: nat)
    requires i < |es|
  {
    AttemptAt(p, es, i) && es[i].ok
  }

  lemma {:induction false} PrefixSticky(p: Policy, es: seq<Event>, a: Addr, i: nat)
    requires i <= |es| && BlockedAfter(p, es[..i], a)
    ensures BlockedAfter(p, es, a)
    decreases |es| - i
  {
    if i == |es| {
      assert es[..i] == es;
    } else {
      assert es[..i + 1][..i] == es[..i];
      StepSticky(p, es[..i + 1], a);
      PrefixSticky(p, es, a, i + 1);
    }
  }

  lemma AttemptOutcome(p: Policy, es: seq<Event>, i: nat)
    requires i < |es| && AttemptAt(p, es, i)
    ensures !BlockedAfter(p, es[..i], es[i].a)
    ensures BlockedAfter(p, es[..i + 1], es[i].a) <==> es[i].ok
  {
    assert es[..i + 1][..i] == es[..i];
  }

  /** An address is blocked at most once; once it is, no further attempt is made; and an
      attempt that fails leaves it eligible. */
  lemma BlockedOnce(p: Policy, es: seq<Event>, i: nat, j: nat)
    requires i < j < |es| && SuccessAt(p, es, i) && AttemptAt(p, es, j)
    ensures es[i].a != es[j].a
  {
    AttemptOutcome(p, es, i);
    AttemptOutcome(p, es, j);
    assert es[..j][..i + 1] == es[..i + 1];
    PrefixSticky(p, es[..j], es[i].a, i + 1);
  }

  ghost predicate BlockedForGood(p: Policy, es: seq<Event>) {
    forall i, j :: 0 <= i < j < |es| && SuccessAt(p, es, i) && AttemptAt(p, es, j) ==> es[i].a != es[j].a
  }

  lemma EveryBlockIsForGood(p: Policy, es: seq<Event>)
    ensures BlockedForGood(p, es)
  {
    forall i, j | 0 <= i < j < |es| && SuccessAt(p, es, i) && AttemptAt(p, es, j)
      ensures es[i].a != es[j].a
    {
      BlockedOnce(p, es, i, j);
    }
  }

  ghost predicate SucceededBefore(p: Policy, es: seq<Event>, n: nat, a: Addr)
    requires n <= |es|
  {
    exists i :: 0 <= i < n && SuccessAt(p, es, i) && es[i].a == a
  }

  lemma SuccessInPrefix(p: Policy, es: seq<Event>, n: nat, a: Addr)
    requires n <= |es|
    ensures SucceededBefore(p, es[..n], n, a) <==> SucceededBefore(p, es, n, a)
  {
    forall i | 0 <= i < n
      ensures SuccessAt(p, es[..n], i) == SuccessAt(p, es, i) && es[..n][i] == es[i]
    {
      assert es[..n][..i] == es[..i];
    }
  }

  /** Blocked means that an attempt has succeeded, and nothing else. */
  lemma {:induction false} BlockedIffSucceeded(p: Policy, es: seq<Event>, a: Addr)
    ensures BlockedAfter(p, es, a) <==> exists i :: 0 <= i < |es| && SuccessAt(p, es, i) && es[i].a == a
  {
    if es != [] {
      var n := |es| - 1;
      assert BlockedAfter(p, es[..n], a) <==> SucceededBefore(p, es[..n], n, a) by {
        BlockedIffSucceeded(p, es[..n], a);
      }
      SuccessInPrefix(p, es, n, a);
      if BlockedAfter(p, es[..n], a) {
        StepSticky(p, es, a);
      } else {
        LastSuccess(p, es, a);
      }
    }
  }

  lemma LastSuccess(p: Policy, es: seq<Event>, a: Addr)
    requires es != [] && !BlockedAfter(p, es[..|es| - 1], a)
    ensures BlockedAfter(p, es, a) <==> SuccessAt(p, es, |es| - 1) && es[|es| - 1].a == a
  {
    var n := |es| - 1;
    if es[n].Detection? && es[n].a != a {
      DetectFrame(After(p, es[..n]).policy, After(p, es[..n]).book, es[n].a, es[n].now, es[n].ok, a);
    }
  }

  /** No attempt is made on an address inside a network that is exempt at the time, provided
      the network is written without host bits; one written with host bits exempts nothing. */
  lemma ExemptNeverAttempted(p: Policy, es: seq<Event>, i: nat, x: Exemption)
    requires i < |es| && AttemptAt(p, es, i)
    requires x in After(p, es[..i]).policy.exempted
    ensures InNetwork(x.network, x.bits, es[i].a) ==> !HostBitsZero(x.network, x.bits)
  {
    MatchesIsArithmetic(x.network, x.bits, es[i].a);
  }

  /** A window that does not grow back: after a change from a minute to an hour, three
      detections within the hour are not more than two, because one was forgotten before. */
  lemma LongerIntervalForgets(a: Addr)
    ensures var minute := Policy([], 2, 60);
      var es := [Detection(a, 0, true), Detection(a, 100, true), Reload(Policy([], 2, 3600)), Detection(a, 101, true)];
      && Recorded(minute, es, a) == [0, 100, 101]
      && Data(After(minute, es).book, a).times == [100, 101]
      && !AttemptAt(minute, es, 3)
  {
    var minute, hour := Policy([], 2, 60), Policy([], 2, 3600);
    var e0, e1, e2, e3 := Detection(a, 0, true), Detection(a, 100, true), Reload(hour), Detection(a, 101, true);
    OneDetection(minute, [], a, 0, []);
    assert [] + [e0] == [e0];
    OneDetection(minute, [e0], a, 100, [0]);
    assert [e0] + [e1] == [e0, e1];
    StripOne(0, 40);
    Snoc(minute, [e0, e1], e2, a);
    assert [e0, e1] + [e2] == [e0, e1, e2];
    OneDetection(minute, [e0, e1, e2], a, 101, [100]);
    assert [e0, e1, e2] + [e3] == [e0, e1, e2, e3];
  }

  lemma StripOne(t: int, cutoff: int)
    requires t < cutoff
    ensures Strip([t], cutoff) == []
  {
    var times := [t];
    assert times[1..] == [];
  }

  /** One more detection of an address that is neither exempt nor blocked. */
  lemma OneDetection(p: Policy, es: seq<Event>, a: Addr, now: int, times: seq<int>)
    requires After(p, es).policy.exempted == [] && Data(After(p, es).book, a) == AddressData(times, false)
    ensures var policy := After(p, es).policy; var all := es + [Detection(a, now, true)];
      var window := Strip(times, now - policy.rateInterval) + [now];
      && After(p, all).policy == policy
      && Data(After(p, all).book, a) == AddressData(window, |window| > policy.rateMax)
      && Recorded(p, all, a) == Recorded(p, es, a) + [now]
      && (AttemptAt(p, all, |es|) <==> |window| > policy.rateMax)
  {
    Snoc(p, es, Detection(a, now, true), a);
    assert (es + [Detection(a, now, true)])[..|es|] == es;
  }

  /** One more event. */
  lemma Snoc(p: Policy, es: seq<Event>, e: Event, a: Addr)
    ensures After(p, es + [e]) == Step(After(p, es), e)
    ensures Recorded(p, es + [e], a) ==
      if e.Detection? && e.a == a && !BlockedAfter(p, es, a) && !Exempt(After(p, es).policy, a)
      then Recorded(p, es, a) + [e.now] else Recorded(p, es, a)
  {
    assert (es + [e])[..|es|] == es;
  }
}
