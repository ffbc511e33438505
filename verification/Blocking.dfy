/** The blocking watcher as an object: the book of addresses it changes in place. */
module Blocking {
  import opened Addresses
  import opened RateLimit

  /** What one pattern makes of a line; a captured text that is no address is an exception. */
  datatype Capture = NoMatch | NotAddress | Found(a: Addr, now: int, ok: bool)

  function Play(s: State, es: seq<Event>): State
    decreases |es|
  {
    if es == [] then s else Play(Step(s, es[0]), es[1..])
  }

  /** The detections in a line, up to an exception. */
  function Detections(cs: seq<Capture>): seq<Event> {
    if cs == [] || cs[0].NotAddress? then []
    else if cs[0].NoMatch? then Detections(cs[1..])
    else [Detection(cs[0].a, cs[0].now, cs[0].ok)] + Detections(cs[1..])
  }

  predicate AllAddresses(cs: seq<Capture>) {
    forall i :: 0 <= i < |cs| ==> !cs[i].NotAddress?
  }

  /** What decides which detections a line has: a capture that matched is one, at its time and
      with its answer; one that did not is none; and one that is no address ends the line. */
  lemma DetectionsOfOne(c: Capture)
    ensures Detections([c]) == if c.Found? then [Detection(c.a, c.now, c.ok)] else []
  {
    assert [c][1..] == [];
  }

  lemma {:induction false} DetectionsCompose(cs: seq<Capture>, ds: seq<Capture>)
    ensures Detections(cs + ds) == Detections(cs) + if AllAddresses(cs) then Detections(ds) else []
  {
    if cs == [] {
      assert cs + ds == ds;
    } else {
      var c, rest := cs[0], cs[1..];
      assert (cs + ds)[0] == c && (cs + ds)[1..] == rest + ds;
      assert AllAddresses(cs) <==> !c.NotAddress? && AllAddresses(rest) by {
        assert forall i :: 0 < i < |cs| ==> cs[i] == rest[i - 1];
      }
      if !c.NotAddress? {
        DetectionsCompose(rest, ds);
      }
    }
  }

  /** What one watcher does continues the run that all of them share. */
  lemma {:induction false} PlayContinues(p: Policy, es: seq<Event>, fs: seq<Event>)
    ensures Play(After(p, es), fs) == After(p, es + fs)
    decreases |fs|
  {
    if fs == [] {
      assert es + fs == es;
    } else {
      Snoc(p, es, fs[0], V4Mapped((0, 0, 0, 0)));
      PlayContinues(p, es + [fs[0]], fs[1..]);
      assert es + fs == es + [fs[0]] + fs[1..];
    }
  }

  lemma PlayFirst(s: State, e: Event, es: seq<Event>)
    ensures Play(s, [e] + es) == Play(Step(s, e), es)
  {
    assert ([e] + es)[1..] == es;
  }

  class BlockingWatcher {
    var policy: Policy
    var addressData: Book

    constructor (policy: Policy)
      ensures View() == State(policy, map[])
    {
      this.policy, addressData := policy, map[];
    }

    function View(): State
      reads this
    {
      State(policy, addressData)
    }

    method IsExempt(a: Addr) returns (exempt: bool)
      ensures exempt <==> Exempt(policy, a)
      ensures exempt <==> InExemptNetwork(policy, a)
    {
      ExemptIff(policy, a);
      for i := 0 to |policy.exempted|
        invariant forall j :: 0 <= j < i ==> !Covers(policy.exempted[j], a)
      {
        if Covers(policy.exempted[i], a) {
          return true;
        }
      }
      return false;
    }

    /** `ok` is the answer of the block method, if it is called. */
    method DetectedAddress(a: Addr, now: int, ok: bool) returns (attempted: bool)
      modifies this`addressData
      ensures Verdict(addressData, attempted) == Detect(policy, old(addressData), a, now, ok)
    {
      attempted := false;
      var exempt := IsExempt(a);
      if exempt {
        return;
      }
      var ad := Data(addressData, a);
      if !ad.blocked {
        var times := ad.times;
        var cutoff := now - policy.rateInterval;
        while |times| != 0 && times[0] < cutoff
          invariant Strip(times, cutoff) == Strip(ad.times, cutoff)
        {
          times := times[1..];
        }
        times := times + [now];
        var blocked := false;
        if |times| > policy.rateMax {
          attempted := true;
          if ok {
            blocked := true;
          }
        }
        addressData := addressData[a := AddressData(times, blocked)];
      }
    }

    /** A line that several patterns match counts once for each; a capture that is not an
        address abandons the line where it stands. */
    method ProcessLine(captures: seq<Capture>) returns (ok: bool)
      modifies this`addressData
      ensures View() == Play(old(View()), Detections(captures))
      ensures ok <==> AllAddresses(captures)
    {
      ghost var goal := Play(View(), Detections(captures));
      for i := 0 to |captures|
        invariant policy == old(policy)
        invariant goal == Play(View(), Detections(captures[i..]))
        invariant AllAddresses(captures[..i])
      {
        ghost var rest := captures[i..];
        assert rest[0] == captures[i] && rest[1..] == captures[i + 1..];
        assert captures[..i + 1] == captures[..i] + [captures[i]];
        match captures[i] {
          case NoMatch =>
          case NotAddress => return false;
          case Found(a, now, allowed) =>
            ghost var more := Detections(captures[i + 1..]);
            PlayFirst(View(), Detection(a, now, allowed), more);
            var attempted := DetectedAddress(a, now, allowed);
        }
      }
      assert captures[..|captures|] == captures;
      return true;
    }
  }
}
