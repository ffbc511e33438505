/** From the bytes of a log file to the book of addresses: the followers, the splitting into
    lines, the patterns and the rate limiter put together. */
module EndToEnd {
  import opened Wrappers
  import opened Addresses
  import opened RateLimit
  import opened Blocking
  import Lines
  import FileSystem
  import Following
  import Inotify
  import InotifyProofs
  import Polling

  /** What one pattern makes of a line, as far as the line decides it. */
  datatype Match = Missed | NotAnAddress | Named(a: Addr)

  /** The patterns of a configuration, in order. */
  type Patterns = string -> seq<Match>

  function MatchOf(c: Capture): Match {
    match c
    case NoMatch => Missed
    case NotAddress => NotAnAddress
    case Found(a, _, _) => Named(a)
  }

  function MatchesOf(cs: seq<Capture>): seq<Match> {
    seq(|cs|, i requires 0 <= i < |cs| => MatchOf(cs[i]))
  }

  /** The addresses that a line names, up to a capture that is none, which ends the daemon. */
  function Names(ms: seq<Match>): seq<Addr> {
    if ms == [] || ms[0].NotAnAddress? then []
    else if ms[0].Missed? then Names(ms[1..])
    else [ms[0].a] + Names(ms[1..])
  }

  predicate Readable(ms: seq<Match>) {
    forall i :: 0 <= i < |ms| ==> !ms[i].NotAnAddress?
  }

  /** The addresses that lines name. */
  function NamesIn(patterns: Patterns, lines: seq<string>): seq<Addr> {
    if lines == [] then []
    else
      var ms := patterns(lines[0]);
      Names(ms) + if Readable(ms) then NamesIn(patterns, lines[1..]) else []
  }

  /** The captures of each line: the line decides what is found, but neither when nor what the
      block method answers. */
  ghost predicate Captured(patterns: Patterns, lines: seq<string>, css: seq<seq<Capture>>) {
    |css| == |lines| && forall k :: 0 <= k < |lines| ==> MatchesOf(css[k]) == patterns(lines[k])
  }

  /** The detections in a number of lines. */
  function Detected(css: seq<seq<Capture>>): seq<Event> {
    if css == [] then []
    else Detections(css[0]) + if AllAddresses(css[0]) then Detected(css[1..]) else []
  }

  function AddressesOf(es: seq<Event>): seq<Addr> {
    if es == [] then []
    else (if es[0].Detection? then [es[0].a] else []) + AddressesOf(es[1..])
  }

  lemma {:induction false} AddressesAppend(es: seq<Event>, fs: seq<Event>)
    ensures AddressesOf(es + fs) == AddressesOf(es) + AddressesOf(fs)
  {
    if es == [] {
      assert es + fs == fs;
    } else {
      assert (es + fs)[1..] == es[1..] + fs;
      AddressesAppend(es[1..], fs);
    }
  }

  lemma {:induction false} DetectionsName(cs: seq<Capture>)
    ensures AddressesOf(Detections(cs)) == Names(MatchesOf(cs)) && NoReloads(Detections(cs))
    ensures AllAddresses(cs) <==> Readable(MatchesOf(cs))
  {
    if cs != [] {
      DetectionsName(cs[1..]);
      var ms := MatchesOf(cs);
      assert ms[0] == MatchOf(cs[0]) && ms[1..] == MatchesOf(cs[1..]);
      assert Readable(ms) <==> !ms[0].NotAnAddress? && Readable(ms[1..]) by {
        assert forall i :: 0 < i < |ms| ==> ms[i] == ms[1..][i - 1];
      }
      assert AllAddresses(cs) <==> !cs[0].NotAddress? && AllAddresses(cs[1..]) by {
        assert forall i :: 0 < i < |cs| ==> cs[i] == cs[1..][i - 1];
      }
      if cs[0].Found? {
        var d, more := Detection(cs[0].a, cs[0].now, cs[0].ok), Detections(cs[1..]);
        assert ([d] + more)[1..] == more;
      }
    }
  }

  /** Of each line, in order, what it names is detected, and nothing else. */
  lemma {:induction false} LinesAreDetected(patterns: Patterns, lines: seq<string>, css: seq<seq<Capture>>)
    requires Captured(patterns, lines, css)
    ensures AddressesOf(Detected(css)) == NamesIn(patterns, lines) && NoReloads(Detected(css))
  {
    if css != [] {
      DetectionsName(css[0]);
      LinesAreDetected(patterns, lines[1..], css[1..]);
      AddressesAppend(Detections(css[0]), if AllAddresses(css[0]) then Detected(css[1..]) else []);
    }
  }

  /** The book after these lines, on top of whatever was detected and reloaded before, and the
      guarantees of the rate limiter about it. */
  ghost predicate Booked(p: Policy, before: seq<Event>, es: seq<Event>) {
    var all := before + es;
    && Play(After(p, before), es) == After(p, all)
    && BlockedForGood(p, all)
    && forall a :: BlockedAfter(p, all, a) <==>
         exists i :: 0 <= i < |all| && SuccessAt(p, all, i) && all[i].a == a
  }

  lemma BookIsRight(p: Policy, before: seq<Event>, es: seq<Event>)
    ensures Booked(p, before, es)
  {
    PlayContinues(p, before, es);
    EveryBlockIsForGood(p, before + es);
    forall a {
      BlockedIffSucceeded(p, before + es, a);
    }
  }

  ghost predicate AttemptedRightAt(p: Policy, es: seq<Event>, i: nat)
    requires i < |es| && es[i].Detection?
  {
    AttemptAt(p, es, i) <==>
      && !InExemptNetwork(p, es[i].a) && !BlockedAfter(p, es[..i], es[i].a)
      && |Filter(Times(es[..i + 1], es[i].a), es[i].now - p.rateInterval)| > p.rateMax
  }

  /** With one configuration and a clock that is not set back: an attempt is made exactly on an
      address that is in no exempt network, is not blocked, and was detected too often within
      the interval. */
  ghost predicate AttemptedWhenTooMany(p: Policy, es: seq<Event>) {
    forall i :: 0 <= i < |es| && es[i].Detection? ==> AttemptedRightAt(p, es, i)
  }

  lemma AttemptIsRight(p: Policy, es: seq<Event>, i: nat)
    requires NoReloads(es) && Monotone(es) && i < |es|
    ensures es[i].Detection? && AttemptedRightAt(p, es, i)
  {
    var upTo := es[..i + 1];
    assert NoReloads(upTo) && Monotone(upTo) && upTo[i] == es[i];
    assert upTo[..i] == es[..i];
    AttemptedIff(p, upTo, es[i].a);
  }

  lemma AttemptsAreRight(p: Policy, es: seq<Event>)
    requires NoReloads(es) && Monotone(es)
    ensures AttemptedWhenTooMany(p, es)
  {
    forall i | 0 <= i < |es|
      ensures es[i].Detection? && AttemptedRightAt(p, es, i)
    {
      AttemptIsRight(p, es, i);
    }
  }

  /** In every interleaving of the inotify follower with other processes: the detections made
      are of exactly the addresses named in the lines of the bytes of its sessions, each
      session split on its own, in order; and the book is that of these detections. */
  lemma InotifyToBook(fs: FileSystem.Fs, base: FileSystem.Name, steps: seq<Inotify.Step>,
                      patterns: Patterns, css: seq<seq<Capture>>, p: Policy, before: seq<Event>)
    requires FileSystem.ValidFs(fs) && Inotify.Possible(Inotify.Begin(fs, base), steps)
    requires Captured(patterns, Inotify.Run(Inotify.Begin(fs, base), steps).s.f.out, css)
    ensures var m := Inotify.Run(Inotify.Begin(fs, base), steps);
      && Following.SessionsFit(m.s.fs, m.closed)
      && AddressesOf(Detected(css)) == NamesIn(patterns,
           Following.Delivered(m.s.fs, m.closed) + Lines.Split(InotifyProofs.Consumed(m)).out)
    ensures Booked(p, before, Detected(css))
    ensures before == [] && Monotone(Detected(css)) ==> AttemptedWhenTooMany(p, Detected(css))
  {
    InotifyProofs.DeliveredExactly(fs, base, steps);
    LinesAreDetected(patterns, Inotify.Run(Inotify.Begin(fs, base), steps).s.f.out, css);
    BookIsRight(p, before, Detected(css));
    if Monotone(Detected(css)) {
      AttemptsAreRight(p, Detected(css));
    }
  }

  /** The same for the follower that polls. */
  lemma PollingToBook(fs: FileSystem.Fs, path: FileSystem.Name, start: int, steps: seq<Polling.Step>,
                      patterns: Patterns, css: seq<seq<Capture>>, p: Policy, before: seq<Event>)
    requires FileSystem.ValidFs(fs) && FileSystem.UniqueIds(fs, {})
    requires Polling.Possible(Polling.Begin(fs, path, start), steps)
    requires Captured(patterns, Polling.Run(Polling.Begin(fs, path, start), steps).p.f.out, css)
    ensures var m := Polling.Run(Polling.Begin(fs, path, start), steps);
      && Following.SessionsFit(m.p.fs, m.closed)
      && AddressesOf(Detected(css)) == NamesIn(patterns,
           Following.Delivered(m.p.fs, m.closed) + Lines.Split(Polling.Consumed(m.p)).out)
    ensures Booked(p, before, Detected(css))
    ensures before == [] && Monotone(Detected(css)) ==> AttemptedWhenTooMany(p, Detected(css))
  {
    Polling.PollingFollows(fs, path, start, steps, start);
    LinesAreDetected(patterns, Polling.Run(Polling.Begin(fs, path, start), steps).p.f.out, css);
    BookIsRight(p, before, Detected(css));
    if Monotone(Detected(css)) {
      AttemptsAreRight(p, Detected(css));
    }
  }
}
