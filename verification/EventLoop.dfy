/** How long the daemon waits, for what, and whom it wakes. */
module EventLoop {
  import opened Arithmetic

  const MILLION := 1000000
  const TIME_MAX := 0x7FFF_FFFF_FFFF_FFFF

  datatype Timeval = Timeval(sec: int, usec: int)

  predicate Normal(t: Timeval) {
    0 <= t.usec < MILLION
  }

  function Micros(t: Timeval): int {
    t.sec * MILLION + t.usec
  }

  function Minus(a: Timeval, b: Timeval): Timeval {
    var r := Timeval(a.sec - b.sec, a.usec - b.usec);
    if r.usec < 0 then Timeval(r.sec - 1, r.usec + MILLION) else r
  }

  function TimeMinus(a: int, b: Timeval): Timeval {
    Minus(Timeval(a, 0), b)
  }

  predicate Before(a: Timeval, b: Timeval) {
    a.sec < b.sec || (a.sec == b.sec && a.usec < b.usec)
  }

  predicate BeforeTime(a: Timeval, b: int) {
    a.sec < b
  }

  predicate FromTime(a: Timeval, b: int) {
    a.sec >= b
  }

  /** Normal times behave as the microseconds they stand for. */
  lemma TimesAreMicros(a: Timeval, b: Timeval, t: int)
    requires Normal(a) && Normal(b)
    ensures Normal(Minus(a, b)) && Micros(Minus(a, b)) == Micros(a) - Micros(b)
    ensures Before(a, b) <==> Micros(a) < Micros(b)
    ensures BeforeTime(a, t) <==> Micros(a) < t * MILLION
    ensures FromTime(a, t) <==> t * MILLION <= Micros(a)
  {
  }

  /** The timeout given to select. */
  function Timeout(limit: int, now: Timeval): Timeval {
    var delta := TimeMinus(limit, now);
    if BeforeTime(delta, 0) then Timeval(0, 0) else delta
  }

  lemma TimeoutIs(limit: int, now: Timeval)
    requires Normal(now)
    ensures Normal(Timeout(limit, now)) && Micros(Timeout(limit, now)) == Max(0, limit * MILLION - Micros(now))
  {
    TimesAreMicros(Timeval(limit, 0), now, 0);
    TimesAreMicros(TimeMinus(limit, now), now, 0);
  }

  // ----- Watchers -----

  /** What a watcher has to say to the loop: a descriptor, or when to look again. */
  datatype Source = Descriptor(fd: nat) | Timer(next: int)

  /** pollfd: the descriptor or -1, and the limit brought forward. */
  function PollFd(w: Source, limit: int): (int, int) {
    match w
    case Descriptor(fd) => (fd as int, limit)
    case Timer(next) => (-1, if limit > next then next else limit)
  }

  /** `limit` is the earliest of the timers, or TIME_MAX. */
  ghost predicate Earliest(limit: int, ws: seq<Source>) {
    && limit <= TIME_MAX
    && (forall i :: 0 <= i < |ws| && ws[i].Timer? ==> limit <= ws[i].next)
    && (limit == TIME_MAX || exists i :: 0 <= i < |ws| && ws[i] == Timer(limit))
  }

  /** The set of descriptors to wait for, the largest of them, and until when. */
  method Collect(signalFd: nat, ws: seq<Source>) returns (fds: set<int>, maxfd: int, limit: int)
    ensures Earliest(limit, ws)
    ensures fds == {signalFd as int} + set i | 0 <= i < |ws| && ws[i].Descriptor? :: ws[i].fd as int
    ensures maxfd in fds && forall fd :: fd in fds ==> fd <= maxfd
  {
    limit := TIME_MAX;
    fds := {signalFd as int};
    maxfd := signalFd;
    for n := 0 to |ws|
      invariant Earliest(limit, ws[..n])
      invariant fds == {signalFd as int} + set i | 0 <= i < n && ws[i].Descriptor? :: ws[i].fd as int
      invariant maxfd in fds && forall fd :: fd in fds ==> fd <= maxfd
    {
      ghost var was := limit;
      var (fd, limit') := PollFd(ws[n], limit);
      limit := limit';
      EarliestOneMore(was, ws[..n], ws[n]);
      assert ws[..n + 1] == ws[..n] + [ws[n]];
      if fd >= 0 {
        fds := fds + {fd};
        if fd > maxfd {
          maxfd := fd;
        }
      }
    }
    assert ws[..|ws|] == ws;
  }

  lemma EarliestOneMore(limit: int, ws: seq<Source>, w: Source)
    requires Earliest(limit, ws)
    ensures Earliest(PollFd(w, limit).1, ws + [w])
  {
    var all, limit' := ws + [w], PollFd(w, limit).1;
    if limit' != TIME_MAX {
      if limit' == limit {
        var i :| 0 <= i < |ws| && ws[i] == Timer(limit);
        assert all[i] == Timer(limit');
      } else {
        assert all[|ws|] == Timer(limit');
      }
    }
  }

  predicate Due(w: Source, readable: set<int>, now: Timeval) {
    match w
    case Descriptor(fd) => fd as int in readable
    case Timer(next) => FromTime(now, if TIME_MAX > next then next else TIME_MAX)
  }

  /** Which watchers are worked on after the wait, in order: those whose descriptor is readable,
      and those whose second has come. */
  method WorkDue(ws: seq<Source>, readable: set<int>, now: Timeval) returns (worked: seq<nat>)
    ensures forall i: nat :: i in worked <==> i < |ws| && Due(ws[i], readable, now)
    ensures forall i, j :: 0 <= i < j < |worked| ==> worked[i] < worked[j]
    ensures forall i: nat :: i < |ws| && ws[i].Descriptor? ==> (i in worked <==> ws[i].fd as int in readable)
    ensures Normal(now) ==> forall i: nat :: i < |ws| && ws[i].Timer? ==>
      (i in worked <==> ws[i].next * MILLION <= Micros(now) || TIME_MAX * MILLION <= Micros(now))
  {
    worked := [];
    for n := 0 to |ws|
      invariant forall i: nat :: i in worked <==> i < n && Due(ws[i], readable, now)
      invariant forall i, j :: 0 <= i < j < |worked| ==> worked[i] < worked[j]
      invariant forall i :: 0 <= i < |worked| ==> worked[i] < n
    {
      var (fd, limit) := PollFd(ws[n], TIME_MAX);
      if fd >= 0 {
        if fd in readable {
          worked := worked + [n];
        }
      } else if FromTime(now, limit) {
        worked := worked + [n];
      }
    }
  }

  /** Waiting for as long as was asked is long enough for the earliest timer, and short enough
      that none is kept waiting: at the end of the timeout a timer is due exactly if it is one
      of the earliest or its second has come anyway. */
  lemma EarliestIsDue(ws: seq<Source>, limit: int, before: Timeval, after: Timeval, i: nat)
    requires Earliest(limit, ws) && limit != TIME_MAX && i < |ws| && ws[i].Timer?
    requires Normal(before) && Normal(after)
    ensures Micros(before) + Micros(Timeout(limit, before)) <= Micros(after) && ws[i].next == limit
      ==> Due(ws[i], {}, after)
    ensures Due(ws[i], {}, after) ==> limit * MILLION <= Micros(after)
    ensures Micros(after) < Micros(before) + Micros(Timeout(limit, before)) && Micros(before) <= limit * MILLION
      ==> !Due(ws[i], {}, after)
  {
    TimeoutIs(limit, before);
    TimesAreMicros(after, before, limit);
    TimesAreMicros(after, before, ws[i].next);
    TimesAreMicros(after, before, TIME_MAX);
  }
}
