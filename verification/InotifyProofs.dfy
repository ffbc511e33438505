/** What holds of the inotify follower in every interleaving. */
module InotifyProofs {
  import opened Wrappers
  import opened Lines
  import opened FileSystem
  import opened Following
  import opened Inotify

  // ----- The invariant -----

  ghost predicate Has(q: seq<Entry>, ev: Event) {
    exists i :: 0 <= i < |q| && q[i].ev == ev
  }

  ghost predicate HasDir(q: seq<Entry>, base: Name) {
    exists i :: 0 <= i < |q| && IsDirEvent(q[i].ev, base)
  }

  /** A file is open exactly if it is watched, and the watch is the only one. */
  ghost predicate WellFormed(s: Sys) {
    && ValidFs(s.fs)
    && DIR_WD < s.nextWd
    && match s.f.fp
       case None => s.marks == map[] && s.wd == -1 && s.f.line == "" && s.f.pos == 0
       case Some(x) =>
         && x in s.fs.data && s.f.pos <= |s.fs.data[x]|
         && DIR_WD < s.wd < s.nextWd && s.marks == map[x := s.wd]
  }

  ghost predicate QueueSound(s: Sys, q: seq<Entry>) {
    && (forall i :: 0 <= i < |q| && !q[i].ev.Dir? ==> 0 <= q[i].ev.wd < s.nextWd)
    && (forall i, x :: 0 <= i < |q| && x in q[i].sizes ==> x in s.fs.data && q[i].sizes[x] <= |s.fs.data[x]|)
  }

  /** What is not as it should be will be put right by an event that is still to come. */
  ghost predicate Promised(s: Sys, q: seq<Entry>) {
    && (s.f.fp != Lookup(s.fs, s.base) ==> HasDir(q, s.base))
    && (s.f.fp.Some? && Unread(s) != "" ==> Has(q, Modify(s.wd)))
    && (s.f.fp.Some? && Has(q, Self(s.wd)) ==> HasDir(q, s.base))
  }

  /** Bytes that were there when a directory event was queued are read before that event is
      handled. */
  ghost predicate ReadInTime(s: Sys, q: seq<Entry>) {
    s.f.fp.Some? ==>
      forall i :: 0 <= i < |q| && IsDirEvent(q[i].ev, s.base) &&
        s.f.fp.value in q[i].sizes && s.f.pos < q[i].sizes[s.f.fp.value]
        ==> Has(q[..i], Modify(s.wd))
  }

  ghost predicate SessionSound(x: Session<Entry>) {
    && (x.cause.ev.Self? || x.cause.ev.Dir?)
    && (x.cause.ev.Self? ==> x.end == x.len)
    && (x.cause.ev.Dir? && x.file in x.cause.sizes ==> x.cause.sizes[x.file] <= x.end)
  }

  ghost predicate SessionsSound(fs: Fs, xs: seq<Session<Entry>>) {
    && SessionsFit(fs, xs)
    && (forall i :: 0 <= i < |xs| ==> SessionSound(xs[i]))
    && (forall i :: 0 < i < |xs| ==> xs[i].start == 0)
  }

  /** The part of the open file that the present session has consumed. */
  function Consumed(m: Machine): string {
    if m.start <= m.s.f.pos <= |Contents(m.s)| then Contents(m.s)[m.start..m.s.f.pos] else ""
  }

  ghost predicate Accounted(m: Machine) {
    && SessionsSound(m.s.fs, m.closed)
    && m.start <= m.s.f.pos
    && (m.closed != [] ==> m.start == 0)
    && Buf(m.s.f) == Feed(Buffer(Delivered(m.s.fs, m.closed), ""), Consumed(m))
  }

  ghost predicate Inv(m: Machine) {
    && WellFormed(m.s)
    && QueueSound(m.s, Pending(m))
    && Promised(m.s, Pending(m))
    && ReadInTime(m.s, Pending(m))
    && Accounted(m)
  }

  // ----- Queues -----

  lemma {:induction false} EnqueueAllExtends(q: seq<Entry>, evs: seq<Event>, sizes: map<File, nat>)
    ensures q <= EnqueueAll(q, evs, sizes)
    ensures forall i :: |q| <= i < |EnqueueAll(q, evs, sizes)| ==>
      EnqueueAll(q, evs, sizes)[i].ev in evs && EnqueueAll(q, evs, sizes)[i].sizes == sizes
    ensures forall ev :: ev in evs ==> Has(EnqueueAll(q, evs, sizes), ev)
    decreases |evs|
  {
    if evs != [] {
      var q' := Enqueue(q, Entry(evs[0], sizes));
      EnqueueAllExtends(q', evs[1..], sizes);
      var r := EnqueueAll(q', evs[1..], sizes);
      assert r == EnqueueAll(q, evs, sizes);
      assert q'[|q'| - 1].ev == evs[0] && r[|q'| - 1] == q'[|q'| - 1];
      forall ev | ev in evs ensures Has(r, ev) {
        assert ev == evs[0] || ev in evs[1..];
      }
    }
  }

  lemma HasLater(q: seq<Entry>, r: seq<Entry>, ev: Event, base: Name)
    requires q <= r
    ensures Has(q, ev) ==> Has(r, ev)
    ensures HasDir(q, base) ==> HasDir(r, base)
  {
    assert forall i :: 0 <= i < |q| ==> q[i] == r[i];
  }

  /** Everything but the first entry survives the handling of the first. */
  lemma HasAfterFirst(q: seq<Entry>, r: seq<Entry>, ev: Event, base: Name)
    requires q != [] && q[1..] <= r
    ensures Has(q, ev) && q[0].ev != ev ==> Has(r, ev)
    ensures HasDir(q, base) && !IsDirEvent(q[0].ev, base) ==> HasDir(r, base)
  {
    forall i | 0 < i < |q|
      ensures i - 1 < |r| && r[i - 1] == q[i]
    {
      assert q[1..][i - 1] == q[i];
    }
  }

  // ----- Other processes -----

  lemma HasBehind(before: seq<Entry>, q: seq<Entry>, ev: Event)
    requires Has(q, ev)
    ensures Has(before + q, ev)
  {
    var k :| 0 <= k < |q| && q[k].ev == ev;
    assert (before + q)[|before| + k] == q[k];
  }

  lemma AppendedQueue(m: Machine, op: Op, notice: Notice)
    ensures var m' := Next(m, Other(op, notice));
      && Pending(m) <= Pending(m')
      && (forall i :: |Pending(m)| <= i < |Pending(m')| ==>
            Pending(m')[i].ev in Events(m.s, op, notice) && Pending(m')[i].sizes == Sizes(m'.s.fs))
      && (forall ev :: ev in Events(m.s, op, notice) ==> Has(Pending(m'), ev))
  {
    var evs, sizes := Events(m.s, op, notice), Sizes(Apply(m.s.fs, op));
    var q := EnqueueAll(m.s.queue, evs, sizes);
    EnqueueAllExtends(m.s.queue, evs, sizes);
    assert Pending(Next(m, Other(op, notice))) == m.batch + q;
    forall i | |m.batch| + |m.s.queue| <= i < |m.batch| + |q|
      ensures (m.batch + q)[i].ev in evs && (m.batch + q)[i].sizes == sizes
    {
      assert (m.batch + q)[i] == q[i - |m.batch|];
    }
    forall ev | ev in evs
      ensures Has(m.batch + q, ev)
    {
      HasBehind(m.batch, q, ev);
    }
  }

  /** An operation on the watched name is reported under that name. */
  lemma TouchedIsTold(s: Sys, op: Op, notice: Notice)
    requires s.base in Touched(op)
    ensures exists ev :: ev in Events(s, op, notice) && IsDirEvent(ev, s.base)
  {
    var ev := match op
      case Create(name, _, _) => Dir(Created, name)
      case Unlink(name) => Dir(Deleted, name)
      case Rename(src, dst) => if s.base == src then Dir(MovedFrom, src) else Dir(MovedTo, dst)
      case MoveOut(name) => Dir(MovedFrom, name)
      case MoveIn(_, name) => Dir(MovedTo, name)
      case Append(_, _) => Modify(0);
    assert ev in Events(s, op, notice);
  }

  /** What an operation reports about the open file itself. */
  lemma FileEventsOf(s: Sys, op: Op, notice: Notice, ev: Event)
    requires WellFormed(s) && ev in Events(s, op, notice) && !ev.Dir?
    ensures s.f.fp.Some? && ev.wd == s.wd
    ensures ev.Modify? || (ev.Self? && s.f.fp.value in Displaced(s.fs, op))
  {
  }

  lemma OtherKeepsWellFormed(m: Machine, op: Op, notice: Notice)
    requires Inv(m) && CanStep(m, Other(op, notice))
    ensures WellFormed(Next(m, Other(op, notice)).s)
    ensures QueueSound(Next(m, Other(op, notice)).s, Pending(Next(m, Other(op, notice))))
  {
    var m' := Next(m, Other(op, notice));
    var held := if m.s.f.fp.Some? then {m.s.f.fp.value} else {};
    ApplyValid(m.s.fs, held, op);
    forall x | x in m.s.fs.data
      ensures x in m'.s.fs.data && m.s.fs.data[x] <= m'.s.fs.data[x]
    {
      ApplyGrows(m.s.fs, op, held, x);
    }
    AppendedQueue(m, op, notice);
    var q, q' := Pending(m), Pending(m');
    forall i | 0 <= i < |q'|
      ensures !q'[i].ev.Dir? ==> 0 <= q'[i].ev.wd < m'.s.nextWd
      ensures forall x :: x in q'[i].sizes ==> x in m'.s.fs.data && q'[i].sizes[x] <= |m'.s.fs.data[x]|
    {
      if i < |q| {
        assert q'[i] == q[i];
      } else if !q'[i].ev.Dir? {
        FileEventsOf(m.s, op, notice, q'[i].ev);
      }
    }
  }

  lemma OtherKeepsPromises(m: Machine, op: Op, notice: Notice)
    requires Inv(m) && CanStep(m, Other(op, notice))
    ensures Promised(Next(m, Other(op, notice)).s, Pending(Next(m, Other(op, notice))))
  {
    var m' := Next(m, Other(op, notice));
    var q, q' := Pending(m), Pending(m');
    var s, s' := m.s, m'.s;
    var held := if s.f.fp.Some? then {s.f.fp.value} else {};
    AppendedQueue(m, op, notice);
    HasLater(q, q', Modify(s.wd), s.base);
    if s.base in Touched(op) {
      TouchedIsTold(s, op, notice);
      assert HasDir(q', s.base);
    } else {
      ApplyLookup(s.fs, held, op, s.base);
    }
    if s.f.fp.Some? {
      ApplyGrows(s.fs, op, held, s.f.fp.value);
      if Unread(s') != "" && Unread(s) == "" {
        assert Modify(s.wd) in Events(s, op, notice);
      }
      if Has(q', Self(s.wd)) {
        var i :| 0 <= i < |q'| && q'[i].ev == Self(s.wd);
        if i < |q| {
          assert q[i] == q'[i];
        } else {
          FileEventsOf(s, op, notice, Self(s.wd));
        }
        assert HasDir(q', s.base);
      }
    }
  }

  lemma OtherKeepsReadInTime(m: Machine, op: Op, notice: Notice)
    requires Inv(m) && CanStep(m, Other(op, notice))
    ensures ReadInTime(Next(m, Other(op, notice)).s, Pending(Next(m, Other(op, notice))))
  {
    var m' := Next(m, Other(op, notice));
    var q, q' := Pending(m), Pending(m');
    AppendedQueue(m, op, notice);
    if m.s.f.fp.Some? {
      var x := m.s.f.fp.value;
      ApplyGrows(m.s.fs, op, {x}, x);
      forall i | 0 <= i < |q'| && IsDirEvent(q'[i].ev, m.s.base) && x in q'[i].sizes && m.s.f.pos < q'[i].sizes[x]
        ensures Has(q'[..i], Modify(m.s.wd))
      {
        if i < |q| {
          assert q'[i] == q[i] && q'[..i] == q[..i];
        } else {
          // The directory event reports an operation that is no append, so these bytes were
          // unread before it.
          assert Unread(m.s) != "";
          assert q <= q'[..i];
          HasLater(q, q'[..i], Modify(m.s.wd), m.s.base);
        }
      }
    }
  }

  lemma OtherKeepsAccounts(m: Machine, op: Op, notice: Notice)
    requires Inv(m) && CanStep(m, Other(op, notice))
    ensures Accounted(Next(m, Other(op, notice)))
  {
    var m' := Next(m, Other(op, notice));
    var held := if m.s.f.fp.Some? then {m.s.f.fp.value} else {};
    assert Grows(m.s.fs, m'.s.fs) by {
      forall x | x in m.s.fs.data
        ensures x in m'.s.fs.data && m.s.fs.data[x] <= m'.s.fs.data[x]
      {
        ApplyGrows(m.s.fs, op, held, x);
      }
    }
    DeliveredStable(m.s.fs, m'.s.fs, m.closed);
    var c, c' := Contents(m.s), Contents(m'.s);
    assert c <= c';
    SliceOfLonger(c, c', m.start, m.s.f.pos);
    assert Consumed(m') == Consumed(m);
  }

  // ----- The follower -----

  lemma ReadLinesReads(s: Sys)
    requires WellFormed(s) && s.f.fp.Some?
    ensures WellFormed(ReadLines(s))
    ensures Unread(ReadLines(s)) == "" && ReadLines(s).f.pos == |Contents(s)|
    ensures Contents(ReadLines(s)) == Contents(s)
    ensures ReadLines(s) == s.(f := ReadLines(s).f) && ReadLines(s).f.fp == s.f.fp
  {
  }

  lemma CloseFileCloses(s: Sys)
    requires WellFormed(s)
    ensures WellFormed(CloseFile(s)) && CloseFile(s).f.fp.None?
    ensures CloseFile(s).fs == s.fs && CloseFile(s).base == s.base && CloseFile(s).nextWd == s.nextWd
    ensures CloseFile(s).queue == if s.f.fp.Some? then Enqueue(s.queue, Entry(Ignored(s.wd), Sizes(s.fs))) else s.queue
    ensures CloseFile(s).f.out == Flush(s.f).out
  {
  }

  /** After a directory event for the watched name, the file that name means now is open
      under a new watch, and has been read to its end. */
  lemma DirEventReopens(s: Sys, ev: Event)
    requires WellFormed(s) && IsDirEvent(ev, s.base)
    ensures var s' := Handle(s, ev);
      && WellFormed(s') && s'.f.fp == Lookup(s.fs, s.base) && Unread(s') == ""
      && s'.fs == s.fs && s'.base == s.base
      && s'.queue == CloseFile(s).queue
      && s.nextWd <= s'.nextWd && (s'.f.fp.Some? ==> s'.wd == s.nextWd && s'.f.pos == |Contents(s')|)
      && Buf(s'.f) == Feed(Buffer(Flush(s.f).out, ""), Contents(s'))
  {
    CloseFileCloses(s);
    var t := OpenFile(CloseFile(s));
    if t.f.fp.Some? {
      ReadLinesReads(t);
      assert Contents(t)[0..] == Contents(t);
    }
  }

  lemma FileEventReads(s: Sys, ev: Event)
    requires WellFormed(s) && s.f.fp.Some? && !ev.Dir? && ev.wd == s.wd
    ensures Handle(s, ev) == if ev.Self? then CloseFile(ReadLines(s)) else ReadLines(s)
  {
  }

  lemma OtherEventIgnored(s: Sys, ev: Event)
    requires WellFormed(s) && !IsDirEvent(ev, s.base)
    requires !ev.Dir? ==> ev.wd != s.wd
    ensures Handle(s, ev) == s
  {
  }

  /** The four things handling an event can amount to. */
  lemma HandleCases(m: Machine)
    requires WellFormed(m.s) && QueueSound(m.s, Pending(m)) && m.batch != []
    ensures var s, s', ev := m.s, Next(m, HandleOne).s, m.batch[0].ev;
      && (s'.queue == s.queue || (s.f.fp.Some? && s'.queue == Enqueue(s.queue, Entry(Ignored(s.wd), Sizes(s.fs)))))
      && WellFormed(s') && s'.fs == s.fs && s'.base == s.base && s.nextWd <= s'.nextWd
      && (IsDirEvent(ev, s.base) ==>
            s'.f.fp == Lookup(s.fs, s.base) && Unread(s') == "" && (s'.f.fp.Some? ==> s'.wd == s.nextWd))
      && (!IsDirEvent(ev, s.base) && s.f.fp.Some? && ev == Self(s.wd) ==> s'.f.fp.None?)
      && (!IsDirEvent(ev, s.base) && s.f.fp.Some? && !ev.Dir? && !ev.Self? && ev.wd == s.wd ==> s' == ReadLines(s))
      && (!IsDirEvent(ev, s.base) && (s.f.fp.None? || ev.Dir? || ev.wd != s.wd) ==> s' == s)
  {
    assert Pending(m)[0] == m.batch[0];
    var ev := m.batch[0].ev;
    if IsDirEvent(ev, m.s.base) {
      CloseFileCloses(m.s);
      DirEventReopens(m.s, ev);
    } else if m.s.f.fp.Some? && !ev.Dir? && ev.wd == m.s.wd {
      FileEventReads(m.s, ev);
      ReadLinesReads(m.s);
      CloseFileCloses(ReadLines(m.s));
    } else {
      OtherEventIgnored(m.s, ev);
    }
  }

  /** What becomes of the queue: it loses its first entry and gains at most the notice of a
      removed watch. */
  lemma HandledQueue(m: Machine)
    requires WellFormed(m.s) && QueueSound(m.s, Pending(m)) && m.batch != []
    ensures var m' := Next(m, HandleOne);
      && Pending(m)[1..] <= Pending(m')
      && (forall i :: |Pending(m)| - 1 <= i < |Pending(m')| ==>
            m.s.f.fp.Some? && Pending(m')[i] == Entry(Ignored(m.s.wd), Sizes(m.s.fs)))
  {
    HandleCases(m);
    assert Pending(m)[1..] == m.batch[1..] + m.s.queue;
  }

  lemma SoundAfterFirst(s: Sys, s': Sys, q: seq<Entry>, q': seq<Entry>, extra: Entry)
    requires QueueSound(s, q) && q != [] && q[1..] <= q'
    requires s'.fs == s.fs && s.nextWd <= s'.nextWd
    requires forall i :: |q| - 1 <= i < |q'| ==> q'[i] == extra && 0 <= s.wd
    requires extra == Entry(Ignored(s.wd), Sizes(s.fs)) && s.wd < s.nextWd
    ensures QueueSound(s', q')
  {
    forall i | 0 <= i < |q'|
      ensures i < |q| - 1 ==> q'[i] == q[i + 1]
    {
      assert i < |q| - 1 ==> q'[i] == q[1..][i];
    }
  }

  lemma HandleKeepsQueueSound(m: Machine)
    requires Inv(m) && m.batch != []
    ensures QueueSound(Next(m, HandleOne).s, Pending(Next(m, HandleOne)))
  {
    var m' := Next(m, HandleOne);
    HandledQueue(m);
    HandleCases(m);
    SoundAfterFirst(m.s, m'.s, Pending(m), Pending(m'), Entry(Ignored(m.s.wd), Sizes(m.s.fs)));
  }

  /** An event that is not the first of the new queue was already in the old one, or tells of
      a removed watch. */
  lemma HasBefore(m: Machine, ev: Event)
    requires WellFormed(m.s) && QueueSound(m.s, Pending(m)) && m.batch != []
    requires Has(Pending(Next(m, HandleOne)), ev) && !ev.Ignored?
    ensures Has(Pending(m), ev)
  {
    HandledQueue(m);
    var q, q' := Pending(m), Pending(Next(m, HandleOne));
    var i :| 0 <= i < |q'| && q'[i].ev == ev;
    assert q'[i] == q[1..][i] == q[i + 1];
  }

  lemma HandleKeepsPromises(m: Machine)
    requires Inv(m) && m.batch != []
    ensures Promised(Next(m, HandleOne).s, Pending(Next(m, HandleOne)))
  {
    var m' := Next(m, HandleOne);
    var q, q' := Pending(m), Pending(m');
    var s, s', ev := m.s, m'.s, m.batch[0].ev;
    assert q[0] == m.batch[0];
    HandledQueue(m);
    HandleCases(m);
    HasAfterFirst(q, q', Modify(s.wd), s.base);
    if IsDirEvent(ev, s.base) {
      // The new watch is newer than anything in the queue.
      if s'.f.fp.Some? && Has(q', Self(s'.wd)) {
        HasBefore(m, Self(s'.wd));
        assert false;
      }
    } else if s.f.fp.Some? && ev == Self(s.wd) {
      assert Has(q, Self(s.wd));
    } else {
      if s.f.fp.Some? {
        ReadLinesReads(s);
        if Has(q', Self(s.wd)) {
          HasBefore(m, Self(s.wd));
        }
      }
    }
  }

  /** Dropping a first event that did not concern the open file. */
  lemma ReadInTimeAfterFirst(s: Sys, q: seq<Entry>, q': seq<Entry>)
    requires ReadInTime(s, q) && s.f.fp.Some? && q != [] && q[0].ev != Modify(s.wd)
    requires q[1..] <= q' && forall i :: |q| - 1 <= i < |q'| ==> !q'[i].ev.Dir?
    ensures ReadInTime(s, q')
  {
    var x := s.f.fp.value;
    forall i | 0 <= i < |q'| && IsDirEvent(q'[i].ev, s.base) && x in q'[i].sizes && s.f.pos < q'[i].sizes[x]
      ensures Has(q'[..i], Modify(s.wd))
    {
      assert q'[i] == q[1..][i] == q[i + 1];
      assert Has(q[..i + 1], Modify(s.wd));
      var j :| 0 <= j < i + 1 && q[..i + 1][j].ev == Modify(s.wd);
      assert q[j].ev == Modify(s.wd) && 0 < j;
      assert q'[..i][j - 1] == q[1..][j - 1] == q[j];
    }
  }

  lemma HandleKeepsReadInTime(m: Machine)
    requires Inv(m) && m.batch != []
    ensures ReadInTime(Next(m, HandleOne).s, Pending(Next(m, HandleOne)))
  {
    var m' := Next(m, HandleOne);
    var q, q' := Pending(m), Pending(m');
    var s, s' := m.s, m'.s;
    assert q[0] == m.batch[0];
    HandledQueue(m);
    HandleCases(m);
    HandleKeepsQueueSound(m);
    if s'.f.fp.Some? && Unread(s') != "" {
      // Nothing was read and nothing reopened, so the event was not for the open file.
      if s.f.fp.Some? {
        ReadLinesReads(s);
      }
      assert s' == s && q[0].ev != Modify(s.wd);
      ReadInTimeAfterFirst(s, q, q');
    }
  }

  /** A session that ends has all that the file held when the closing event was queued: for
      anything unread at a directory event there is an earlier event, and this is the first. */
  lemma EndedSound(m: Machine, e: Entry)
    requires WellFormed(m.s) && ReadInTime(m.s, Pending(m)) && m.start <= m.s.f.pos
    requires m.batch != [] && e == m.batch[0] && Closes(m.s, e.ev)
    ensures SessionSound(Ended(m, e)) && SessionFits(m.s.fs, Ended(m, e))
  {
    var q := Pending(m);
    assert q[0] == e;
    assert !Has(q[..0], Modify(m.s.wd));
  }

  lemma SessionAppended(m: Machine, e: Entry)
    requires WellFormed(m.s) && ReadInTime(m.s, Pending(m)) && Accounted(m)
    requires m.batch != [] && e == m.batch[0] && Closes(m.s, e.ev)
    ensures SessionsSound(m.s.fs, m.closed + [Ended(m, e)])
    ensures Delivered(m.s.fs, m.closed + [Ended(m, e)])
      == Delivered(m.s.fs, m.closed) + AllLines(SessionText(m.s.fs, Ended(m, e)))
  {
    EndedSound(m, e);
    DeliveredOneMore(m.s.fs, m.closed, Ended(m, e));
  }

  /** Reading on gives what reading the whole stretch at once would have given. */
  lemma ReadContinues(m: Machine)
    requires WellFormed(m.s) && Accounted(m) && m.s.f.fp.Some?
    ensures Buf(ReadLines(m.s).f) == Feed(Buffer(Delivered(m.s.fs, m.closed), ""), Contents(m.s)[m.start..])
  {
    SliceJoin(Contents(m.s), m.start, m.s.f.pos);
    FeedAppend(Buffer(Delivered(m.s.fs, m.closed), ""), Consumed(m), Unread(m.s));
  }

  lemma ReadingKeepsAccounts(m: Machine)
    requires Inv(m) && m.batch != [] && m.s.f.fp.Some?
    requires !m.batch[0].ev.Dir? && !m.batch[0].ev.Self? && m.batch[0].ev.wd == m.s.wd
    ensures Accounted(Next(m, HandleOne))
  {
    var m' := Next(m, HandleOne);
    FileEventReads(m.s, m.batch[0].ev);
    ReadLinesReads(m.s);
    ReadContinues(m);
    var c := Contents(m.s);
    assert c[m.start..|c|] == c[m.start..];
    assert Consumed(m') == c[m.start..];
  }

  /** With no file open, finished sessions account for everything. */
  lemma NothingOpen(m: Machine)
    requires WellFormed(m.s) && m.s.f.fp.None? && m.start == 0
    requires SessionsSound(m.s.fs, m.closed) && m.s.f.out == Delivered(m.s.fs, m.closed)
    ensures Accounted(m)
  {
    assert Consumed(m) == "";
  }

  lemma SelfEventDelivers(m: Machine)
    requires WellFormed(m.s) && Accounted(m) && m.s.f.fp.Some?
    ensures var c := Contents(m.s);
      m.start <= |c| &&
      CloseFile(ReadLines(m.s)).f.out == Delivered(m.s.fs, m.closed) + AllLines(c[m.start..|c|])
  {
    ReadLinesReads(m.s);
    ReadContinues(m);
    CloseFileCloses(ReadLines(m.s));
    var c := Contents(m.s);
    assert c[m.start..|c|] == c[m.start..];
    FlushDelivers(Delivered(m.s.fs, m.closed), c[m.start..], ReadLines(m.s).f);
  }

  lemma SelfEventKeepsAccounts(m: Machine)
    requires Inv(m) && m.batch != [] && m.s.f.fp.Some? && m.batch[0].ev == Self(m.s.wd)
    ensures Accounted(Next(m, HandleOne))
  {
    FileEventReads(m.s, m.batch[0].ev);
    ReadLinesReads(m.s);
    CloseFileCloses(ReadLines(m.s));
    SelfEventDelivers(m);
    SessionAppended(m, m.batch[0]);
    NothingOpen(Next(m, HandleOne));
  }

  lemma DirEventDelivers(m: Machine)
    requires Inv(m) && m.batch != [] && IsDirEvent(m.batch[0].ev, m.s.base) && m.s.f.fp.Some?
    ensures var xs := m.closed + [Ended(m, m.batch[0])];
      SessionsSound(m.s.fs, xs) && Flush(m.s.f).out == Delivered(m.s.fs, xs)
  {
    SessionAppended(m, m.batch[0]);
    assert SessionText(m.s.fs, Ended(m, m.batch[0])) == Consumed(m);
    FlushDelivers(Delivered(m.s.fs, m.closed), Consumed(m), m.s.f);
  }

  /** A machine that has just read a file from its beginning, or has none open. */
  lemma FreshlyRead(m: Machine)
    requires m.start == 0 && m.s.f.pos == |Contents(m.s)| && SessionsSound(m.s.fs, m.closed)
    requires Buf(m.s.f) == Feed(Buffer(Delivered(m.s.fs, m.closed), ""), Contents(m.s))
    ensures Accounted(m)
  {
    var c := Contents(m.s);
    assert c[0..|c|] == c;
  }

  lemma DirEventKeepsAccounts(m: Machine)
    requires Inv(m) && m.batch != [] && IsDirEvent(m.batch[0].ev, m.s.base)
    ensures Accounted(Next(m, HandleOne))
  {
    assert m.s.f.fp.None? ==> Flush(m.s.f).out == Delivered(m.s.fs, m.closed) by {
      assert m.s.f.fp.None? ==> Consumed(m) == "";
    }
    if m.s.f.fp.Some? {
      DirEventDelivers(m);
    }
    DirEventReopens(m.s, m.batch[0].ev);
    FreshlyRead(Next(m, HandleOne));
  }

  lemma HandleKeepsAccounts(m: Machine)
    requires Inv(m) && m.batch != []
    ensures Accounted(Next(m, HandleOne))
  {
    var s, ev := m.s, m.batch[0].ev;
    assert Pending(m)[0] == m.batch[0];
    if IsDirEvent(ev, s.base) {
      DirEventKeepsAccounts(m);
    } else if s.f.fp.Some? && !ev.Dir? && ev.wd == s.wd {
      if ev.Self? {
        SelfEventKeepsAccounts(m);
      } else {
        ReadingKeepsAccounts(m);
      }
    } else {
      OtherEventIgnored(s, ev);
    }
  }

  /** Where an event waits makes no difference. */
  lemma OnlyPendingMatters(m: Machine, batch: seq<Entry>, queue: seq<Entry>)
    requires Inv(m) && batch + queue == Pending(m)
    ensures Inv(m.(s := m.s.(queue := queue), batch := batch))
  {
    var m' := m.(s := m.s.(queue := queue), batch := batch);
    assert Pending(m') == Pending(m);
    assert Contents(m'.s) == Contents(m.s);
    assert Unread(m'.s) == Unread(m.s);
    assert Consumed(m') == Consumed(m);
  }

  lemma FetchKeepsInv(m: Machine, n: nat)
    requires Inv(m) && CanStep(m, Fetch(n))
    ensures Inv(Next(m, Fetch(n)))
  {
    var batch, queue := m.batch + m.s.queue[..n], m.s.queue[n..];
    assert batch + queue == Pending(m);
    OnlyPendingMatters(m, batch, queue);
  }

  // ----- Every run -----

  lemma StepKeepsInv(m: Machine, step: Step)
    requires Inv(m) && CanStep(m, step)
    ensures Inv(Next(m, step)) && Next(m, step).s.base == m.s.base
  {
    match step
    case Other(op, notice) =>
      OtherKeepsWellFormed(m, op, notice);
      OtherKeepsPromises(m, op, notice);
      OtherKeepsReadInTime(m, op, notice);
      OtherKeepsAccounts(m, op, notice);
    case Fetch(n) => FetchKeepsInv(m, n);
    case HandleOne =>
      HandleCases(m);
      HandleKeepsQueueSound(m);
      HandleKeepsPromises(m);
      HandleKeepsReadInTime(m);
      HandleKeepsAccounts(m);
  }

  lemma BeginInv(fs: Fs, base: Name)
    requires ValidFs(fs)
    ensures Inv(Begin(fs, base))
    ensures Begin(fs, base).s.f.out == []
  {
    var m := Begin(fs, base);
    assert Consumed(m) == "";
  }

  lemma {:induction false} RunKeepsInv(m: Machine, steps: seq<Step>)
    requires Inv(m) && Possible(m, steps)
    ensures Inv(Run(m, steps)) && Run(m, steps).s.base == m.s.base
    decreases |steps|
  {
    if steps != [] {
      StepKeepsInv(m, steps[0]);
      RunKeepsInv(Next(m, steps[0]), steps[1..]);
    }
  }

  // ----- What has been followed -----

  /** A stretch of a file that was followed, or the one that is being followed. */
  datatype Span = Span(file: File, start: nat, end: nat)

  function SpanOf(x: Session<Entry>): Span {
    Span(x.file, x.start, x.end)
  }

  function ClosedSpans(xs: seq<Session<Entry>>): seq<Span> {
    seq(|xs|, i requires 0 <= i < |xs| => SpanOf(xs[i]))
  }

  function Spans(m: Machine): seq<Span> {
    ClosedSpans(m.closed) + if m.s.f.fp.Some? then [Span(m.s.f.fp.value, m.start, m.s.f.pos)] else []
  }

  lemma ClosedSpansSnoc(xs: seq<Session<Entry>>, x: Session<Entry>)
    ensures ClosedSpans(xs + [x]) == ClosedSpans(xs) + [SpanOf(x)]
  {
  }

  lemma SpansFit(m: Machine, i: nat)
    requires Inv(m) && i < |Spans(m)|
    ensures var x := Spans(m)[i];
      x.file in m.s.fs.data && x.start <= x.end <= |m.s.fs.data[x.file]| && (0 < i ==> x.start == 0)
  {
    if i < |m.closed| {
      assert SessionFits(m.s.fs, m.closed[i]);
    }
  }

  /** The follower opens a file, which it does when, and only when, it handles a directory
      event for the name while the name means something. */
  predicate Reopens(m: Machine, step: Step) {
    step.HandleOne? && m.batch != [] && IsDirEvent(m.batch[0].ev, m.s.base) && m.s.base in m.s.fs.dir
  }

  /** The same stretches, of which only the last may have grown. */
  ghost predicate Grown(xs: seq<Span>, ys: seq<Span>) {
    && |ys| == |xs|
    && (forall i :: 0 <= i < |xs| - 1 ==> ys[i] == xs[i])
    && (xs != [] ==> xs[|xs| - 1] == ys[|xs| - 1].(end := xs[|xs| - 1].end) && xs[|xs| - 1].end <= ys[|xs| - 1].end)
  }

  /** A directory event adds nothing to what has been followed before. */
  lemma SpansBeforeReopening(m: Machine)
    requires m.batch != [] && IsDirEvent(m.batch[0].ev, m.s.base)
    ensures ClosedSpans(Next(m, HandleOne).closed) == Spans(m)
  {
    if m.s.f.fp.Some? {
      ClosedSpansSnoc(m.closed, Ended(m, m.batch[0]));
    }
  }

  lemma SpansAfterReopening(m: Machine, step: Step)
    requires Inv(m) && Reopens(m, step)
    ensures m.s.fs.dir[m.s.base] in m.s.fs.data
    ensures Next(m, step).s.fs == m.s.fs
    ensures Spans(Next(m, step))
      == Spans(m) + [Span(m.s.fs.dir[m.s.base], 0, |m.s.fs.data[m.s.fs.dir[m.s.base]]|)]
  {
    DirEventReopens(m.s, m.batch[0].ev);
    SpansBeforeReopening(m);
    assert m.s.f.fp.None? ==> m.start == 0;
  }

  lemma SpansAfterFileEvent(m: Machine)
    requires Inv(m) && m.batch != [] && m.s.f.fp.Some?
    requires !m.batch[0].ev.Dir? && m.batch[0].ev.wd == m.s.wd
    ensures Grown(Spans(m), Spans(Next(m, HandleOne)))
  {
    var e := m.batch[0];
    FileEventReads(m.s, e.ev);
    ReadLinesReads(m.s);
    CloseFileCloses(ReadLines(m.s));
    if e.ev.Self? {
      ClosedSpansSnoc(m.closed, Ended(m, e));
    }
    GrownLast(ClosedSpans(m.closed), Span(m.s.f.fp.value, m.start, m.s.f.pos), |Contents(m.s)|);
  }

  lemma GrownLast(xs: seq<Span>, x: Span, end: nat)
    requires x.end <= end
    ensures Grown(xs + [x], xs + [x.(end := end)])
  {
  }

  lemma SpansAfterClosing(m: Machine)
    requires Inv(m) && m.batch != [] && IsDirEvent(m.batch[0].ev, m.s.base) && m.s.base !in m.s.fs.dir
    ensures Spans(Next(m, HandleOne)) == Spans(m)
  {
    DirEventReopens(m.s, m.batch[0].ev);
    SpansBeforeReopening(m);
  }

  lemma SpansAfterOther(m: Machine, step: Step)
    requires Inv(m) && CanStep(m, step) && !Reopens(m, step)
    ensures Grown(Spans(m), Spans(Next(m, step)))
  {
    if step.HandleOne? {
      var ev := m.batch[0].ev;
      assert Pending(m)[0] == m.batch[0];
      if IsDirEvent(ev, m.s.base) {
        SpansAfterClosing(m);
      } else if m.s.f.fp.Some? && !ev.Dir? && ev.wd == m.s.wd {
        SpansAfterFileEvent(m);
      } else {
        OtherEventIgnored(m.s, ev);
        assert Spans(Next(m, step)) == Spans(m);
      }
    } else {
      assert Spans(Next(m, step)) == Spans(m);
    }
  }

  /** How much of the file that has the name at the beginning is passed over. */
  function Skipped(fs: Fs, base: Name): nat {
    if base in fs.dir && fs.dir[base] in fs.data then |fs.data[fs.dir[base]]| else 0
  }

  /** The first stretch is of the file that had the name at the beginning, from where that
      ended then, or of the first file to get the name, from its beginning. */
  ghost predicate FirstFrom(m: Machine, first: Option<File>, skipped: nat) {
    && (first.Some? ==> Spans(m) != [] && Spans(m)[0].file == first.value)
    && (Spans(m) != [] ==> Spans(m)[0].start == skipped)
  }

  lemma {:induction false} RunKeepsFirst(m: Machine, steps: seq<Step>, first: Option<File>, skipped: nat)
    requires Inv(m) && Possible(m, steps) && FirstFrom(m, first, skipped)
    requires Spans(m) == [] ==> skipped == 0
    ensures FirstFrom(Run(m, steps), first, skipped)
    decreases |steps|
  {
    if steps != [] {
      StepKeepsInv(m, steps[0]);
      if Reopens(m, steps[0]) {
        SpansAfterReopening(m, steps[0]);
      } else {
        SpansAfterOther(m, steps[0]);
      }
      RunKeepsFirst(Next(m, steps[0]), steps[1..], first, skipped);
    }
  }

  /** Where sessions start: at the beginning of their file, but the first one after what its
      file held when the follower was set up. */
  ghost predicate StartsRight(m: Machine, first: Option<File>, skipped: nat) {
    && (forall i :: 0 <= i < |m.closed| ==> m.closed[i].start == if i == 0 then skipped else 0)
    && (m.s.f.fp.Some? ==> m.start == if m.closed == [] then skipped else 0)
    && (first.Some? ==>
          if m.closed == [] then m.s.f.fp == first else m.closed[0].file == first.value)
  }

  lemma FirstGivesStarts(m: Machine, first: Option<File>, skipped: nat)
    requires Inv(m) && FirstFrom(m, first, skipped)
    ensures StartsRight(m, first, skipped)
  {
    if m.closed != [] {
      assert Spans(m)[0] == SpanOf(m.closed[0]);
    } else {
      assert m.s.f.fp.Some? ==> Spans(m)[0] == Span(m.s.f.fp.value, m.start, m.s.f.pos);
    }
  }

  lemma BeginsFirst(fs: Fs, base: Name)
    requires ValidFs(fs)
    ensures FirstFrom(Begin(fs, base), Lookup(fs, base), Skipped(fs, base))
    ensures Spans(Begin(fs, base)) == [] ==> Skipped(fs, base) == 0
  {
  }

  lemma RunStartsRight(fs: Fs, base: Name, steps: seq<Step>)
    requires ValidFs(fs) && Possible(Begin(fs, base), steps)
    ensures Inv(Run(Begin(fs, base), steps)) && Run(Begin(fs, base), steps).s.base == base
    ensures StartsRight(Run(Begin(fs, base), steps), Lookup(fs, base), Skipped(fs, base))
  {
    var m := Begin(fs, base);
    BeginInv(fs, base);
    BeginsFirst(fs, base);
    RunKeepsInv(m, steps);
    RunKeepsFirst(m, steps, Lookup(fs, base), Skipped(fs, base));
    FirstGivesStarts(Run(m, steps), Lookup(fs, base), Skipped(fs, base));
  }

  // ----- What is promised -----

  predicate Agrees(m: Machine) {
    Pending(m) == [] && m.s.f.fp == Lookup(m.s.fs, m.s.base) && m.s.f.pos == |Contents(m.s)|
  }

  /** Once every event has been handled, the open file is the one the watched name means, and
      it has been read to its end. */
  lemma QuiescentAgreement(fs: Fs, base: Name, steps: seq<Step>)
    requires ValidFs(fs) && Possible(Begin(fs, base), steps)
    ensures var m := Run(Begin(fs, base), steps);
      Pending(m) == [] ==> m.s.base == base && Agrees(m)
  {
    BeginInv(fs, base);
    RunKeepsInv(Begin(fs, base), steps);
  }

  /** What cannot be lost when the file is changed for another: whatever closed a session, all
      that the file held when that event was queued, after the point where the session began,
      has been delivered; and if the file itself was reported gone, all that it held when it
      was closed.  A session begins at the beginning of its file, except that what the file
      with the name held when the follower was set up is passed over. */
  lemma NoLossAtRotation(fs: Fs, base: Name, steps: seq<Step>)
    requires ValidFs(fs) && Possible(Begin(fs, base), steps)
    ensures var m := Run(Begin(fs, base), steps);
      && SessionsFit(m.s.fs, m.closed) && StartsRight(m, Lookup(fs, base), Skipped(fs, base))
      && forall i :: 0 <= i < |m.closed| ==>
           var x := m.closed[i];
           && (IsDirOrSelf(x.cause.ev))
           && (x.cause.ev.Self? ==> x.end == x.len)
           && (x.cause.ev.Dir? && x.file in x.cause.sizes ==> x.cause.sizes[x.file] <= x.end <= x.len)
           && (0 < i ==> x.start == 0)
  {
    RunStartsRight(fs, base, steps);
  }

  predicate IsDirOrSelf(ev: Event) { ev.Dir? || ev.Self? }

  lemma AccountsSpeltOut(m: Machine)
    requires WellFormed(m.s) && Accounted(m)
    ensures m.s.f.out == Delivered(m.s.fs, m.closed) + Split(Consumed(m)).out
    ensures m.s.f.line == Split(Consumed(m)).line
    ensures IsSplit(Consumed(m), Split(Consumed(m)).out, m.s.f.line)
    ensures m.s.f.fp.None? ==> m.s.f.line == ""
    ensures m.s.f.fp.Some? ==>
      m.s.f.fp.value in m.s.fs.data && m.start <= m.s.f.pos <= |m.s.fs.data[m.s.f.fp.value]| &&
      Consumed(m) == m.s.fs.data[m.s.f.fp.value][m.start..m.s.f.pos]
  {
    FeedFrame(Buffer(Delivered(m.s.fs, m.closed), ""), Consumed(m));
    SplitIsSplit(Consumed(m));
  }

  /** Everything ever handed to processLine: the lines of each finished session, split on its
      own, then the whole lines of the part of the open file read so far, whose remainder is
      the partial line.  So no line has bytes of two sessions, and how reading was cut up by
      events does not show. */
  lemma DeliveredExactly(fs: Fs, base: Name, steps: seq<Step>)
    requires ValidFs(fs) && Possible(Begin(fs, base), steps)
    ensures var m := Run(Begin(fs, base), steps);
      && SessionsFit(m.s.fs, m.closed) && StartsRight(m, Lookup(fs, base), Skipped(fs, base))
      && m.s.f.out == Delivered(m.s.fs, m.closed) + Split(Consumed(m)).out
      && m.s.f.line == Split(Consumed(m)).line
      && IsSplit(Consumed(m), Split(Consumed(m)).out, m.s.f.line)
      && (m.s.f.fp.None? ==> m.s.f.line == "")
      && (m.s.f.fp.Some? ==>
            m.s.f.fp.value in m.s.fs.data && m.start <= m.s.f.pos <= |m.s.fs.data[m.s.f.fp.value]| &&
            Consumed(m) == m.s.fs.data[m.s.f.fp.value][m.start..m.s.f.pos])
  {
    RunStartsRight(fs, base, steps);
    AccountsSpeltOut(Run(Begin(fs, base), steps));
  }

  // ----- Catching up -----

  /** An event that may close the file may also leave a notice behind. */
  function Effort(q: seq<Entry>): nat {
    if q == [] then 0 else (if q[0].ev.Dir? || q[0].ev.Self? then 2 else 1) + Effort(q[1..])
  }

  lemma {:induction false} EffortAppend(q: seq<Entry>, r: seq<Entry>)
    ensures Effort(q + r) == Effort(q) + Effort(r)
  {
    if q == [] {
      assert q + r == r;
    } else {
      assert (q + r)[1..] == q[1..] + r;
      EffortAppend(q[1..], r);
    }
  }

  lemma HandlingIsProgress(m: Machine)
    requires Inv(m) && m.batch != []
    ensures Effort(Pending(Next(m, HandleOne))) < Effort(Pending(m))
  {
    HandleCases(m);
    HandledQueue(m);
    var q, q' := Pending(m), Pending(Next(m, HandleOne));
    assert q[0] == m.batch[0];
    var more := q'[|q| - 1..];
    assert q' == q[1..] + more;
    EffortAppend(q[1..], more);
    if more != [] {
      assert more[0] == q'[|q| - 1] && more == [more[0]];
    }
  }

  lemma EmptyAgrees(m: Machine)
    requires Inv(m) && Pending(m) == []
    ensures Agrees(m)
  {
  }

  lemma RunOne(m: Machine, step: Step, steps: seq<Step>)
    ensures Run(m, [step] + steps) == Run(Next(m, step), steps)
    ensures Possible(m, [step] + steps) <==> CanStep(m, step) && Possible(Next(m, step), steps)
  {
    assert ([step] + steps)[1..] == steps;
  }

  predicate OwnSteps(steps: seq<Step>) {
    forall i :: 0 <= i < |steps| ==> !steps[i].Other?
  }

  /** `m'` is where the follower gets from `m` by `steps` of its own. */
  ghost predicate Reaches(m: Machine, steps: seq<Step>, m': Machine) {
    && Possible(m, steps) && OwnSteps(steps) && Run(m, steps) == m'
    && m'.s.fs == m.s.fs && m'.s.base == m.s.base
  }

  /** A step of the follower, and then whatever it reaches. */
  lemma ReachesByStep(m: Machine, step: Step, m': Machine)
    requires CanStep(m, step) && !step.Other? && m' == Next(m, step)
    requires m'.s.fs == m.s.fs && m'.s.base == m.s.base
    ensures forall steps, m'' :: Reaches(m', steps, m'') ==> Reaches(m, [step] + steps, m'')
  {
    forall steps, m'' | Reaches(m', steps, m'')
      ensures Reaches(m, [step] + steps, m'')
    {
      RunOne(m, step, steps);
    }
  }

  lemma FetchProgress(m: Machine) returns (m': Machine)
    requires Inv(m) && m.batch == [] && m.s.queue != []
    ensures Inv(m') && Pending(m') == Pending(m) && m'.batch != []
    ensures forall steps, m'' :: Reaches(m', steps, m'') ==> Reaches(m, [Fetch(|m.s.queue|)] + steps, m'')
  {
    var step := Fetch(|m.s.queue|);
    m' := Next(m, step);
    FetchKeepsInv(m, |m.s.queue|);
    ReachesByStep(m, step, m');
  }

  lemma HandlingLeavesFiles(m: Machine)
    requires Inv(m) && m.batch != []
    ensures Next(m, HandleOne).s.fs == m.s.fs && Next(m, HandleOne).s.base == m.s.base
  {
    HandleCases(m);
  }

  lemma HandleProgress(m: Machine) returns (m': Machine)
    requires Inv(m) && m.batch != []
    ensures Inv(m') && Effort(Pending(m')) < Effort(Pending(m))
    ensures forall steps, m'' :: Reaches(m', steps, m'') ==> Reaches(m, [HandleOne] + steps, m'')
  {
    m' := Next(m, HandleOne);
    assert Inv(m') by { StepKeepsInv(m, HandleOne); }
    assert Effort(Pending(m')) < Effort(Pending(m)) by { HandlingIsProgress(m); }
    HandlingLeavesFiles(m);
    ReachesByStep(m, HandleOne, m');
  }

  /** Left alone, the follower empties its queue, and so reaches agreement, from wherever
      other processes have brought it. */
  lemma {:induction false} CatchesUp(m: Machine) returns (steps: seq<Step>, m': Machine)
    requires Inv(m)
    ensures Reaches(m, steps, m') && Agrees(m')
    decreases Effort(Pending(m)), m.batch == []
  {
    if Pending(m) == [] {
      steps, m' := [], m;
      EmptyAgrees(m);
    } else if m.batch == [] {
      var next := FetchProgress(m);
      var rest;
      rest, m' := CatchesUp(next);
      steps := [Fetch(|m.s.queue|)] + rest;
    } else {
      var next := HandleProgress(m);
      var rest;
      rest, m' := CatchesUp(next);
      steps := [HandleOne] + rest;
    }
  }
}
