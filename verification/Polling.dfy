/** The follower that polls: it compares what the watched name means now with the file it
    has open, by device and inode number, and those numbers may be used again. */
module Polling {
  import opened Wrappers
  import opened Lines
  import opened FileSystem
  import opened Following

  const NO_ID := Id(-1, -1)

  /** `opens` counts the calls of fopen that succeeded, and numbers the handles they gave;
      `fcloses` lists the handles passed to fclose. */
  datatype Poller = Poller(
    fs: Fs, path: Name, next: int, id: Id, f: Follow, opens: nat, fcloses: seq<nat>)

  function Contents(p: Poller): string {
    if p.f.fp.Some? && p.f.fp.value in p.fs.data then p.fs.data[p.f.fp.value] else ""
  }

  function IdOf(fs: Fs, x: File): Id {
    if x in fs.ids then fs.ids[x] else NO_ID
  }

  function OpenFile(p: Poller): Poller {
    if p.f.fp.Some? || p.path !in p.fs.dir then p
    else
      var x := p.fs.dir[p.path];
      p.(f := p.f.(fp := Some(x), pos := 0), id := IdOf(p.fs, x), opens := p.opens + 1)
  }

  /** The open handle is the newest one. */
  function Fclose(p: Poller): Poller {
    if p.opens == 0 then p else p.(fcloses := p.fcloses + [p.opens - 1])
  }

  function CloseFile(p: Poller): Poller {
    if p.f.fp.None? then p
    else
      var q := Fclose(p.(f := Flush(p.f)));
      q.(f := q.f.(fp := None, pos := 0), id := NO_ID)
  }

  function ReadLines(p: Poller): Poller {
    p.(f := ReadOn(p.f, Contents(p)))
  }

  /** stat(2) fails, or reports something else than the file that is open. */
  predicate Stale(p: Poller) {
    p.f.fp.Some? && (p.path !in p.fs.dir || IdOf(p.fs, p.fs.dir[p.path]) != p.id)
  }

  function Work(p: Poller, now: int): Poller {
    var q := p.(next := now + 1);
    var r := OpenFile(if Stale(q) then CloseFile(q) else q);
    if r.f.fp.None? then r else ReadLines(r)
  }

  function Start(fs: Fs, path: Name, now: int): Poller {
    OpenFile(Poller(fs, path, now, NO_ID, IDLE, 0, []))
  }

  /** Destruction as written: this class closes `fp` and does not clear it, and then so does
      its base class. */
  function Destroy(p: Poller): Poller {
    if p.f.fp.None? then p else Fclose(Fclose(p))
  }

  // ----- The machine -----

  /** `polled` is how long the open file was when it was last read; like `closed`, whose causes
      are the times of polls, it is history. */
  datatype Machine = Machine(p: Poller, closed: seq<Session<int>>, polled: nat)

  datatype Step = Other(op: Op) | Poll(now: int)

  function Held(p: Poller): set<File> {
    if p.f.fp.Some? then {p.f.fp.value} else {}
  }

  function Ended(p: Poller, now: int): Session<int>
    requires p.f.fp.Some?
  {
    Session(p.f.fp.value, 0, p.f.pos, |Contents(p)|, now)
  }

  ghost predicate CanStep(m: Machine, step: Step) {
    step.Other? ==> Enabled(m.p.fs, Held(m.p), step.op)
  }

  function Next(m: Machine, step: Step): Machine {
    match step
    case Other(op) => m.(p := m.p.(fs := Apply(m.p.fs, op)))
    case Poll(now) =>
      var p := Work(m.p, now);
      Machine(p,
        if Stale(m.p) && m.p.f.fp.Some? then m.closed + [Ended(m.p, now)] else m.closed,
        |Contents(p)|)
  }

  function Run(m: Machine, steps: seq<Step>): Machine
    decreases |steps|
  {
    if steps == [] then m else Run(Next(m, steps[0]), steps[1..])
  }

  ghost predicate Possible(m: Machine, steps: seq<Step>)
    decreases |steps|
  {
    steps == [] || (CanStep(m, steps[0]) && Possible(Next(m, steps[0]), steps[1..]))
  }

  function Begin(fs: Fs, path: Name, now: int): Machine {
    Machine(Start(fs, path, now), [], 0)
  }

  // ----- The invariant -----

  /** Every handle but an open one has been closed, each once and in order. */
  predicate HandlesInOrder(p: Poller) {
    && |p.fcloses| == p.opens - (if p.f.fp.Some? then 1 else 0)
    && forall i :: 0 <= i < |p.fcloses| ==> p.fcloses[i] == i
  }

  ghost predicate WellFormed(p: Poller) {
    && ValidFs(p.fs) && UniqueIds(p.fs, Held(p)) && HandlesInOrder(p)
    && match p.f.fp
       case None => p.id == NO_ID && p.f.line == "" && p.f.pos == 0
       case Some(x) => x in p.fs.data && p.id == p.fs.ids[x] && p.f.pos <= |p.fs.data[x]|
  }

  function Consumed(p: Poller): string {
    if p.f.pos <= |Contents(p)| then Contents(p)[..p.f.pos] else ""
  }

  ghost predicate Accounted(m: Machine) {
    && SessionsFit(m.p.fs, m.closed)
    && (forall i :: 0 <= i < |m.closed| ==> m.closed[i].start == 0)
    && m.p.f.pos == m.polled
    && Buf(m.p.f) == Feed(Buffer(Delivered(m.p.fs, m.closed), ""), Consumed(m.p))
  }

  ghost predicate Inv(m: Machine) {
    WellFormed(m.p) && Accounted(m)
  }

  // ----- Other processes -----

  lemma OtherKeepsInv(m: Machine, op: Op)
    requires Inv(m) && CanStep(m, Other(op))
    ensures Inv(Next(m, Other(op)))
  {
    var p, p' := m.p, Next(m, Other(op)).p;
    ApplyValid(p.fs, Held(p), op);
    ApplyUniqueIds(p.fs, Held(p), op);
    forall x | x in p.fs.data
      ensures x in p'.fs.data && p.fs.data[x] <= p'.fs.data[x] && p'.fs.ids[x] == p.fs.ids[x]
    {
      ApplyGrows(p.fs, op, Held(p), x);
    }
    DeliveredStable(p.fs, p'.fs, m.closed);
    assert Consumed(p') == Consumed(p);
  }

  // ----- Polling -----

  /** A file that is held open keeps its number to itself, so equal numbers mean the same
      file: the comparison that `work` makes is exact. */
  lemma StaleExactly(p: Poller)
    requires WellFormed(p) && p.f.fp.Some?
    ensures Stale(p) <==> Lookup(p.fs, p.path) != p.f.fp
  {
    if p.path in p.fs.dir {
      var y := p.fs.dir[p.path];
      assert y in Linked(p.fs) && p.f.fp.value in Held(p);
    }
  }

  lemma UniqueIdsOfLinked(fs: Fs, held: set<File>, held': set<File>)
    requires UniqueIds(fs, held) && held' <= Linked(fs) + held
    ensures UniqueIds(fs, held')
  {
  }

  lemma CloseKeepsWellFormed(p: Poller)
    requires WellFormed(p)
    ensures WellFormed(CloseFile(p)) && CloseFile(p).f.fp.None?
    ensures CloseFile(p).fs == p.fs && CloseFile(p).path == p.path && CloseFile(p).next == p.next
    ensures CloseFile(p).f.out == Flush(p.f).out
  {
    UniqueIdsOfLinked(p.fs, Held(p), {});
  }

  lemma OpenKeepsWellFormed(p: Poller)
    requires WellFormed(p)
    ensures WellFormed(OpenFile(p))
    ensures OpenFile(p).fs == p.fs && OpenFile(p).path == p.path && OpenFile(p).next == p.next
    ensures OpenFile(p).f == if p.f.fp.Some? then p.f else p.f.(fp := Lookup(p.fs, p.path))
  {
    var x := Lookup(p.fs, p.path);
    UniqueIdsOfLinked(p.fs, Held(p), Held(OpenFile(p)));
  }

  lemma ReadKeepsWellFormed(p: Poller)
    requires WellFormed(p) && p.f.fp.Some?
    ensures WellFormed(ReadLines(p)) && ReadLines(p) == p.(f := ReadLines(p).f)
    ensures ReadLines(p).f.fp == p.f.fp && ReadLines(p).f.pos == |Contents(p)|
  {
  }

  /** After each poll the open file is the one that the path names, read to its end. */
  lemma WorkAgrees(p: Poller, now: int)
    requires WellFormed(p)
    ensures var p' := Work(p, now);
      && WellFormed(p') && p'.fs == p.fs && p'.path == p.path && p'.next == now + 1
      && p'.f.fp == Lookup(p.fs, p.path) && p'.f.pos == |Contents(p')|
      && (if p.f.fp.Some? && !Stale(p) then p'.f == ReadOn(p.f, Contents(p))
          else Buf(p'.f) == Feed(Buffer(Flush(p.f).out, ""), Contents(p')))
  {
    var q := p.(next := now + 1);
    assert WellFormed(q) && (Stale(q) <==> Stale(p));
    if q.f.fp.Some? {
      StaleExactly(q);
    }
    CloseKeepsWellFormed(q);
    var r := if Stale(q) then CloseFile(q) else q;
    OpenKeepsWellFormed(r);
    var t := OpenFile(r);
    if t.f.fp.Some? {
      ReadKeepsWellFormed(t);
      assert Contents(t)[0..] == Contents(t);
    }
  }

  /** The same file: reading on gives what reading all of it at once would have given. */
  lemma PollReadsOn(m: Machine, now: int)
    requires Inv(m) && m.p.f.fp.Some? && !Stale(m.p)
    ensures Inv(Next(m, Poll(now)))
  {
    var p, p' := m.p, Next(m, Poll(now)).p;
    WorkAgrees(p, now);
    StaleExactly(p);
    var c := Contents(p);
    assert Contents(p') == c && Consumed(p') == c by { assert c[..|c|] == c; }
    assert c == Consumed(p) + Rest(p.f, c);
    FeedAppend(Buffer(Delivered(p.fs, m.closed), ""), Consumed(p), Rest(p.f, c));
  }

  lemma EndedText(p: Poller, now: int)
    requires WellFormed(p) && p.f.fp.Some?
    ensures SessionFits(p.fs, Ended(p, now)) && SessionText(p.fs, Ended(p, now)) == Consumed(p)
  {
  }

  lemma OneMoreFits(fs: Fs, xs: seq<Session<int>>, x: Session<int>)
    requires SessionsFit(fs, xs) && (forall i :: 0 <= i < |xs| ==> xs[i].start == 0)
    requires SessionFits(fs, x) && x.start == 0
    ensures SessionsFit(fs, xs + [x]) && forall i :: 0 <= i < |xs + [x]| ==> (xs + [x])[i].start == 0
  {
  }

  /** A session that ends delivers what it has consumed. */
  lemma ClosingDelivers(m: Machine, now: int)
    requires Inv(m) && m.p.f.fp.Some?
    ensures var xs := m.closed + [Ended(m.p, now)];
      && SessionsFit(m.p.fs, xs) && (forall i :: 0 <= i < |xs| ==> xs[i].start == 0)
      && Flush(m.p.f).out == Delivered(m.p.fs, xs)
  {
    var x := Ended(m.p, now);
    EndedText(m.p, now);
    OneMoreFits(m.p.fs, m.closed, x);
    DeliveredOneMore(m.p.fs, m.closed, x);
    FlushDelivers(Delivered(m.p.fs, m.closed), Consumed(m.p), m.p.f);
  }

  /** A machine that has just read a file from its beginning. */
  lemma FreshlyRead(m: Machine)
    requires WellFormed(m.p) && m.p.f.pos == m.polled == |Contents(m.p)|
    requires SessionsFit(m.p.fs, m.closed) && forall i :: 0 <= i < |m.closed| ==> m.closed[i].start == 0
    requires Buf(m.p.f) == Feed(Buffer(Delivered(m.p.fs, m.closed), ""), Contents(m.p))
    ensures Inv(m)
  {
    var c := Contents(m.p);
    assert c[..|c|] == c;
  }

  /** Another file, or none: the session ends with what it has. */
  lemma PollReplaces(m: Machine, now: int)
    requires Inv(m) && (m.p.f.fp.None? || Stale(m.p))
    ensures Inv(Next(m, Poll(now)))
  {
    WorkAgrees(m.p, now);
    if m.p.f.fp.Some? {
      ClosingDelivers(m, now);
    } else {
      assert Consumed(m.p) == "";
      assert Flush(m.p.f).out == Delivered(m.p.fs, m.closed);
    }
    FreshlyRead(Next(m, Poll(now)));
  }

  lemma PollKeepsInv(m: Machine, now: int)
    requires Inv(m)
    ensures Inv(Next(m, Poll(now)))
  {
    if m.p.f.fp.Some? && !Stale(m.p) {
      PollReadsOn(m, now);
    } else {
      PollReplaces(m, now);
    }
  }

  // ----- Every run -----

  lemma BeginInv(fs: Fs, path: Name, now: int)
    requires ValidFs(fs) && UniqueIds(fs, {})
    ensures Inv(Begin(fs, path, now))
  {
    var p := Poller(fs, path, now, NO_ID, IDLE, 0, []);
    OpenKeepsWellFormed(p);
    assert Consumed(Begin(fs, path, now).p) == "";
  }

  lemma {:induction false} RunKeepsInv(m: Machine, steps: seq<Step>)
    requires Inv(m) && Possible(m, steps)
    ensures Inv(Run(m, steps))
    decreases |steps|
  {
    if steps != [] {
      match steps[0] {
        case Other(op) => OtherKeepsInv(m, op);
        case Poll(now) => PollKeepsInv(m, now);
      }
      RunKeepsInv(Next(m, steps[0]), steps[1..]);
    }
  }

  /** In every run: a poll reaches agreement, everything delivered is the split of a prefix of
      each file followed, and what a finished session has of its file is what the file held
      when it was last polled. */
  lemma PollingFollows(fs: Fs, path: Name, start: int, steps: seq<Step>, now: int)
    requires ValidFs(fs) && UniqueIds(fs, {}) && Possible(Begin(fs, path, start), steps)
    ensures var m := Run(Begin(fs, path, start), steps);
      && m.p.f.out == Delivered(m.p.fs, m.closed) + Split(Consumed(m.p)).out
      && m.p.f.line == Split(Consumed(m.p)).line
      && m.p.f.pos == m.polled
      && SessionsFit(m.p.fs, m.closed) && (forall i :: 0 <= i < |m.closed| ==> m.closed[i].start == 0)
      && var p := Work(m.p, now);
         p.f.fp == Lookup(m.p.fs, m.p.path) && p.f.pos == |Contents(p)| && p.next == now + 1
  {
    BeginInv(fs, path, start);
    RunKeepsInv(Begin(fs, path, start), steps);
    var m := Run(Begin(fs, path, start), steps);
    FeedFrame(Buffer(Delivered(m.p.fs, m.closed), ""), Consumed(m.p));
    WorkAgrees(m.p, now);
  }

  // ----- What polling loses -----

  lemma {:induction false} RunAppend(m: Machine, a: seq<Step>, b: seq<Step>)
    ensures Run(m, a + b) == Run(Run(m, a), b)
    ensures Possible(m, a + b) <==> Possible(m, a) && Possible(Run(m, a), b)
    decreases |a|
  {
    if a == [] {
      assert a + b == b;
    } else {
      assert (a + b)[1..] == a[1..] + b;
      RunAppend(Next(m, a[0]), a[1..], b);
    }
  }

  lemma RunOne(m: Machine, step: Step, steps: seq<Step>)
    ensures Run(m, [step] + steps) == Run(Next(m, step), steps)
    ensures Possible(m, [step] + steps) <==> CanStep(m, step) && Possible(Next(m, step), steps)
  {
    assert ([step] + steps)[1..] == steps;
  }

  function Others(ops: seq<Op>): seq<Step> {
    if ops == [] then [] else [Other(ops[0])] + Others(ops[1..])
  }

  /** Between polls the follower does nothing and its file grows by what is appended to it. */
  ghost predicate Paused(m: Machine, m': Machine, ops: seq<Op>, x: File) {
    && m' == m.(p := m.p.(fs := m'.p.fs)) && AppendSomething(ops)
    && x in m.p.fs.data && x in m'.p.fs.data
    && m'.p.fs.data[x] == m.p.fs.data[x] + Appended(ops, x)
  }

  lemma PausedOne(m: Machine, op: Op, x: File)
    requires ValidFs(m.p.fs) && CanStep(m, Other(op)) && x in m.p.fs.data
    ensures Paused(m, Next(m, Other(op)), [op], x)
  {
    ApplyAppends(m.p.fs, Held(m.p), op, x);
  }

  lemma PausedMore(m: Machine, m': Machine, m'': Machine, a: seq<Op>, b: seq<Op>, x: File)
    requires Paused(m, m', a, x) && Paused(m', m'', b, x)
    ensures Paused(m, m'', a + b, x)
  {
    AppendedConcat(a, b, x);
  }

  lemma {:induction false} WhileUnpolled(m: Machine, ops: seq<Op>, x: File)
    requires ValidFs(m.p.fs) && Possible(m, Others(ops)) && x in m.p.fs.data
    ensures Paused(m, Run(m, Others(ops)), ops, x)
    decreases |ops|
  {
    if ops == [] {
      assert Appended(ops, x) == "";
    } else {
      var op, rest := ops[0], ops[1..];
      var next, last := Next(m, Other(op)), Run(m, Others(ops));
      assert CanStep(m, Other(op)) && Possible(next, Others(rest)) && last == Run(next, Others(rest)) by {
        RunOne(m, Other(op), Others(rest));
      }
      ApplyValid(m.p.fs, Held(m.p), op);
      PausedOne(m, op, x);
      WhileUnpolled(next, rest, x);
      PausedMore(m, next, last, [op], rest, x);
      assert [op] + rest == ops;
    }
  }

  /** A poll after a pause in which other processes did `ops`. */
  function PollAfter(m: Machine, ops: seq<Op>, now: int): Machine {
    Next(Run(m, Others(ops)), Poll(now))
  }

  /** The poll finds the open file under the path, and reads on, or it does not, and the
      session ends where the last poll left it. */
  lemma PollAfterPause(m: Machine, ops: seq<Op>, now: int, x: File)
    requires Inv(m) && Possible(m, Others(ops)) && m.p.f.fp == Some(x)
    ensures var m' := PollAfter(m, ops, now);
      && x in m.p.fs.data && x in m'.p.fs.data
      && m'.p.fs.data[x] == m.p.fs.data[x] + Appended(ops, x)
      && (Lookup(m'.p.fs, m.p.path) == Some(x) ==>
            m'.closed == m.closed && m'.p.f.fp == Some(x) && m'.p.f.pos == |m'.p.fs.data[x]|)
      && (Lookup(m'.p.fs, m.p.path) != Some(x) ==>
            m'.closed == m.closed + [Session(x, 0, m.p.f.pos, |m'.p.fs.data[x]|, now)] && m'.p.f.fp != Some(x))
      && (Appended(ops, x) != "" <==> AppendsTo(ops, x))
      && Inv(m') && m'.p.path == m.p.path
  {
    WhileUnpolled(m, ops, x);
    RunKeepsInv(m, Others(ops));
    var n := Run(m, Others(ops));
    StaleExactly(n.p);
    WorkAgrees(n.p, now);
    PollKeepsInv(n, now);
    AppendedIff(ops, x);
  }

  /** What polling loses, and when.  Take any run up to a poll that leaves a file open, any
      operations of other processes, and the next poll.  If the path still means that file,
      the poll has read all of it.  If not, the session that ends has delivered what the file
      held at the first of the two polls; what was appended in between is not delivered, and
      that is something exactly if anything was appended. */
  lemma RotationLosesIff(
      fs: Fs, path: Name, start: int, steps: seq<Step>, t: int, ops: seq<Op>, now: int, x: File)
    requires ValidFs(fs) && UniqueIds(fs, {})
    requires Possible(Begin(fs, path, start), steps + [Poll(t)] + Others(ops))
    requires Run(Begin(fs, path, start), steps + [Poll(t)]).p.f.fp == Some(x)
    ensures var m := Run(Begin(fs, path, start), steps + [Poll(t)]);
      var m' := PollAfter(m, ops, now);
      && x in m.p.fs.data && x in m'.p.fs.data
      && m'.p.fs.data[x] == m.p.fs.data[x] + Appended(ops, x)
      && (Lookup(m'.p.fs, m.p.path) == Some(x) ==>
            m'.closed == m.closed && m'.p.f.fp == Some(x) && Consumed(m'.p) == m'.p.fs.data[x])
      && (Lookup(m'.p.fs, m.p.path) != Some(x) ==>
            |m'.closed| == |m.closed| + 1 && m'.closed[..|m.closed|] == m.closed &&
            var y := m'.closed[|m.closed|];
            && y.file == x && y.cause == now && y.len == |m'.p.fs.data[x]|
            && SessionText(m'.p.fs, y) == m.p.fs.data[x]
            && (y.end < y.len <==> AppendsTo(ops, x)))
  {
    var m0 := Begin(fs, path, start);
    RunAppend(m0, steps + [Poll(t)], Others(ops));
    RunAppend(m0, steps, [Poll(t)]);
    BeginInv(fs, path, start);
    RunKeepsInv(m0, steps);
    var before := Run(m0, steps);
    RunOne(before, Poll(t), []);
    var m := Run(m0, steps + [Poll(t)]);
    WorkAgrees(before.p, t);
    PollKeepsInv(before, t);
    PollAfterPause(m, ops, now, x);
    WholeText(m.p.fs.data[x], PollAfter(m, ops, now).p.fs.data[x]);
  }

  lemma WholeText(text: string, longer: string)
    requires text <= longer
    ensures longer[..|text|] == text && longer[0..|text|] == text && longer[..|longer|] == longer
  {
  }

  /** The file that construction opens is not read until the first poll.  If it is replaced
      before that, nothing of it is delivered, and something is lost unless it is empty. */
  lemma ReplacedBeforeFirstPoll(fs: Fs, path: Name, start: int, ops: seq<Op>, now: int, x: File)
    requires ValidFs(fs) && UniqueIds(fs, {}) && Lookup(fs, path) == Some(x)
    requires Possible(Begin(fs, path, start), Others(ops))
    ensures var m := PollAfter(Begin(fs, path, start), ops, now);
      && x in m.p.fs.data && m.p.fs.data[x] == fs.data[x] + Appended(ops, x)
      && (Lookup(m.p.fs, path) != Some(x) ==>
            m.closed == [Session(x, 0, 0, |m.p.fs.data[x]|, now)] &&
            (0 < m.closed[0].len <==> fs.data[x] != "" || AppendsTo(ops, x)))
  {
    BeginInv(fs, path, start);
    PollAfterPause(Begin(fs, path, start), ops, now, x);
  }

  /** Some poll of these steps finds that the path means `x`. */
  ghost predicate PolledWhileNamed(m: Machine, steps: seq<Step>, x: File)
    decreases |steps|
  {
    steps != [] &&
    ((steps[0].Poll? && Lookup(m.p.fs, m.p.path) == Some(x)) || PolledWhileNamed(Next(m, steps[0]), steps[1..], x))
  }

  /** Some session after the first `n`, or the present one, is of `x` and starts with `text`. */
  ghost predicate DeliveredLater(m: Machine, n: nat, x: File, text: string) {
    || (m.p.f.fp == Some(x) && text <= Consumed(m.p))
    || exists i :: n <= i < |m.closed| && m.closed[i].file == x && text <= SessionText(m.p.fs, m.closed[i])
  }

  lemma SessionTextStable<C>(fs: Fs, fs': Fs, x: Session<C>)
    requires SessionFits(fs, x) && Grows(fs, fs')
    ensures SessionText(fs', x) == SessionText(fs, x)
  {
    SliceOfLonger(fs.data[x.file], fs'.data[x.file], x.start, x.end);
  }

  lemma StepGrows(m: Machine, step: Step)
    requires Inv(m) && CanStep(m, step)
    ensures Inv(Next(m, step)) && Grows(m.p.fs, Next(m, step).p.fs) && Next(m, step).p.path == m.p.path
  {
    match step
    case Other(op) =>
      OtherKeepsInv(m, op);
      forall x | x in m.p.fs.data
        ensures x in Next(m, step).p.fs.data && m.p.fs.data[x] <= Next(m, step).p.fs.data[x]
      {
        ApplyGrows(m.p.fs, op, Held(m.p), x);
      }
    case Poll(now) =>
      PollKeepsInv(m, now);
      WorkAgrees(m.p, now);
  }

  /** What a step does to the open file and to the list of sessions. */
  lemma StepFollows(m: Machine, step: Step)
    requires Inv(m) && CanStep(m, step)
    ensures var m' := Next(m, step);
      && m.closed <= m'.closed
      && (m'.p.f.fp == m.p.f.fp ==> m'.closed == m.closed && (m.p.f.fp.Some? ==> Consumed(m.p) <= Consumed(m'.p)))
      && (m'.p.f.fp != m.p.f.fp && m.p.f.fp.Some? ==>
            m'.closed == m.closed + [Ended(m.p, step.now)] &&
            SessionText(m'.p.fs, Ended(m.p, step.now)) == Consumed(m.p))
      && (m'.p.f.fp != m.p.f.fp && m.p.f.fp.None? ==> m'.closed == m.closed)
      && m'.p.f.fp == (if step.Poll? then Lookup(m.p.fs, m.p.path) else m.p.f.fp)
      && (step.Poll? && m'.p.f.fp.Some? ==> Consumed(m'.p) == m.p.fs.data[m'.p.f.fp.value])
  {
    StepGrows(m, step);
    match step
    case Other(op) =>
      if m.p.f.fp.Some? {
        SliceOfLonger(Contents(m.p), Contents(Next(m, step).p), 0, m.p.f.pos);
      }
    case Poll(now) =>
      WorkAgrees(m.p, now);
      var c := Contents(Next(m, step).p);
      assert c[..|c|] == c;
      if m.p.f.fp.Some? {
        StaleExactly(m.p);
        EndedText(m.p, now);
      }
  }

  lemma DeliveredStaysDelivered(m: Machine, step: Step, n: nat, x: File, text: string)
    requires Inv(m) && CanStep(m, step) && DeliveredLater(m, n, x, text) && n <= |m.closed|
    ensures DeliveredLater(Next(m, step), n, x, text)
  {
    var m' := Next(m, step);
    StepFollows(m, step);
    StepGrows(m, step);
    if m.p.f.fp == Some(x) && text <= Consumed(m.p) {
      if m'.p.f.fp != m.p.f.fp {
        assert m'.closed[|m.closed|] == Ended(m.p, step.now);
      }
    } else {
      var i :| n <= i < |m.closed| && m.closed[i].file == x && text <= SessionText(m.p.fs, m.closed[i]);
      SessionTextStable(m.p.fs, m'.p.fs, m.closed[i]);
      assert m'.closed[i] == m.closed[i];
    }
  }

  lemma {:induction false} StaysDelivered(m: Machine, steps: seq<Step>, n: nat, x: File, text: string)
    requires Inv(m) && Possible(m, steps) && DeliveredLater(m, n, x, text) && n <= |m.closed|
    ensures DeliveredLater(Run(m, steps), n, x, text)
    decreases |steps|
  {
    if steps != [] {
      StepGrows(m, steps[0]);
      StepFollows(m, steps[0]);
      DeliveredStaysDelivered(m, steps[0], n, x, text);
      StaysDelivered(Next(m, steps[0]), steps[1..], n, x, text);
    }
  }

  /** `x` is not open and has not been since `n` sessions were over. */
  ghost predicate Unfollowed(m: Machine, n: nat, x: File, text: string) {
    && Inv(m) && m.p.f.fp != Some(x) && x in m.p.fs.data && text <= m.p.fs.data[x]
    && n <= |m.closed| && forall i :: n <= i < |m.closed| ==> m.closed[i].file != x
  }

  lemma UnfollowedStep(m: Machine, step: Step, n: nat, x: File, text: string)
    requires Unfollowed(m, n, x, text) && CanStep(m, step)
    ensures var m' := Next(m, step);
      if step.Poll? && Lookup(m.p.fs, m.p.path) == Some(x)
      then Inv(m') && n <= |m'.closed| && DeliveredLater(m', n, x, text)
      else Unfollowed(m', n, x, text)
  {
    StepFollows(m, step);
    StepGrows(m, step);
  }

  lemma UnfollowedUndelivered(m: Machine, n: nat, x: File, text: string)
    requires Unfollowed(m, n, x, text)
    ensures !DeliveredLater(m, n, x, text)
  {
  }

  /** A file that is not open is followed again exactly if some later poll finds it under the
      path, and then it is delivered from its beginning, with all that was lost. */
  lemma {:induction false} LostUntilNamedAgain(m: Machine, steps: seq<Step>, n: nat, x: File, text: string)
    requires Unfollowed(m, n, x, text) && Possible(m, steps)
    ensures DeliveredLater(Run(m, steps), n, x, text) <==> PolledWhileNamed(m, steps, x)
    decreases |steps|
  {
    if steps == [] {
      UnfollowedUndelivered(m, n, x, text);
    } else {
      var m' := Next(m, steps[0]);
      UnfollowedStep(m, steps[0], n, x, text);
      if steps[0].Poll? && Lookup(m.p.fs, m.p.path) == Some(x) {
        StaysDelivered(m', steps[1..], n, x, text);
      } else {
        LostUntilNamedAgain(m', steps[1..], n, x, text);
      }
    }
  }

  /** In every run: after a point where `x` is not open, its contents up to then are delivered,
      whether for the first time or again, exactly if a poll finds the path meaning `x`. */
  lemma ComesBackIff(fs: Fs, path: Name, start: int, steps: seq<Step>, later: seq<Step>, x: File)
    requires ValidFs(fs) && UniqueIds(fs, {}) && Possible(Begin(fs, path, start), steps + later)
    requires var m := Run(Begin(fs, path, start), steps); m.p.f.fp != Some(x) && x in m.p.fs.data
    ensures var m := Run(Begin(fs, path, start), steps);
      DeliveredLater(Run(m, later), |m.closed|, x, m.p.fs.data[x]) <==> PolledWhileNamed(m, later, x)
  {
    RunAppend(Begin(fs, path, start), steps, later);
    BeginInv(fs, path, start);
    RunKeepsInv(Begin(fs, path, start), steps);
    var m := Run(Begin(fs, path, start), steps);
    LostUntilNamedAgain(m, later, |m.closed|, x, m.p.fs.data[x]);
  }

  /** When the follower next asks to be called: at once after construction, and a second after
      a poll, whatever others do in between. */
  lemma NextPollTime(fs: Fs, path: Name, start: int, steps: seq<Step>, t: int, ops: seq<Op>)
    requires ValidFs(fs) && UniqueIds(fs, {})
    ensures Possible(Begin(fs, path, start), Others(ops)) ==>
      Run(Begin(fs, path, start), Others(ops)).p.next == start
    ensures Possible(Begin(fs, path, start), steps + [Poll(t)] + Others(ops)) ==>
      Run(Begin(fs, path, start), steps + [Poll(t)] + Others(ops)).p.next == t + 1
  {
    var m := Begin(fs, path, start);
    KeepsNext(m, ops);
    RunAppend(m, steps + [Poll(t)], Others(ops));
    RunAppend(m, steps, [Poll(t)]);
    RunOne(Run(m, steps), Poll(t), []);
    KeepsNext(Run(m, steps + [Poll(t)]), ops);
    WorkSetsNext(Run(m, steps).p, t);
  }

  lemma WorkSetsNext(p: Poller, now: int)
    ensures Work(p, now).next == now + 1
  {
  }

  lemma {:induction false} KeepsNext(m: Machine, ops: seq<Op>)
    ensures Run(m, Others(ops)).p.next == m.p.next
    decreases |ops|
  {
    if ops != [] {
      RunOne(m, Other(ops[0]), Others(ops[1..]));
      KeepsNext(Next(m, Other(ops[0])), ops[1..]);
    }
  }

  // ----- Handles -----

  function FcloseCount(xs: seq<nat>, h: nat): nat {
    multiset(xs)[h]
  }

  ghost predicate EachClosedOnce(p: Poller) {
    forall h :: 0 <= h < p.opens ==> FcloseCount(p.fcloses, h) == 1
  }

  lemma {:induction false} InOrderOnce(xs: seq<nat>, h: nat)
    requires forall i :: 0 <= i < |xs| ==> xs[i] == i
    ensures FcloseCount(xs, h) == if h < |xs| then 1 else 0
  {
    if xs != [] {
      var n := |xs| - 1;
      assert xs == xs[..n] + [n];
      InOrderOnce(xs[..n], h);
    }
  }

  lemma DestroyCloses(p: Poller)
    requires HandlesInOrder(p)
    ensures EachClosedOnce(Destroy(p)) <==> p.f.fp.None?
    ensures p.f.fp.Some? ==> 0 < p.opens && FcloseCount(Destroy(p).fcloses, p.opens - 1) == 2
  {
    forall h: nat
      ensures FcloseCount(p.fcloses, h) == if h < |p.fcloses| then 1 else 0
    {
      InOrderOnce(p.fcloses, h);
    }
    if p.f.fp.Some? {
      var last := p.opens - 1;
      assert Destroy(p).fcloses == p.fcloses + [last] + [last];
      assert FcloseCount(p.fcloses, last) == 0;
      assert FcloseCount(Destroy(p).fcloses, last) == 2;
    }
  }

  /** Over the life of a follower each handle it opens is closed exactly once if, and only if,
      no file is open when it is destroyed.  An open one is then closed twice. */
  lemma ClosedOnceIffIdle(fs: Fs, path: Name, start: int, steps: seq<Step>)
    requires ValidFs(fs) && UniqueIds(fs, {}) && Possible(Begin(fs, path, start), steps)
    ensures var p := Run(Begin(fs, path, start), steps).p;
      && (EachClosedOnce(Destroy(p)) <==> p.f.fp.None?)
      && (p.f.fp.Some? ==> 0 < p.opens && FcloseCount(Destroy(p).fcloses, p.opens - 1) == 2)
  {
    BeginInv(fs, path, start);
    RunKeepsInv(Begin(fs, path, start), steps);
    DestroyCloses(Run(Begin(fs, path, start), steps).p);
  }
}
