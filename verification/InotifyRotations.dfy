/** What the inotify follower loses and what it delivers twice when names change hands, and
    exactly when. */
module InotifyRotations {
  import opened Wrappers
  import opened FileSystem
  import opened Following
  import opened Inotify
  import opened InotifyProofs

  // ----- Runs -----

  lemma {:induction false} RunAppend(m: Machine, a: seq<Step>, b: seq<Step>)
    ensures Run(m, a + b) == Run(Run(m, a), b)
    ensures Possible(m, a + b) <==> Possible(m, a) && Possible(Run(m, a), b)
    decreases |a|
  {
    if a == [] {
      assert a + b == b;
    } else {
      assert (a + b)[1..] == a[1..] + b;
      RunAppend(Next(m, a[0]), a[1..], b);
    }
  }

  // ----- What is lost -----

  /** The follower looks at the open file: reads it to its end, or closes it, or both. */
  predicate Attends(m: Machine, step: Step) {
    step.HandleOne? && m.batch != [] &&
    var ev := m.batch[0].ev;
    IsDirEvent(ev, m.s.base) || (m.s.f.fp.Some? && !ev.Dir? && ev.wd == m.s.wd)
  }

  /** The operations of other processes since the follower last looked, where `ops` are those
      before these steps. */
  function SinceRead(m: Machine, steps: seq<Step>, ops: seq<Op>): seq<Op>
    decreases |steps|
  {
    if steps == [] then ops
    else
      SinceRead(Next(m, steps[0]), steps[1..],
        if Attends(m, steps[0]) then [] else if steps[0].Other? then ops + [steps[0].op] else ops)
  }

  /** What has not been read is what these operations appended. */
  ghost predicate UnreadIs(m: Machine, ops: seq<Op>) {
    AppendSomething(ops) && (m.s.f.fp.Some? ==> Unread(m.s) == Appended(ops, m.s.f.fp.value))
  }

  lemma UnreadAfterAttending(m: Machine, step: Step)
    requires Inv(m) && Attends(m, step)
    ensures UnreadIs(Next(m, step), [])
  {
    assert Pending(m)[0] == m.batch[0];
    HandleCases(m);
    if m.s.f.fp.Some? {
      ReadLinesReads(m.s);
    }
  }

  lemma RestOfLonger(f: Follow, contents: string, more: string)
    requires f.pos <= |contents|
    ensures Rest(f, contents + more) == Rest(f, contents) + more
  {
  }

  /** What is unread grows by what is appended. */
  lemma UnreadGrows(s: Sys, op: Op, notice: Notice, x: File)
    requires WellFormed(s) && s.f.fp == Some(x) && Enabled(s.fs, {x}, op)
    ensures Unread(Environment(s, op, notice)) == Unread(s) + Appended([op], x)
  {
    ApplyAppends(s.fs, {x}, op, x);
    RestOfLonger(s.f, Contents(s), Appended([op], x));
  }

  lemma UnreadAfterOther(m: Machine, op: Op, notice: Notice, ops: seq<Op>)
    requires WellFormed(m.s) && CanStep(m, Other(op, notice)) && UnreadIs(m, ops)
    ensures UnreadIs(Next(m, Other(op, notice)), ops + [op])
  {
    if m.s.f.fp.Some? {
      var x := m.s.f.fp.value;
      UnreadGrows(m.s, op, notice, x);
      AppendedConcat(ops, [op], x);
      assert Unread(m.s) == Appended(ops, x);
    }
    assert op.Append? ==> op.text != "";
  }

  lemma UnreadAfterIdling(m: Machine, step: Step, ops: seq<Op>)
    requires Inv(m) && CanStep(m, step) && !Attends(m, step) && !step.Other? && UnreadIs(m, ops)
    ensures UnreadIs(Next(m, step), ops)
  {
    if step.HandleOne? {
      assert Pending(m)[0] == m.batch[0];
      OtherEventIgnored(m.s, m.batch[0].ev);
    }
  }

  lemma {:induction false} UnreadSince(m: Machine, steps: seq<Step>, ops: seq<Op>)
    requires Inv(m) && Possible(m, steps) && UnreadIs(m, ops)
    ensures UnreadIs(Run(m, steps), SinceRead(m, steps, ops))
    decreases |steps|
  {
    if steps != [] {
      StepKeepsInv(m, steps[0]);
      if Attends(m, steps[0]) {
        UnreadAfterAttending(m, steps[0]);
        UnreadSince(Next(m, steps[0]), steps[1..], []);
      } else if steps[0].Other? {
        UnreadAfterOther(m, steps[0].op, steps[0].notice, ops);
        UnreadSince(Next(m, steps[0]), steps[1..], ops + [steps[0].op]);
      } else {
        UnreadAfterIdling(m, steps[0], ops);
        UnreadSince(Next(m, steps[0]), steps[1..], ops);
      }
    }
  }

  lemma ClosingLeaves(m: Machine, ops: seq<Op>)
    requires WellFormed(m.s) && UnreadIs(m, ops)
    requires m.batch != [] && Closes(m.s, m.batch[0].ev)
    ensures var y, x := Ended(m, m.batch[0]), m.s.f.fp.value;
      && x in m.s.fs.data && y.end <= y.len == |m.s.fs.data[x]|
      && (y.cause.ev.Dir? ==>
            m.s.fs.data[x][y.end..] == Appended(ops, x) && (y.end < y.len <==> AppendsTo(ops, x)))
  {
    AppendedIff(ops, m.s.f.fp.value);
  }

  lemma ClosingEnds(m: Machine)
    requires m.batch != [] && Closes(m.s, m.batch[0].ev)
    ensures Next(m, HandleOne).closed == m.closed + [Ended(m, m.batch[0])]
  {
  }

  /** When a session ends short of its file.  If the file itself was reported gone, never.  If
      the directory was, what the session lacks is what has been appended since the follower
      last looked, so it lacks something exactly if somebody appended since then. */
  lemma ClosesShortIff(fs: Fs, base: Name, steps: seq<Step>)
    requires ValidFs(fs) && Possible(Begin(fs, base), steps)
    requires var m := Run(Begin(fs, base), steps);
      m.batch != [] && Closes(m.s, m.batch[0].ev)
    ensures var m := Run(Begin(fs, base), steps);
      var closed, x := Next(m, HandleOne).closed, m.s.f.fp.value;
      var ops := SinceRead(Begin(fs, base), steps, []);
      && |closed| == |m.closed| + 1 && closed[..|m.closed|] == m.closed && x in m.s.fs.data
      && var y := closed[|m.closed|];
         && y.file == x && y.cause == m.batch[0] && y.end <= y.len == |m.s.fs.data[x]|
         && (y.cause.ev.Self? ==> y.end == y.len)
         && (y.cause.ev.Dir? ==>
               m.s.fs.data[x][y.end..] == Appended(ops, x) && (y.end < y.len <==> AppendsTo(ops, x)))
  {
    BeginInv(fs, base);
    RunKeepsInv(Begin(fs, base), steps);
    UnreadSince(Begin(fs, base), steps, []);
    ClosingEnds(Run(Begin(fs, base), steps));
    ClosingLeaves(Run(Begin(fs, base), steps), SinceRead(Begin(fs, base), steps, []));
  }

  // ----- The shortest way to lose something -----

  lemma FirstQueued(s: Sys, op: Op, notice: Notice)
    requires s.queue == [] && Events(s, op, notice) != []
    ensures Environment(s, op, notice).queue != []
    ensures Environment(s, op, notice).queue[0].ev == Events(s, op, notice)[0]
  {
    var evs, sizes := Events(s, op, notice), Sizes(Apply(s.fs, op));
    EnqueueAllExtends(Enqueue([], Entry(evs[0], sizes)), evs[1..], sizes);
  }

  lemma LaterQueued(s: Sys, op: Op, notice: Notice)
    requires s.queue != []
    ensures Environment(s, op, notice).queue != []
    ensures Environment(s, op, notice).queue[0] == s.queue[0]
  {
    EnqueueAllExtends(s.queue, Events(s, op, notice), Sizes(Apply(s.fs, op)));
  }

  /** The file is renamed and then written to, behind the follower's back. */
  function Renaming(s: Sys, to: Name, x: File, text: string): Sys {
    Environment(Environment(s, Rename(s.base, to), Silent), Append(x, text), Silent)
  }

  lemma Renamed(s: Sys, to: Name, x: File, text: string)
    requires s.queue == [] && Lookup(s.fs, s.base) == Some(x) && x in s.fs.data && to != s.base
    ensures var w := Renaming(s, to, x, text);
      && w == s.(fs := w.fs, queue := w.queue) && w.queue != [] && w.queue[0].ev == Dir(MovedFrom, s.base)
      && x in w.fs.data && w.fs.data[x] == s.fs.data[x] + text
  {
    FirstQueued(s, Rename(s.base, to), Silent);
    LaterQueued(Environment(s, Rename(s.base, to), Silent), Append(x, text), Silent);
  }

  lemma RunTwo(m: Machine, a: Step, b: Step)
    ensures Run(m, [a, b]) == Next(Next(m, a), b)
    ensures Possible(m, [a, b]) <==> CanStep(m, a) && CanStep(Next(m, a), b)
  {
    RunOne(Next(m, a), b, []);
    RunOne(m, a, [b]);
    assert [a] + [b] == [a, b] && [b] + [] == [b];
  }

  /** Handling a directory event while something is unread. */
  lemma FetchesAndCloses(m: Machine, x: File)
    requires m.batch == [] && m.s.queue != [] && IsDirEvent(m.s.queue[0].ev, m.s.base)
    requires m.s.f.fp == Some(x) && x in m.s.fs.data
    ensures var steps := [Fetch(1), HandleOne];
      && Possible(m, steps)
      && Run(m, steps).closed
        == m.closed + [Session(x, m.start, m.s.f.pos, |m.s.fs.data[x]|, m.s.queue[0])]
  {
    RunTwo(m, Fetch(1), HandleOne);
    var m' := Next(m, Fetch(1));
    assert m'.batch == [m.s.queue[0]];
    ClosingEnds(m');
  }

  function RenamingSteps(base: Name, to: Name, x: File, text: string): seq<Step> {
    [Other(Rename(base, to), Silent), Other(Append(x, text), Silent)]
  }

  lemma RenamingRuns(m: Machine, to: Name, x: File, text: string)
    requires Lookup(m.s.fs, m.s.base) == Some(x) && x in m.s.fs.data && to != m.s.base && text != ""
    ensures Possible(m, RenamingSteps(m.s.base, to, x, text))
    ensures Run(m, RenamingSteps(m.s.base, to, x, text)) == m.(s := Renaming(m.s, to, x, text))
  {
    RunTwo(m, Other(Rename(m.s.base, to), Silent), Other(Append(x, text), Silent));
  }

  lemma ThenCloses(m: Machine, first: seq<Step>, m': Machine, x: File)
    requires Possible(m, first) && m' == Run(m, first)
    requires m'.batch == [] && m'.s.queue != [] && IsDirEvent(m'.s.queue[0].ev, m'.s.base)
    requires m'.s.f.fp == Some(x) && x in m'.s.fs.data
    ensures Possible(m, first + [Fetch(1), HandleOne])
    ensures Run(m, first + [Fetch(1), HandleOne]).closed
      == m'.closed + [Session(x, m'.start, m'.s.f.pos, |m'.s.fs.data[x]|, m'.s.queue[0])]
  {
    FetchesAndCloses(m', x);
    RunAppend(m, first, [Fetch(1), HandleOne]);
  }

  /** With nothing pending the file is renamed, and written to under its new name; the
      directory event that the renaming causes closes it. */
  lemma ShortExample(m: Machine, to: Name, x: File, text: string)
    requires Inv(m) && Agrees(m) && Lookup(m.s.fs, m.s.base) == Some(x) && to != m.s.base && text != ""
    ensures var steps := RenamingSteps(m.s.base, to, x, text) + [Fetch(1), HandleOne];
      && Possible(m, steps) && |Run(m, steps).closed| == |m.closed| + 1
      && var y := Run(m, steps).closed[|m.closed|];
         y.file == x && y.start == m.start && y.end == |Contents(m.s)| && y.len == y.end + |text|
  {
    var first := RenamingSteps(m.s.base, to, x, text);
    var m' := m.(s := Renaming(m.s, to, x, text));
    assert Possible(m, first) && Run(m, first) == m' by { RenamingRuns(m, to, x, text); }
    Renamed(m.s, to, x, text);
    ThenCloses(m, first, m', x);
  }

  // ----- What comes back -----

  /** Some directory event for the name is handled in these steps while the name means `x`. */
  ghost predicate HandledWhileNamed(m: Machine, steps: seq<Step>, x: File)
    decreases |steps|
  {
    steps != [] &&
    ((Reopens(m, steps[0]) && Lookup(m.s.fs, m.s.base) == Some(x)) ||
     HandledWhileNamed(Next(m, steps[0]), steps[1..], x))
  }

  /** One of the stretches after the first `n` is of `x`, from its beginning, `length` bytes
      or more. */
  ghost predicate FollowedFrom(m: Machine, n: nat, x: File, length: nat) {
    exists i :: n <= i < |Spans(m)| && IsWhole(Spans(m)[i], x, length)
  }

  predicate IsWhole(y: Span, x: File, length: nat) {
    y.file == x && y.start == 0 && length <= y.end
  }

  function Length(m: Machine, x: File): nat {
    if x in m.s.fs.data then |m.s.fs.data[x]| else 0
  }

  lemma StepLengthens(m: Machine, step: Step, x: File)
    requires Inv(m) && CanStep(m, step)
    ensures Length(m, x) <= Length(Next(m, step), x)
  {
    match step
    case Other(op, notice) =>
      if x in m.s.fs.data {
        ApplyGrows(m.s.fs, op, if m.s.f.fp.Some? then {m.s.f.fp.value} else {}, x);
      }
    case Fetch(_) =>
    case HandleOne => HandleCases(m);
  }

  /** The stretches after a step: the last one may have grown, or been followed by another. */
  ghost predicate Continues(xs: seq<Span>, ys: seq<Span>, another: Option<Span>) {
    && |ys| == |xs| + (if another.Some? then 1 else 0)
    && (forall i :: 0 <= i < |xs| ==> ys[i].file == xs[i].file && ys[i].start == xs[i].start && xs[i].end <= ys[i].end)
    && (forall i :: 0 <= i < |ys| - 1 ==> ys[i] == xs[i])
    && (another.Some? ==> ys[|xs|] == another.value)
  }

  function Another(m: Machine, step: Step): Option<Span> {
    if Reopens(m, step) then Some(Span(m.s.fs.dir[m.s.base], 0, Length(m, m.s.fs.dir[m.s.base]))) else None
  }

  lemma StepSpans(m: Machine, step: Step)
    requires Inv(m) && CanStep(m, step)
    ensures Continues(Spans(m), Spans(Next(m, step)), Another(m, step))
  {
    if Reopens(m, step) {
      SpansAfterReopening(m, step);
    } else {
      SpansAfterOther(m, step);
      assert Grown(Spans(m), Spans(Next(m, step)));
    }
  }

  lemma {:induction false} StaysFollowed(m: Machine, steps: seq<Step>, n: nat, x: File, length: nat)
    requires Inv(m) && Possible(m, steps) && FollowedFrom(m, n, x, length)
    ensures FollowedFrom(Run(m, steps), n, x, length)
    decreases |steps|
  {
    if steps != [] {
      StepKeepsInv(m, steps[0]);
      StepSpans(m, steps[0]);
      var i :| n <= i < |Spans(m)| && IsWhole(Spans(m)[i], x, length);
      assert IsWhole(Spans(Next(m, steps[0]))[i], x, length);
      StaysFollowed(Next(m, steps[0]), steps[1..], n, x, length);
    }
  }

  ghost predicate Unfollowed(xs: seq<Span>, n: nat, x: File) {
    n <= |xs| && forall i :: n <= i < |xs| ==> xs[i].file != x
  }

  lemma UnfollowedContinues(xs: seq<Span>, ys: seq<Span>, another: Option<Span>, n: nat, x: File)
    requires Unfollowed(xs, n, x) && Continues(xs, ys, another)
    requires another.Some? ==> another.value.file != x
    ensures Unfollowed(ys, n, x)
  {
  }

  /** The step that opens `x`. */
  lemma FollowsFromHere(m: Machine, step: Step, n: nat, x: File, length: nat)
    requires Inv(m) && CanStep(m, step) && n <= |Spans(m)| && length <= Length(m, x)
    requires Reopens(m, step) && Lookup(m.s.fs, m.s.base) == Some(x)
    ensures FollowedFrom(Next(m, step), n, x, length)
  {
    StepSpans(m, step);
    assert IsWhole(Spans(Next(m, step))[|Spans(m)|], x, length);
  }

  lemma {:induction false} FollowedAgainIff(m: Machine, steps: seq<Step>, n: nat, x: File, length: nat)
    requires Inv(m) && Possible(m, steps) && Unfollowed(Spans(m), n, x) && length <= Length(m, x)
    ensures FollowedFrom(Run(m, steps), n, x, length) <==> HandledWhileNamed(m, steps, x)
    decreases |steps|
  {
    if steps == [] {
      assert !FollowedFrom(m, n, x, length);
    } else {
      var m' := Next(m, steps[0]);
      assert Inv(m') by { StepKeepsInv(m, steps[0]); }
      StepLengthens(m, steps[0], x);
      if Reopens(m, steps[0]) && Lookup(m.s.fs, m.s.base) == Some(x) {
        FollowsFromHere(m, steps[0], n, x, length);
        StaysFollowed(m', steps[1..], n, x, length);
      } else {
        StepSpans(m, steps[0]);
        UnfollowedContinues(Spans(m), Spans(m'), Another(m, steps[0]), n, x);
        FollowedAgainIff(m', steps[1..], n, x, length);
      }
    }
  }

  /** In every run: from any point on, a file is opened, and then delivered from its beginning
      with all it held at that point, exactly if a directory event for the name is handled
      while the name means that file.  Otherwise none of it is, so bytes that a session lacks
      stay lost, and a file that loses the name again before an event is handled is missed. */
  lemma ComesBackIff(fs: Fs, base: Name, steps: seq<Step>, later: seq<Step>, x: File)
    requires ValidFs(fs) && Possible(Begin(fs, base), steps + later)
    ensures var m := Run(Begin(fs, base), steps);
      FollowedFrom(Run(m, later), |Spans(m)|, x, Length(m, x)) <==> HandledWhileNamed(m, later, x)
  {
    RunAppend(Begin(fs, base), steps, later);
    BeginInv(fs, base);
    RunKeepsInv(Begin(fs, base), steps);
    var m := Run(Begin(fs, base), steps);
    FollowedAgainIff(m, later, |Spans(m)|, x, Length(m, x));
  }

  // ----- What is delivered twice -----

  predicate HasByte(y: Span, x: File, k: nat) {
    y.file == x && y.start <= k < y.end
  }

  /** Byte `k` of `x` is in two of the stretches that were followed. */
  ghost predicate ByteTwice(m: Machine, x: File, k: nat) {
    exists i, j :: 0 <= i < j < |Spans(m)| && HasByte(Spans(m)[i], x, k) && HasByte(Spans(m)[j], x, k)
  }

  ghost predicate SomeByteTwice(m: Machine) {
    exists x, k :: ByteTwice(m, x, k)
  }

  /** Something has been followed of that file. */
  ghost predicate HasSome(xs: seq<Span>, x: File) {
    exists i :: 0 <= i < |xs| && xs[i].file == x && xs[i].start < xs[i].end
  }

  /** The follower opens a file of which it has delivered something already: one that came
      back to the name, or the very one that it has open. */
  ghost predicate Rereads(m: Machine, step: Step) {
    Reopens(m, step) && HasSome(Spans(m), m.s.fs.dir[m.s.base])
  }

  ghost predicate RereadsIn(m: Machine, steps: seq<Step>)
    decreases |steps|
  {
    steps != [] && (Rereads(m, steps[0]) || RereadsIn(Next(m, steps[0]), steps[1..]))
  }

  /** A later stretch of a file contains the earlier ones. */
  ghost predicate Nested(xs: seq<Span>) {
    && (forall i, j :: 0 <= i < j < |xs| && xs[i].file == xs[j].file ==> xs[i].end <= xs[j].end)
    && (forall i :: 0 < i < |xs| ==> xs[i].start == 0)
  }

  /** So there are two with a byte in common exactly if one before the last of a file has any. */
  ghost predicate Repeats(xs: seq<Span>) {
    exists i, j :: 0 <= i < j < |xs| && xs[i].file == xs[j].file && xs[i].start < xs[i].end
  }

  lemma RepeatsTwice(m: Machine)
    requires Nested(Spans(m)) && Repeats(Spans(m))
    ensures SomeByteTwice(m)
  {
    var xs := Spans(m);
    var i, j :| 0 <= i < j < |xs| && xs[i].file == xs[j].file && xs[i].start < xs[i].end;
    assert HasByte(xs[i], xs[i].file, xs[i].start) && HasByte(xs[j], xs[i].file, xs[i].start);
    assert ByteTwice(m, xs[i].file, xs[i].start);
  }

  lemma TwiceIffRepeats(m: Machine)
    requires Nested(Spans(m))
    ensures SomeByteTwice(m) <==> Repeats(Spans(m))
  {
    var xs := Spans(m);
    if SomeByteTwice(m) {
      var x, k :| ByteTwice(m, x, k);
      var i, j :| 0 <= i < j < |xs| && HasByte(xs[i], x, k) && HasByte(xs[j], x, k);
      assert xs[i].file == xs[j].file && xs[i].start < xs[i].end;
    } else if Repeats(xs) {
      RepeatsTwice(m);
    }
  }

  lemma NestedContinues(xs: seq<Span>, ys: seq<Span>, another: Option<Span>)
    requires Nested(xs) && Continues(xs, ys, another)
    requires another.Some? ==>
      another.value.start == 0 &&
      forall i :: 0 <= i < |xs| && xs[i].file == another.value.file ==> xs[i].end <= another.value.end
    ensures Nested(ys)
  {
  }

  lemma StepKeepsNested(m: Machine, step: Step)
    requires Inv(m) && CanStep(m, step) && Nested(Spans(m))
    ensures Nested(Spans(Next(m, step)))
  {
    StepSpans(m, step);
    forall i | 0 <= i < |Spans(m)|
      ensures Spans(m)[i].end <= Length(m, Spans(m)[i].file)
    {
      SpansFit(m, i);
    }
    NestedContinues(Spans(m), Spans(Next(m, step)), Another(m, step));
  }

  lemma RepeatsContinues(xs: seq<Span>, ys: seq<Span>, another: Option<Span>)
    requires Continues(xs, ys, another)
    ensures Repeats(ys) <==> Repeats(xs) || (another.Some? && HasSome(xs, another.value.file))
  {
    if Repeats(xs) {
      var i, j :| 0 <= i < j < |xs| && xs[i].file == xs[j].file && xs[i].start < xs[i].end;
      assert ys[i].file == ys[j].file && ys[i].start < ys[i].end;
    }
    if another.Some? && HasSome(xs, another.value.file) {
      var i :| 0 <= i < |xs| && xs[i].file == another.value.file && xs[i].start < xs[i].end;
      assert ys[i].file == ys[|xs|].file && ys[i].start < ys[i].end;
    }
    if Repeats(ys) {
      var i, j :| 0 <= i < j < |ys| && ys[i].file == ys[j].file && ys[i].start < ys[i].end;
      assert ys[i] == xs[i];
      assert j < |xs| ==> xs[i].file == xs[j].file;
    }
  }

  lemma StepRepeats(m: Machine, step: Step)
    requires Inv(m) && CanStep(m, step) && Nested(Spans(m))
    ensures Nested(Spans(Next(m, step)))
    ensures Repeats(Spans(Next(m, step))) <==> Repeats(Spans(m)) || Rereads(m, step)
  {
    StepKeepsNested(m, step);
    StepSpans(m, step);
    RepeatsContinues(Spans(m), Spans(Next(m, step)), Another(m, step));
  }

  lemma {:induction false} RunRepeats(m: Machine, steps: seq<Step>)
    requires Inv(m) && Possible(m, steps) && Nested(Spans(m))
    ensures Nested(Spans(Run(m, steps)))
    ensures Repeats(Spans(Run(m, steps))) <==> Repeats(Spans(m)) || RereadsIn(m, steps)
    decreases |steps|
  {
    if steps != [] {
      StepKeepsInv(m, steps[0]);
      StepRepeats(m, steps[0]);
      RunRepeats(Next(m, steps[0]), steps[1..]);
    }
  }

  /** In every run: some byte of some file is delivered twice exactly if some directory event
      was handled while the name meant a file of which something had been delivered, be it one
      that has come back or the one that is open. */
  lemma TwiceIff(fs: Fs, base: Name, steps: seq<Step>)
    requires ValidFs(fs) && Possible(Begin(fs, base), steps)
    ensures SomeByteTwice(Run(Begin(fs, base), steps)) <==> RereadsIn(Begin(fs, base), steps)
  {
    BeginInv(fs, base);
    RunRepeats(Begin(fs, base), steps);
    TwiceIffRepeats(Run(Begin(fs, base), steps));
  }

  // ----- The shortest way to deliver a file twice -----

  lemma QueueOne(s: Sys, op: Op, ev: Event)
    requires Events(s, op, Silent) == [ev]
    ensures Environment(s, op, Silent).queue == Enqueue(s.queue, Entry(ev, Sizes(Apply(s.fs, op))))
  {
    var sizes := Sizes(Apply(s.fs, op));
    assert EnqueueAll(Enqueue(s.queue, Entry(ev, sizes)), [], sizes) == Enqueue(s.queue, Entry(ev, sizes));
    assert [ev][1..] == [];
  }

  function Replacing(s: Sys, y: File, id: Id, text: string): Sys {
    var u := Environment(s, Unlink(s.base), Silent);
    var v := Environment(u, Create(s.base, y, id), Silent);
    Environment(v, Append(y, text), Silent)
  }

  /** The file is replaced and the new one written to, behind the follower's back. */
  lemma Replaced(s: Sys, y: File, id: Id, text: string)
    requires WellFormed(s) && s.queue == [] && s.base in s.fs.dir && y !in s.fs.data
    ensures var w := Replacing(s, y, id, text);
      && w == s.(fs := w.fs, queue := w.queue)
      && s.base in w.fs.dir && w.fs.dir[s.base] == y && y in w.fs.data && w.fs.data[y] == text
      && |w.queue| == 2 && w.queue[0].ev == Dir(Deleted, s.base) && w.queue[1].ev == Dir(Created, s.base)
  {
    var u := Environment(s, Unlink(s.base), Silent);
    QueueOne(s, Unlink(s.base), Dir(Deleted, s.base));
    var v := Environment(u, Create(s.base, y, id), Silent);
    QueueOne(u, Create(s.base, y, id), Dir(Created, s.base));
    assert y !in v.marks;
    assert v.fs.data[y] == "" && "" + text == text;
  }

  function ReplacingSteps(base: Name, y: File, id: Id, text: string): seq<Step> {
    [Other(Unlink(base), Silent), Other(Create(base, y, id), Silent), Other(Append(y, text), Silent)]
  }

  lemma RunThree(m: Machine, a: Step, b: Step, c: Step)
    ensures Run(m, [a, b, c]) == Next(Next(Next(m, a), b), c)
    ensures Possible(m, [a, b, c]) <==> CanStep(m, a) && CanStep(Next(m, a), b) && CanStep(Next(Next(m, a), b), c)
  {
    RunOne(Next(Next(m, a), b), c, []);
    RunOne(Next(m, a), b, [c]);
    RunOne(m, a, [b] + [c]);
    assert [a] + ([b] + [c]) == [a, b, c] && [c] + [] == [c];
  }

  lemma ReplacingRuns(m: Machine, y: File, id: Id, text: string)
    requires Inv(m) && m.s.base in m.s.fs.dir && y !in m.s.fs.data && text != ""
    requires forall x :: x in m.s.fs.ids ==> m.s.fs.ids[x] != id
    ensures Possible(m, ReplacingSteps(m.s.base, y, id, text))
    ensures Run(m, ReplacingSteps(m.s.base, y, id, text)) == m.(s := Replacing(m.s, y, id, text))
  {
    RunThree(m, Other(Unlink(m.s.base), Silent), Other(Create(m.s.base, y, id), Silent), Other(Append(y, text), Silent));
  }

  lemma HandlesOne(m: Machine, y: File)
    requires Inv(m) && m.batch != [] && IsDirEvent(m.batch[0].ev, m.s.base) && Lookup(m.s.fs, m.s.base) == Some(y)
    ensures var m' := Next(m, HandleOne);
      && Inv(m') && m'.s.fs == m.s.fs && m'.s.base == m.s.base && m'.batch == m.batch[1..]
      && Spans(m') == Spans(m) + [Span(y, 0, Length(m, y))]
  {
    StepKeepsInv(m, HandleOne);
    SpansAfterReopening(m, HandleOne);
  }

  lemma FetchesBoth(m: Machine)
    requires Inv(m) && m.batch == [] && |m.s.queue| == 2
    ensures var m' := Next(m, Fetch(2));
      && Inv(m') && m'.batch == m.s.queue && m'.s.fs == m.s.fs && m'.s.base == m.s.base
      && Spans(m') == Spans(m)
  {
    FetchKeepsInv(m, 2);
  }

  /** Two events for the name, handled one after the other. */
  ghost predicate TwoFor(m: Machine, y: File, batch: seq<Entry>) {
    && Inv(m) && Lookup(m.s.fs, m.s.base) == Some(y)
    && |batch| == 2 && IsDirEvent(batch[0].ev, m.s.base) && IsDirEvent(batch[1].ev, m.s.base)
  }

  lemma HandlesTwo(m: Machine, y: File)
    requires TwoFor(m, y, m.batch)
    ensures Next(m, HandleOne).batch != []
    ensures Spans(Next(Next(m, HandleOne), HandleOne))
      == Spans(m) + [Span(y, 0, Length(m, y))] + [Span(y, 0, Length(m, y))]
  {
    HandlesOne(m, y);
    HandlesOne(Next(m, HandleOne), y);
  }

  lemma HandlesBoth(m: Machine, y: File)
    requires m.batch == [] && TwoFor(m, y, m.s.queue)
    ensures Possible(m, [Fetch(2), HandleOne, HandleOne])
    ensures Spans(Run(m, [Fetch(2), HandleOne, HandleOne]))
      == Spans(m) + [Span(y, 0, Length(m, y))] + [Span(y, 0, Length(m, y))]
  {
    var m' := Next(m, Fetch(2));
    assert TwoFor(m', y, m'.batch) && Spans(m') == Spans(m) && Length(m', y) == Length(m, y) by {
      FetchesBoth(m);
    }
    HandlesTwo(m', y);
    RunThree(m, Fetch(2), HandleOne, HandleOne);
  }

  /** With nothing pending the file is unlinked,
      another is created in its place and written to.  The first of the two directory events
      that causes is answered by reading the new file, and so is the second. */
  lemma TwiceExample(m: Machine, y: File, id: Id, text: string)
    requires Inv(m) && Agrees(m) && m.s.base in m.s.fs.dir && y !in m.s.fs.data && text != ""
    requires forall x :: x in m.s.fs.ids ==> m.s.fs.ids[x] != id
    ensures var steps := ReplacingSteps(m.s.base, y, id, text) + [Fetch(2), HandleOne, HandleOne];
      && Possible(m, steps)
      && Spans(Run(m, steps)) == Spans(m) + [Span(y, 0, |text|)] + [Span(y, 0, |text|)]
  {
    var first := ReplacingSteps(m.s.base, y, id, text);
    ReplacingRuns(m, y, id, text);
    RunKeepsInv(m, first);
    Replaced(m.s, y, id, text);
    var m3 := Run(m, first);
    assert Spans(m3) == Spans(m);
    HandlesBoth(m3, y);
    RunAppend(m, first, [Fetch(2), HandleOne, HandleOne]);
  }
}
