/** The inotify log follower as a function of the state it shares with the kernel, and the
    machine made of that follower and everything other processes may do between its steps.

    One event is handled at a time, atomically; any number of file operations may come
    between two events, and the follower looks at the file system as it is when it handles
    an event, not as it was when the event was queued. */
module Inotify {
  import opened Wrappers
  import opened FileSystem
  import opened Following

  // ----- Events -----

  datatype Kind = Created | Deleted | MovedFrom | MovedTo

  datatype Event =
    | Modify(wd: int)
    | Self(wd: int)               // IN_MOVE_SELF or IN_DELETE_SELF
    | Ignored(wd: int)            // the kernel's answer to removing a watch
    | Dir(kind: Kind, name: Name) // on the directory's own watch descriptor

  /** A queued event.  `sizes` is a history variable: how long every file was when the event
      was queued.  The follower never looks at it. */
  datatype Entry = Entry(ev: Event, sizes: map<File, nat>)

  /** IN_DELETE_SELF comes before the directory's event, after it, or not at all. */
  datatype Notice = Silent | Early | Late

  // ----- State -----

  datatype Sys = Sys(
    fs: Fs,
    marks: map<File, int>, // the kernel's watches on files
    nextWd: int,
    queue: seq<Entry>,
    base: Name,
    wd: int,               // file_wd, -1 for none
    f: Follow)

  const DIR_WD := 1

  // ----- The kernel -----

  function Sizes(fs: Fs): map<File, nat> {
    map x | x in fs.data :: |fs.data[x]|
  }

  /** An event equal to the last unread one is dropped. */
  function Enqueue(q: seq<Entry>, e: Entry): seq<Entry> {
    if q != [] && q[|q| - 1].ev == e.ev then q else q + [e]
  }

  function EnqueueAll(q: seq<Entry>, evs: seq<Event>, sizes: map<File, nat>): seq<Entry>
    decreases |evs|
  {
    if evs == [] then q else EnqueueAll(Enqueue(q, Entry(evs[0], sizes)), evs[1..], sizes)
  }

  function AddWatch(s: Sys, x: File): Sys {
    if x in s.marks then s.(wd := s.marks[x])
    else s.(marks := s.marks[x := s.nextWd], nextWd := s.nextWd + 1, wd := s.nextWd)
  }

  function RmWatch(s: Sys): Sys {
    s.(marks := map x | x in s.marks && s.marks[x] != s.wd :: s.marks[x],
       queue := Enqueue(s.queue, Entry(Ignored(s.wd), Sizes(s.fs))),
       wd := -1)
  }

  /** IN_MOVE_SELF or IN_DELETE_SELF of a file, if it is watched. */
  function SelfOf(s: Sys, fs: Fs, name: Name): seq<Event> {
    if name in fs.dir && fs.dir[name] in s.marks then [Self(s.marks[fs.dir[name]])] else []
  }

  /** `dirs`, with the notice for a file that loses its link to `name` placed around it. */
  function Around(s: Sys, notice: Notice, name: Name, dirs: seq<Event>): seq<Event> {
    match notice
    case Silent => dirs
    case Early => SelfOf(s, s.fs, name) + dirs
    case Late => dirs + SelfOf(s, s.fs, name)
  }

  /** The events an operation causes.  A rename tells the two directory entries and then the
      file itself. */
  function Events(s: Sys, op: Op, notice: Notice): seq<Event> {
    match op
    case Create(name, _, _) => [Dir(Created, name)]
    case Append(file, _) => if file in s.marks then [Modify(s.marks[file])] else []
    case Unlink(name) => Around(s, notice, name, [Dir(Deleted, name)])
    case Rename(src, dst) =>
      Around(s, notice, dst, [Dir(MovedFrom, src), Dir(MovedTo, dst)] + SelfOf(s, s.fs, src))
    case MoveOut(name) => [Dir(MovedFrom, name)] + SelfOf(s, s.fs, name)
    case MoveIn(file, name) =>
      Around(s, notice, name, [Dir(MovedTo, name)] + if file in s.marks then [Self(s.marks[file])] else [])
  }

  /** Another process performs `op`. */
  function Environment(s: Sys, op: Op, notice: Notice): Sys {
    var fs := Apply(s.fs, op);
    s.(fs := fs, queue := EnqueueAll(s.queue, Events(s, op, notice), Sizes(fs)))
  }

  // ----- The follower -----

  function Contents(s: Sys): string {
    if s.f.fp.Some? && s.f.fp.value in s.fs.data then s.fs.data[s.f.fp.value] else ""
  }

  function Unread(s: Sys): string {
    Rest(s.f, Contents(s))
  }

  function ReadLines(s: Sys): Sys {
    s.(f := ReadOn(s.f, Contents(s)))
  }

  function OpenFile(s: Sys): Sys {
    if s.f.fp.Some? || s.base !in s.fs.dir then s
    else AddWatch(s.(f := s.f.(fp := Some(s.fs.dir[s.base]), pos := 0)), s.fs.dir[s.base])
  }

  function CloseFile(s: Sys): Sys {
    if s.f.fp.None? then s else
    var t := s.(f := Flush(s.f));
    var u := if t.wd >= 0 then RmWatch(t) else t;
    u.(f := u.f.(fp := None, pos := 0))
  }

  predicate IsDirEvent(ev: Event, base: Name) {
    ev.Dir? && ev.name == base
  }

  function HandleFileEvent(s: Sys, ev: Event): Sys {
    if !ev.Dir? && ev.wd == s.wd then
      var t := if s.f.fp.Some? then ReadLines(s) else s;
      if ev.Self? then CloseFile(t) else t
    else s
  }

  function HandleDirEvent(s: Sys, ev: Event): Sys {
    if IsDirEvent(ev, s.base) then
      var t := OpenFile(CloseFile(s));
      if t.f.fp.Some? then ReadLines(t) else t
    else s
  }

  /** One turn of the loop in `work`. */
  function Handle(s: Sys, ev: Event): Sys {
    HandleDirEvent(HandleFileEvent(s, ev), ev)
  }

  /** A whole buffer of events, with nothing happening in between. */
  function HandleAll(s: Sys, batch: seq<Entry>): Sys
    decreases |batch|
  {
    if batch == [] then s else HandleAll(Handle(s, batch[0].ev), batch[1..])
  }

  /** Opening for the first time: the present contents are not log lines to act on. */
  function Start(fs: Fs, base: Name): Sys {
    var s := OpenFile(Sys(fs, map[], DIR_WD + 1, [], base, -1, IDLE));
    s.(f := s.f.(pos := |Contents(s)|))
  }

  // ----- The machine: the follower among other processes -----

  datatype Machine = Machine(
    s: Sys,
    batch: seq<Entry>,    // events read from the descriptor but not handled yet
    start: nat,           // where reading of the open file began
    closed: seq<Session<Entry>>)

  datatype Step =
    | Other(op: Op, notice: Notice)
    | Fetch(n: nat)       // read(2) on the inotify descriptor
    | HandleOne

  function Pending(m: Machine): seq<Entry> { m.batch + m.s.queue }

  predicate Closes(s: Sys, ev: Event) {
    s.f.fp.Some? && (ev == Self(s.wd) || IsDirEvent(ev, s.base))
  }

  /** The session that handling `e` ends: after a last read if the file itself was the
      subject, where reading had got to if it was the directory. */
  function Ended(m: Machine, e: Entry): Session<Entry>
    requires m.s.f.fp.Some?
  {
    var len := |Contents(m.s)|;
    Session(m.s.f.fp.value, m.start, if e.ev.Self? then len else m.s.f.pos, len, e)
  }

  ghost predicate CanStep(m: Machine, step: Step) {
    match step
    case Other(op, _) => Enabled(m.s.fs, if m.s.f.fp.Some? then {m.s.f.fp.value} else {}, op)
    case Fetch(n) => m.batch == [] && 0 < n <= |m.s.queue|
    case HandleOne => m.batch != []
  }

  function Next(m: Machine, step: Step): Machine {
    match step
    case Other(op, notice) => m.(s := Environment(m.s, op, notice))
    case Fetch(n) =>
      if n <= |m.s.queue| then m.(s := m.s.(queue := m.s.queue[n..]), batch := m.batch + m.s.queue[..n]) else m
    case HandleOne =>
      if m.batch == [] then m else
      var e := m.batch[0];
      var closes := Closes(m.s, e.ev);
      Machine(
        Handle(m.s, e.ev),
        m.batch[1..],
        if closes then 0 else m.start,
        if closes then m.closed + [Ended(m, e)] else m.closed)
  }

  /** The state a schedule of steps leads to; a schedule is any interleaving at all. */
  function Run(m: Machine, steps: seq<Step>): Machine
    decreases |steps|
  {
    if steps == [] then m else Run(Next(m, steps[0]), steps[1..])
  }

  ghost predicate Possible(m: Machine, steps: seq<Step>)
    decreases |steps|
  {
    steps == [] || (CanStep(m, steps[0]) && Possible(Next(m, steps[0]), steps[1..]))
  }

  function Begin(fs: Fs, base: Name): Machine {
    var s := Start(fs, base);
    Machine(s, [], s.f.pos, [])
  }
}
