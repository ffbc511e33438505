/** The daemon as a whole: the loop around select, the pipe its signal handler writes to, and
    what a reload does to the configuration, the watchers and the book of addresses.

    A signal may arrive between any two steps.  It is blocked except from just before the wait
    to just after it, and the kernel remembers at most one blocked signal. */
module Daemon {
  import opened Wrappers
  import opened Addresses
  import opened RateLimit
  import opened Lexer
  import LexerProofs
  import opened ConfFiles
  import opened Handover

  datatype Config = Config(policy: Policy, files: seq<Path>)

  datatype Phase =
    | Head                  // top of the inner loop, signal blocked
    | Waiting               // signal unblocked, select entered or about to be
    | Returned(ready: bool) // select has returned; ready if the pipe was readable
    | Working(ready: bool)  // signal blocked again
    | Drained               // the pipe has been read
    | Loading(data: string) // the configuration file is being read
    | Stopped               // an exception without a handler, or a read out of bounds

  /** `capacity` is how much the pipe holds.  The last four fields are history: signals so far,
      reloads so far, whether a signal has come since the last reload began, and whether one had
      when this turn of the loop began. */
  datatype Machine = Machine(
    phase: Phase, pending: bool, pipe: nat, capacity: nat,
    config: Config, watchers: seq<Path>, book: Book,
    arrivals: nat, reloads: nat, unserved: bool, owed: bool,
    trace: seq<Event>)

  datatype Step =
    | Hup
    | Unblock
    | Interrupt            // select fails with EINTR
    | Return
    | Block
    | Found(a: Addr, now: int, ok: bool)
    | EndTurn
    | BeginLoad(data: string)
    | FinishLoad

  const DRAIN := 4

  /** The signal handler: a write to a full pipe is dropped. */
  function Handler(s: Machine): Machine {
    if s.pipe < s.capacity then s.(pipe := s.pipe + 1) else s
  }

  /** The default configuration that a file starts from, and what a directive does. */
  datatype Language = Language(initial: Config, apply: Directive<Config>)

  function LoadText(l: Language, data: string): Loaded<Config> {
    Load(l.initial, FileLines(data), 0, l.apply)
  }

  /** The path that each slot watches after a handover. */
  function HandedOver(old_: seq<Path>, watchers: seq<Path>, new_: seq<Path>): seq<Path>
    requires |watchers| == |old_| && InBounds(Written, old_, |new_|)
  {
    var plan := PlanTo(Written, old_, new_, |new_|);
    seq(|new_|, i requires 0 <= i < |new_| =>
      if plan.source[i].Some? then watchers[plan.source[i].value] else new_[i])
  }

  function Install(s: Machine, loaded: Loaded<Config>): Machine {
    match loaded
    case Ready(config) =>
      if |s.watchers| == |s.config.files| && InBounds(Written, s.config.files, |config.files|) then
        s.(phase := Head,
           config := config,
           watchers := HandedOver(s.config.files, s.watchers, config.files),
           trace := s.trace + [Reload(config.policy)])
      else s.(phase := Stopped)
    case SyntaxError(_) => s.(phase := Head)
    case Uncaught(_) => s.(phase := Stopped)
  }

  predicate CanStep(s: Machine, step: Step) {
    match step
    case Hup => s.phase != Stopped
    case Unblock => s.phase == Head
    case Interrupt => s.phase == Waiting
    case Return => s.phase == Waiting
    case Block => s.phase.Returned?
    case Found(_, _, _) => s.phase.Working?
    case EndTurn => s.phase.Working?
    case BeginLoad(_) => s.phase == Drained
    case FinishLoad => s.phase.Loading?
  }

  function Next(l: Language, s: Machine, step: Step): Machine {
    match step
    case Hup =>
      var t := s.(arrivals := s.arrivals + 1, unserved := true);
      if s.phase == Waiting || s.phase.Returned? then Handler(t) else t.(pending := true)
    case Unblock =>
      var t := s.(phase := Waiting, pending := false, owed := s.unserved);
      if s.pending then Handler(t) else t
    case Interrupt => s.(phase := Head, owed := false)
    case Return => s.(phase := Returned(s.pipe > 0))
    case Block => if s.phase.Returned? then s.(phase := Working(s.phase.ready)) else s
    case Found(a, now, ok) =>
      s.(book := Detect(s.config.policy, s.book, a, now, ok).book, trace := s.trace + [Detection(a, now, ok)])
    case EndTurn =>
      if s.phase.Working? && s.phase.ready then
        s.(phase := Drained, pipe := if s.pipe < DRAIN then 0 else s.pipe - DRAIN)
      else s.(phase := Head)
    case BeginLoad(data) =>
      s.(phase := Loading(data), reloads := s.reloads + 1, unserved := false, owed := false)
    case FinishLoad =>
      if s.phase.Loading? then Install(s, LoadText(l, s.phase.data)) else s
  }

  function Run(l: Language, s: Machine, steps: seq<Step>): Machine
    decreases |steps|
  {
    if steps == [] then s else Run(l, Next(l, s, steps[0]), steps[1..])
  }

  predicate Possible(l: Language, s: Machine, steps: seq<Step>)
    decreases |steps|
  {
    steps == [] || (CanStep(s, steps[0]) && Possible(l, Next(l, s, steps[0]), steps[1..]))
  }

  function Begin(config: Config, capacity: nat): Machine {
    Machine(Head, false, 0, capacity, config, config.files, map[], 0, 0, false, false, [])
  }

  // ----- Invariants -----

  function Bit(b: bool): nat { if b then 1 else 0 }

  /** A signal that no reload has seen yet is on its way to one. */
  predicate NotLost(s: Machine) {
    match s.phase
    case Head => s.unserved ==> s.pending || s.pipe > 0
    case Waiting => !s.pending && (s.unserved ==> s.pipe > 0)
    case Returned(ready) => !s.pending && (s.unserved ==> s.pipe > 0) && (ready ==> s.pipe > 0)
    case Working(ready) => (s.unserved ==> s.pending || s.pipe > 0) && (ready ==> s.pipe > 0)
    case Loading(_) => s.unserved ==> s.pending
    case _ => true
  }

  /** What is owed at the beginning of a turn is not forgotten in its course. */
  predicate Owing(s: Machine) {
    s.owed ==>
      (s.phase == Waiting && s.pipe > 0) || s.phase == Returned(true) || s.phase == Working(true) || s.phase == Drained
  }

  predicate Accounted(s: Machine) {
    s.reloads + s.pipe + Bit(s.pending) + Bit(s.phase == Drained) <= s.arrivals
  }

  predicate Inv(initial: Config, s: Machine) {
    && s.capacity > 0
    && NotLost(s) && Owing(s) && Accounted(s)
    && |s.watchers| == |s.config.files|
    && RateLimit.State(s.config.policy, s.book) == After(initial.policy, s.trace)
  }

  lemma InstallKeepsInv(initial: Config, s: Machine, loaded: Loaded<Config>)
    requires Inv(initial, s) && s.phase.Loading?
    ensures Inv(initial, Install(s, loaded))
  {
    if loaded.Ready? {
      Snoc(initial.policy, s.trace, Reload(loaded.config.policy), V4Mapped((0, 0, 0, 0)));
    }
  }

  lemma StepKeepsSignals(l: Language, s: Machine, step: Step)
    requires s.capacity > 0 && NotLost(s) && Owing(s) && Accounted(s) && CanStep(s, step) && step != FinishLoad
    ensures NotLost(Next(l, s, step)) && Owing(Next(l, s, step)) && Accounted(Next(l, s, step))
  {
  }

  lemma StepKeepsBook(l: Language, initial: Config, s: Machine, step: Step)
    requires RateLimit.State(s.config.policy, s.book) == After(initial.policy, s.trace)
    requires CanStep(s, step) && step != FinishLoad
    ensures var t := Next(l, s, step);
      RateLimit.State(t.config.policy, t.book) == After(initial.policy, t.trace)
  {
    if step.Found? {
      Snoc(initial.policy, s.trace, Detection(step.a, step.now, step.ok), step.a);
    }
  }

  lemma StepKeepsInv(l: Language, initial: Config, s: Machine, step: Step)
    requires Inv(initial, s) && CanStep(s, step)
    ensures Inv(initial, Next(l, s, step))
  {
    if step == FinishLoad {
      InstallKeepsInv(initial, s, LoadText(l, s.phase.data));
    } else {
      StepKeepsSignals(l, s, step);
      StepKeepsBook(l, initial, s, step);
    }
  }

  lemma {:induction false} RunKeepsInv(l: Language, initial: Config, s: Machine, steps: seq<Step>)
    requires Inv(initial, s) && Possible(l, s, steps)
    ensures Inv(initial, Run(l, s, steps))
    decreases |steps|
  {
    if steps != [] {
      StepKeepsInv(l, initial, s, steps[0]);
      RunKeepsInv(l, initial, Next(l, s, steps[0]), steps[1..]);
    }
  }

  // ----- Signals -----

  /** In every run: at the head of the loop a signal that came after the last reload began is
      pending or in the pipe, even if the write for it was dropped; a wait begun with one
      cannot last, for the pipe is readable; a turn that began with one has reloaded by the
      time it is back at the head, unless it was interrupted; and reloads never outnumber
      signals. */
  lemma NoSignalLost(l: Language, config: Config, capacity: nat, steps: seq<Step>)
    requires capacity > 0 && Possible(l, Begin(config, capacity), steps)
    ensures var s := Run(l, Begin(config, capacity), steps);
      && (s.phase == Head && s.unserved ==> s.pending || s.pipe > 0)
      && (s.phase == Waiting && s.unserved ==> s.pipe > 0)
      && (s.phase == Head ==> !s.owed)
      && s.reloads <= s.arrivals
  {
    RunKeepsInv(l, config, Begin(config, capacity), steps);
  }

  lemma RunOne(l: Language, s: Machine, step: Step, steps: seq<Step>)
    ensures Run(l, s, [step] + steps) == Run(l, Next(l, s, step), steps)
    ensures Possible(l, s, [step] + steps) <==> CanStep(s, step) && Possible(l, Next(l, s, step), steps)
  {
    assert ([step] + steps)[1..] == steps;
  }

  /** Something is owed: it has been done since, is in hand, or will be in the next turn. */
  predicate ReloadDue(s: Machine, steps: seq<Step>, reloads: nat) {
    && reloads <= s.reloads
    && (reloads < s.reloads || s.owed || (s.phase == Head && s.unserved && Unblock in steps))
  }

  lemma StaysDue(l: Language, initial: Config, s: Machine, step: Step, steps: seq<Step>, reloads: nat)
    requires Inv(initial, s) && CanStep(s, step) && step != Interrupt && ReloadDue(s, [step] + steps, reloads)
    ensures ReloadDue(Next(l, s, step), steps, reloads)
  {
    assert Unblock in [step] + steps ==> step == Unblock || Unblock in steps;
  }

  lemma {:induction false} DueIsDone(l: Language, initial: Config, s: Machine, steps: seq<Step>, reloads: nat)
    requires Inv(initial, s) && Possible(l, s, steps) && Interrupt !in steps && ReloadDue(s, steps, reloads)
    requires Run(l, s, steps).phase == Head
    ensures reloads < Run(l, s, steps).reloads
    decreases |steps|
  {
    if steps != [] {
      assert steps == [steps[0]] + steps[1..];
      StaysDue(l, initial, s, steps[0], steps[1..], reloads);
      StepKeepsInv(l, initial, s, steps[0]);
      DueIsDone(l, initial, Next(l, s, steps[0]), steps[1..], reloads);
    }
  }

  /** Every turn serves it: whatever happens between the head of the loop and the next time
      there, be it signals at any point or detections, once the wait has been entered and if it
      is not interrupted, a reload has begun. */
  lemma EveryTurnReloads(l: Language, config: Config, capacity: nat, before: seq<Step>, turn: seq<Step>)
    requires capacity > 0 && Possible(l, Begin(config, capacity), before + turn)
    requires Run(l, Begin(config, capacity), before).phase == Head
    requires Run(l, Begin(config, capacity), before).unserved
    requires Unblock in turn && Interrupt !in turn
    requires Run(l, Begin(config, capacity), before + turn).phase == Head
    ensures Run(l, Begin(config, capacity), before).reloads < Run(l, Begin(config, capacity), before + turn).reloads
  {
    RunAppend(l, Begin(config, capacity), before, turn);
    RunKeepsInv(l, config, Begin(config, capacity), before);
    var s := Run(l, Begin(config, capacity), before);
    DueIsDone(l, config, s, turn, s.reloads);
  }

  lemma {:induction false} RunAppend(l: Language, s: Machine, a: seq<Step>, b: seq<Step>)
    ensures Run(l, s, a + b) == Run(l, Run(l, s, a), b)
    ensures Possible(l, s, a + b) <==> Possible(l, s, a) && Possible(l, Run(l, s, a), b)
    decreases |a|
  {
    if a == [] {
      assert a + b == b;
    } else {
      assert (a + b)[1..] == a[1..] + b;
      RunAppend(l, Next(l, s, a[0]), a[1..], b);
    }
  }

  function Hups(l: Language, s: Machine, n: nat): Machine
    decreases n
  {
    if n == 0 then s else Hups(l, Next(l, s, Hup), n - 1)
  }

  lemma OneHup(l: Language, initial: Config, s: Machine)
    requires Inv(initial, s) && s.phase == Waiting && s.unserved
    ensures s.pipe > 0
    ensures var t := Next(l, s, Hup);
      Inv(initial, t) && t.phase == Waiting && t.unserved && t.reloads == s.reloads
  {
    StepKeepsInv(l, initial, s, Hup);
  }

  lemma {:induction false} HupsThen(l: Language, initial: Config, s: Machine, n: nat, tail: seq<Step>)
    requires Inv(initial, s) && s.phase == Waiting && s.unserved
    ensures var u := Hups(l, s, n);
      && u.phase == Waiting && u.pipe > 0 && u.reloads == s.reloads
      && (Possible(l, s, seq(n, _ => Hup) + tail) <==> Possible(l, u, tail))
      && Run(l, s, seq(n, _ => Hup) + tail) == Run(l, u, tail)
    decreases n
  {
    OneHup(l, initial, s);
    if n == 0 {
      assert seq(n, _ => Hup) + tail == tail;
    } else {
      HupsThen(l, initial, Next(l, s, Hup), n - 1, tail);
      var rest := seq(n - 1, _ => Hup) + tail;
      RunOne(l, s, Hup, rest);
      assert seq(n, _ => Hup) + tail == [Hup] + rest;
    }
  }

  lemma RunTwo(l: Language, s: Machine, a: Step, b: Step, tail: seq<Step>)
    ensures Run(l, s, [a, b] + tail) == Run(l, Next(l, Next(l, s, a), b), tail)
    ensures Possible(l, s, [a, b] + tail) <==>
      CanStep(s, a) && CanStep(Next(l, s, a), b) && Possible(l, Next(l, Next(l, s, a), b), tail)
  {
    RunOne(l, Next(l, s, a), b, tail);
    RunOne(l, s, a, [b] + tail);
    assert [a] + ([b] + tail) == [a, b] + tail;
  }

  /** From the wait on, with something in the pipe. */
  lemma RestOfTurn(l: Language, s: Machine, data: string)
    requires s.phase == Waiting && s.pipe > 0
    ensures Possible(l, s, [Return, Block, EndTurn, BeginLoad(data)])
    ensures Run(l, s, [Return, Block, EndTurn, BeginLoad(data)]).reloads == s.reloads + 1
  {
    RunTwo(l, s, Return, Block, [EndTurn, BeginLoad(data)]);
    var t := Next(l, Next(l, s, Return), Block);
    RunTwo(l, t, EndTurn, BeginLoad(data), []);
    assert [EndTurn, BeginLoad(data)] + [] == [EndTurn, BeginLoad(data)];
    assert [Return, Block] + [EndTurn, BeginLoad(data)] == [Return, Block, EndTurn, BeginLoad(data)];
  }

  /** And there is such a turn, however many signals arrive during the wait. */
  lemma NextTurnReloads(l: Language, initial: Config, s: Machine, hups: nat, data: string)
    requires Inv(initial, s) && s.phase == Head && s.unserved
    ensures var steps := [Unblock] + seq(hups, _ => Hup) + [Return, Block, EndTurn, BeginLoad(data)];
      && Possible(l, s, steps)
      && Run(l, s, steps).reloads == s.reloads + 1
  {
    var t := Next(l, s, Unblock);
    assert Inv(initial, t) && t.phase == Waiting && t.unserved && t.reloads == s.reloads by {
      StepKeepsInv(l, initial, s, Unblock);
    }
    var many, tail := seq(hups, _ => Hup), [Return, Block, EndTurn, BeginLoad(data)];
    HupsThen(l, initial, t, hups, tail);
    RestOfTurn(l, Hups(l, t, hups), data);
    RunOne(l, s, Unblock, many + tail);
    assert [Unblock] + many + tail == [Unblock] + (many + tail);
  }

  /** An interrupted wait is given up, and the turn after it serves what it had. */
  lemma InterruptedThenServed(l: Language, initial: Config, s: Machine, hups: nat, data: string)
    requires Inv(initial, s) && s.phase == Waiting && s.unserved
    ensures var steps := [Interrupt] + ([Unblock] + seq(hups, _ => Hup) + [Return, Block, EndTurn, BeginLoad(data)]);
      && Possible(l, s, steps)
      && Run(l, s, steps).reloads == s.reloads + 1
  {
    StepKeepsInv(l, initial, s, Interrupt);
    NextTurnReloads(l, initial, Next(l, s, Interrupt), hups, data);
    RunOne(l, s, Interrupt, [Unblock] + seq(hups, _ => Hup) + [Return, Block, EndTurn, BeginLoad(data)]);
  }

  // ----- Many signals -----

  /** While the signal is not blocked, each arrival is written to the pipe until that is full;
      while it is, any number of them are remembered as one. */
  lemma {:induction false} SignalsAddUp(l: Language, s: Machine, n: nat)
    requires s.pipe <= s.capacity
    ensures var t := Hups(l, s, n);
      && t.arrivals == s.arrivals + n && t.phase == s.phase && t.capacity == s.capacity
      && (s.phase == Waiting || s.phase.Returned? ==>
            t.pipe == Min(s.capacity, s.pipe + n) && t.pending == s.pending)
      && (!(s.phase == Waiting || s.phase.Returned?) ==>
            t.pipe == s.pipe && (t.pending <==> s.pending || n > 0))
    decreases n
  {
    if n != 0 {
      SignalsAddUp(l, Next(l, s, Hup), n - 1);
    }
  }

  function Turn(data: string): seq<Step> {
    [Unblock, Return, Block, EndTurn] + [BeginLoad(data), FinishLoad]
  }

  function Turns(texts: seq<string>): seq<Step> {
    if texts == [] then [] else Turn(texts[0]) + Turns(texts[1..])
  }

  /** The first four steps of a turn that nothing disturbs. */
  lemma QuietTurn(l: Language, s: Machine, tail: seq<Step>)
    requires s.phase == Head && !s.pending
    ensures var t := s.(phase := if s.pipe > 0 then Drained else Head, owed := s.unserved,
                        pipe := if s.pipe < 4 then 0 else s.pipe - 4);
      && (Possible(l, s, [Unblock, Return, Block, EndTurn] + tail) <==> Possible(l, t, tail))
      && Run(l, s, [Unblock, Return, Block, EndTurn] + tail) == Run(l, t, tail)
  {
    var more := [Block, EndTurn] + tail;
    RunTwo(l, s, Unblock, Return, more);
    RunTwo(l, Next(l, Next(l, s, Unblock), Return), Block, EndTurn, tail);
    assert [Unblock, Return] + more == [Unblock, Return, Block, EndTurn] + tail;
  }

  lemma OneTurn(l: Language, s: Machine, data: string)
    requires s.phase == Head && !s.pending && s.pipe > 0
    ensures Possible(l, s, Turn(data))
    ensures var t := Run(l, s, Turn(data));
      && t.reloads == s.reloads + 1 && !t.pending && (t.phase == Head || t.phase == Stopped)
      && t.pipe == if s.pipe < 4 then 0 else s.pipe - 4
  {
    QuietTurn(l, s, [BeginLoad(data), FinishLoad]);
    var t := s.(phase := Drained, owed := s.unserved, pipe := if s.pipe < 4 then 0 else s.pipe - 4);
    RunTwo(l, t, BeginLoad(data), FinishLoad, []);
    assert [BeginLoad(data), FinishLoad] + [] == [BeginLoad(data), FinishLoad];
  }

  /** Signals that have come before a wait are served four at a time: if no more come, and the
      daemon survives the texts it reads, there are as many reloads as fours have been begun,
      and then none. */
  lemma {:induction false} FourAtATime(l: Language, s: Machine, texts: seq<string>)
    requires s.phase == Head && !s.pending && |texts| == (s.pipe + 3) / 4
    requires Possible(l, s, Turns(texts)) && Run(l, s, Turns(texts)).phase == Head
    ensures var t := Run(l, s, Turns(texts));
      && t.reloads == s.reloads + |texts| && t.pipe == 0 && !t.pending
      && Run(l, t, [Unblock, Return, Block, EndTurn]).phase == Head
      && Run(l, t, [Unblock, Return, Block, EndTurn]).reloads == t.reloads
    decreases |texts|
  {
    if texts == [] {
      QuietTurn(l, s, []);
      assert [Unblock, Return, Block, EndTurn] + [] == [Unblock, Return, Block, EndTurn];
    } else {
      OneTurn(l, s, texts[0]);
      RunAppend(l, s, Turn(texts[0]), Turns(texts[1..]));
      var next := Run(l, s, Turn(texts[0]));
      if next.phase == Stopped {
        StaysStopped(l, next, Turns(texts[1..]));
      }
      FourAtATime(l, next, texts[1..]);
    }
  }

  lemma StaysStopped(l: Language, s: Machine, steps: seq<Step>)
    requires s.phase == Stopped && Possible(l, s, steps)
    ensures steps == []
  {
  }

  // ----- Reloads -----

  /** A configuration that the daemon does not survive reading: some line ends in the middle of
      an escape, and no line before it is in error. */
  ghost predicate Fatal(l: Language, ls: seq<string>) {
    exists k :: 0 <= k < |ls| && LexerProofs.EndsInEscape(ls[k]) && Sound(l.initial, ls, k, l.apply).Applied?
  }

  /** The configuration that a text comes to, if every line of it is in order. */
  function Read(l: Language, data: string): Effect<Config> {
    Sound(l.initial, FileLines(data), |FileLines(data)|, l.apply)
  }

  /** `t` is what a reload makes of `s` when the lines of its text come to `r`. */
  ghost predicate TakesEffect(s: Machine, r: Effect<Config>, fatal: bool, t: Machine)
    requires |s.watchers| == |s.config.files|
  {
    match r
    case Applied(c) =>
      if InBounds(Written, s.config.files, |c.files|) then
        t == s.(phase := Head, config := c, watchers := HandedOver(s.config.files, s.watchers, c.files),
                trace := s.trace + [Reload(c.policy)])
      else t == s.(phase := Stopped)
    case Fault => t == s.(phase := if fatal then Stopped else Head)
  }

  /** A reload takes effect exactly if every line of the text is in order and there are no more
      paths to watch than there were, if there were any: then the configuration is that of the
      text, the watchers are handed over, and the book stays.  Otherwise nothing of this
      changes.  The daemon stops exactly for a fatal text, or one with too many paths. */
  lemma ReloadOutcome(l: Language, initial: Config, s: Machine)
    requires Inv(initial, s) && s.phase.Loading?
    ensures var loaded := LoadText(l, s.phase.data); var t := Next(l, s, FinishLoad);
      && (loaded.SyntaxError? ==> t == s.(phase := Head))
      && (loaded.Ready? && t.phase == Head ==> t.config == loaded.config && t.book == s.book)
      && (t.phase == Stopped <==>
            Fatal(l, FileLines(s.phase.data))
            || (loaded.Ready? && !InBounds(Written, s.config.files, |loaded.config.files|)))
    ensures TakesEffect(s, Read(l, s.phase.data), Fatal(l, FileLines(s.phase.data)), Next(l, s, FinishLoad))
  {
    var text, t := s.phase.data, Next(l, s, FinishLoad);
    var loaded := LoadText(l, text);
    assert t == Install(s, loaded) && |s.watchers| == |s.config.files|;
    assert loaded.Uncaught? <==> Fatal(l, FileLines(text)) by { FatalIff(l, text); }
    InstallOutcome(s, loaded);
    assert TakesEffect(s, Read(l, text), Fatal(l, FileLines(text)), t) by {
      ReadDecides(l, text);
      InstallTakesEffect(s, loaded, Read(l, text), Fatal(l, FileLines(text)));
    }
  }

  lemma InstallTakesEffect(s: Machine, loaded: Loaded<Config>, r: Effect<Config>, fatal: bool)
    requires |s.watchers| == |s.config.files|
    requires match r
      case Applied(c) => loaded == Ready(c)
      case Fault => if fatal then loaded.Uncaught? else loaded.SyntaxError?
    ensures TakesEffect(s, r, fatal, Install(s, loaded))
  {
  }

  lemma ReadDecides(l: Language, data: string)
    ensures match Read(l, data)
      case Applied(c) => LoadText(l, data) == Ready(c)
      case Fault => if Fatal(l, FileLines(data)) then LoadText(l, data).Uncaught? else LoadText(l, data).SyntaxError?
  {
    FatalIff(l, data);
    match Read(l, data)
    case Applied(c) => LoadIs(Ready(c), l.initial, FileLines(data), 0, l.apply);
    case Fault => LoadExplains(l.initial, FileLines(data), 0, l.apply);
  }

  lemma FatalIff(l: Language, data: string)
    ensures LoadText(l, data).Uncaught? <==> Fatal(l, FileLines(data))
  {
    UncaughtIff(l.initial, FileLines(data), 0, l.apply);
  }

  lemma InstallOutcome(s: Machine, loaded: Loaded<Config>)
    requires |s.watchers| == |s.config.files|
    ensures var t := Install(s, loaded);
      && (loaded.SyntaxError? ==> t == s.(phase := Head))
      && (loaded.Ready? && t.phase == Head && s.phase != Head ==> t.config == loaded.config && t.book == s.book)
      && (t.phase == Stopped <==>
            loaded.Uncaught? || (loaded.Ready? && !InBounds(Written, s.config.files, |loaded.config.files|)))
  {
  }

  /** What each slot watches after a reload: if its number kept its path, what the next of the
      old slots watched, counting one for each number that kept its path; else its path. */
  lemma SlotsAfterReload(old_: seq<Path>, watchers: seq<Path>, new_: seq<Path>, i: nat)
    requires |watchers| == |old_| && |new_| <= |old_| && i < |new_|
    ensures HandedOver(old_, watchers, new_)[i]
      == if new_[i] == old_[i] then watchers[SameBefore(old_, new_, i)] else new_[i]
  {
    WrittenPlan(old_, new_, |new_|);
  }

  /** Each watcher watches the path of its slot after a reload exactly if the watchers dealt
      out to the numbers that kept their paths watched those paths, whatever earlier reloads
      had done to them.  If none was wrong before, that is if the paths keep their order. */
  lemma ReloadWatchesIff(s: Machine, config: Config)
    requires |s.watchers| == |s.config.files| && s.config.files != [] && |config.files| <= |s.config.files|
    ensures var old_, new_, after := s.config.files, config.files, Install(s, Ready(config)).watchers;
      && (after == new_ <==>
            forall i :: 0 <= i < |new_| && new_[i] == old_[i] ==> s.watchers[SameBefore(old_, new_, i)] == new_[i])
      && (s.watchers == old_ ==> (after == new_ <==> KeepsOrder(old_, new_)))
  {
    var old_, new_ := s.config.files, config.files;
    var after := HandedOver(old_, s.watchers, new_);
    forall i | 0 <= i < |new_|
      ensures after[i] == if new_[i] == old_[i] then s.watchers[SameBefore(old_, new_, i)] else new_[i]
    {
      SlotsAfterReload(old_, s.watchers, new_, i);
    }
  }

  /** With no paths before, all watchers are new. */
  lemma FirstReloadIsRight(new_: seq<Path>)
    ensures HandedOver([], [], new_) == new_
  {
    NothingToReuse(new_, |new_|);
  }

  /** A reload that changes no path, or removes some from the end, changes no other slot: one
      that watches a wrong path goes on watching it. */
  lemma WrongStaysWrong(old_: seq<Path>, watchers: seq<Path>, new_: seq<Path>)
    requires |watchers| == |old_| && new_ <= old_
    ensures HandedOver(old_, watchers, new_) == watchers[..|new_|]
  {
    PrefixIsRight(old_, new_);
  }

  /** The watched paths after a history of configurations, the first one first. */
  function Watched(history: seq<seq<Path>>): (r: Option<seq<Path>>)
    ensures r.Some? ==> history != [] && |r.value| == |history[|history| - 1]|
  {
    if history == [] then None
    else
      var n := |history| - 1;
      if n == 0 then Some(history[0])
      else
        var before := Watched(history[..n]);
        if before.Some? && InBounds(Written, history[n - 1], |history[n]|)
        then Some(HandedOver(history[n - 1], before.value, history[n])) else None
  }

  /** Up to configuration `n`, every reload kept the daemon going and every slot right. */
  predicate RightUpTo(history: seq<seq<Path>>, n: nat)
    requires n < |history|
  {
    forall k :: 0 <= k <= n ==> Watched(history[..k + 1]) == Some(history[k])
  }

  predicate ReloadWorks(old_: seq<Path>, new_: seq<Path>) {
    old_ == [] || (|new_| <= |old_| && KeepsOrder(old_, new_))
  }

  lemma RightAfterOne(old_: seq<Path>, new_: seq<Path>)
    ensures InBounds(Written, old_, |new_|) && HandedOver(old_, old_, new_) == new_ <==> ReloadWorks(old_, new_)
  {
    if old_ == [] {
      FirstReloadIsRight(new_);
    } else if |new_| <= |old_| {
      forall i | 0 <= i < |new_|
        ensures HandedOver(old_, old_, new_)[i] == if new_[i] == old_[i] then old_[SameBefore(old_, new_, i)] else new_[i]
      {
        SlotsAfterReload(old_, old_, new_, i);
      }
    }
  }

  lemma WatchedSnoc(history: seq<seq<Path>>, n: nat)
    requires 0 < n < |history| && Watched(history[..n]) == Some(history[n - 1])
    ensures Watched(history[..n + 1]) == Some(history[n]) <==> ReloadWorks(history[n - 1], history[n])
  {
    assert history[..n + 1][..n] == history[..n];
    RightAfterOne(history[n - 1], history[n]);
  }

  predicate AllWork(history: seq<seq<Path>>, n: nat)
    requires n < |history|
  {
    forall k :: 0 < k <= n ==> ReloadWorks(history[k - 1], history[k])
  }

  lemma RightUpToSnoc(history: seq<seq<Path>>, n: nat)
    requires 0 < n < |history|
    ensures RightUpTo(history, n) <==> RightUpTo(history, n - 1) && Watched(history[..n + 1]) == Some(history[n])
    ensures RightUpTo(history, n - 1) ==> Watched(history[..n]) == Some(history[n - 1])
    ensures AllWork(history, n) <==> AllWork(history, n - 1) && ReloadWorks(history[n - 1], history[n])
  {
    assert RightUpTo(history, n - 1) ==> Watched(history[..n - 1 + 1]) == Some(history[n - 1]);
  }

  /** Over any sequence of reloads every slot watches its own path throughout exactly if each
      reload keeps the order of paths: there were none before, or there are no more than
      before and those that keep their number keep their order. */
  lemma {:induction false} RightThroughoutIff(history: seq<seq<Path>>, n: nat)
    requires n < |history|
    ensures RightUpTo(history, n) <==> AllWork(history, n)
  {
    if n == 0 {
      assert history[..1] == [history[0]];
    } else {
      RightThroughoutIff(history, n - 1);
      RightUpToSnoc(history, n);
      if RightUpTo(history, n - 1) {
        WatchedSnoc(history, n);
      }
    }
  }

  // ----- Detections and reloads -----

  /** The detections among events, and those among steps. */
  function DetectionsOf(es: seq<Event>): seq<Event> {
    if es == [] then []
    else
      var n := |es| - 1;
      DetectionsOf(es[..n]) + if es[n].Detection? then [es[n]] else []
  }

  function FoundBy(steps: seq<Step>): seq<Event> {
    if steps == [] then []
    else (if steps[0].Found? then [Detection(steps[0].a, steps[0].now, steps[0].ok)] else []) + FoundBy(steps[1..])
  }

  lemma DetectionsSnoc(es: seq<Event>, e: Event)
    ensures DetectionsOf(es + [e]) == DetectionsOf(es) + if e.Detection? then [e] else []
  {
    assert (es + [e])[..|es|] == es;
  }

  lemma InstallTraces(s: Machine, loaded: Loaded<Config>)
    ensures DetectionsOf(Install(s, loaded).trace) == DetectionsOf(s.trace)
  {
    if loaded.Ready? {
      DetectionsSnoc(s.trace, Reload(loaded.config.policy));
    }
  }

  lemma StepTraces(l: Language, s: Machine, step: Step)
    requires CanStep(s, step)
    ensures DetectionsOf(Next(l, s, step).trace) == DetectionsOf(s.trace) + FoundBy([step])
  {
    assert [step][1..] == [];
    if step.Found? {
      DetectionsSnoc(s.trace, Detection(step.a, step.now, step.ok));
    } else if step == FinishLoad {
      InstallTraces(s, LoadText(l, s.phase.data));
    }
  }

  lemma {:induction false} RunTraces(l: Language, s: Machine, steps: seq<Step>)
    requires Possible(l, s, steps)
    ensures DetectionsOf(Run(l, s, steps).trace) == DetectionsOf(s.trace) + FoundBy(steps)
    decreases |steps|
  {
    if steps != [] {
      var next := Next(l, s, steps[0]);
      StepTraces(l, s, steps[0]);
      RunTraces(l, next, steps[1..]);
      assert FoundBy(steps) == FoundBy([steps[0]]) + FoundBy(steps[1..]) by {
        assert [steps[0]][1..] == [];
      }
    }
  }

  /** Every detection that any watcher makes gets to the book, in order, and no others do. */
  lemma DaemonDetectsAll(l: Language, config: Config, capacity: nat, steps: seq<Step>)
    requires capacity > 0 && Possible(l, Begin(config, capacity), steps)
    ensures var s := Run(l, Begin(config, capacity), steps);
      && DetectionsOf(s.trace) == FoundBy(steps)
      && RateLimit.State(s.config.policy, s.book) == After(config.policy, s.trace)
  {
    RunTraces(l, Begin(config, capacity), steps);
    RunKeepsInv(l, config, Begin(config, capacity), steps);
  }

  // ----- Addresses -----

  /** Over the life of the daemon, through every reload: an address is blocked in its book
      exactly if an attempt on it has succeeded, which happens once at most, and no attempt is
      made afterwards. */
  lemma DaemonBlocksOnce(l: Language, config: Config, capacity: nat, steps: seq<Step>, a: Addr)
    requires capacity > 0 && Possible(l, Begin(config, capacity), steps)
    ensures var s := Run(l, Begin(config, capacity), steps);
      && s.config.policy == After(config.policy, s.trace).policy
      && (Data(s.book, a).blocked <==>
            exists i :: 0 <= i < |s.trace| && SuccessAt(config.policy, s.trace, i) && s.trace[i].a == a)
      && BlockedForGood(config.policy, s.trace)
  {
    RunKeepsInv(l, config, Begin(config, capacity), steps);
    var s := Run(l, Begin(config, capacity), steps);
    BlockedIffSucceeded(config.policy, s.trace, a);
    EveryBlockIsForGood(config.policy, s.trace);
  }
}
