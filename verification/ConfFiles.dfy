/** The configuration file: reading its lines, cutting them into tokens, and how errors leave
    the parser. */
module ConfFiles {
  import opened Lexer
  import opened LexerProofs

  // ----- Lines -----

  /** Where the first line of `data` ends. */
  function LineEnd(data: string): (n: nat)
    ensures n <= |data| && '\n' !in data[..n] && (n < |data| ==> data[n] == '\n')
  {
    if data == "" || data[0] == '\n' then 0 else 1 + LineEnd(data[1..])
  }

  /** What is left after the first line and its newline. */
  function AfterLine(data: string): (rest: string)
    ensures data != "" ==> |rest| < |data|
  {
    var n := LineEnd(data);
    if n < |data| then data[n + 1..] else ""
  }

  function FileLines(data: string): seq<string>
    decreases |data|
  {
    if data == "" then [] else [data[..LineEnd(data)]] + FileLines(AfterLine(data))
  }

  function Unlines(ls: seq<string>): string {
    if ls == [] then "" else ls[0] + "\n" + Unlines(ls[1..])
  }

  lemma CutAt(data: string, n: nat)
    requires n < |data|
    ensures data == data[..n] + [data[n]] + data[n + 1..]
  {
  }

  lemma FirstLine(data: string)
    requires data != ""
    ensures var n := LineEnd(data);
      if n < |data| then data == data[..n] + "\n" + AfterLine(data)
      else data == data[..n] && AfterLine(data) == "" && data[|data| - 1] != '\n'
  {
    var n := LineEnd(data);
    if n < |data| {
      CutAt(data, n);
    } else {
      assert data[|data| - 1] == data[..n][|data| - 1];
      assert data[..n] == data;
    }
  }

  /** `data` with a newline at its end, if there is anything to end. */
  function Terminated(data: string): string {
    if data == "" || data[|data| - 1] == '\n' then data else data + "\n"
  }

  lemma TerminatedAfter(l: string, rest: string)
    ensures Terminated(l + "\n" + rest) == l + "\n" + Terminated(rest)
  {
    var data := l + "\n" + rest;
    if rest != "" {
      assert data[|data| - 1] == rest[|rest| - 1];
    }
    assert data + "\n" == l + "\n" + (rest + "\n");
  }

  lemma UnlinesFirst(l: string, ls: seq<string>)
    ensures Unlines([l] + ls) == l + "\n" + Unlines(ls)
  {
    assert ([l] + ls)[1..] == ls;
  }

  /** Nothing is lost but a missing newline at the end of the file. */
  lemma {:induction false} UnlinesOfFile(data: string)
    ensures Unlines(FileLines(data)) == Terminated(data)
    decreases |data|
  {
    if data != "" {
      FirstLine(data);
      var l, rest := data[..LineEnd(data)], AfterLine(data);
      UnlinesOfFile(rest);
      UnlinesFirst(l, FileLines(rest));
      TerminatedAfter(l, rest);
    }
  }

  lemma {:induction false} LineEndOf(l: string, t: string)
    requires '\n' !in l && (t == "" || t[0] == '\n')
    ensures LineEnd(l + t) == |l|
    decreases |l|
  {
    if l == "" {
      assert l + t == t;
    } else {
      assert (l + t)[1..] == l[1..] + t;
      LineEndOf(l[1..], t);
    }
  }

  lemma {:induction false} LinesOfUnlines(ls: seq<string>)
    requires forall i :: 0 <= i < |ls| ==> '\n' !in ls[i]
    ensures FileLines(Unlines(ls)) == ls
  {
    if ls != [] {
      var more := Unlines(ls[1..]);
      LineEndOf(ls[0], "\n" + more);
      assert Unlines(ls) == ls[0] + ("\n" + more);
      assert Unlines(ls)[..|ls[0]|] == ls[0];
      assert Unlines(ls)[|ls[0]| + 1..] == more;
      LinesOfUnlines(ls[1..]);
    }
  }

  // ----- Writing a configuration file -----

  function Spelt(directive: seq<string>): seq<Spelling> {
    if directive == [] then [] else [Double(QuotedPieces(directive[0]))] + Spelt(directive[1..])
  }

  function WrittenFile(directives: seq<seq<string>>): seq<string> {
    if directives == [] then [] else [WrittenLine(Spelt(directives[0]))] + WrittenFile(directives[1..])
  }

  lemma {:induction false} SpeltReads(directive: seq<string>)
    ensures Split(WrittenLine(Spelt(directive))) == Tokens(directive)
    ensures '\n' !in WrittenLine(Spelt(directive))
  {
    var ws := Spelt(directive);
    if directive != [] {
      assert ws[1..] == Spelt(directive[1..]);
      SpeltReads(directive[1..]);
      QuotedFits(directive[0]);
      SpellingReads(ws[0]);
      SplitComposes(Written(ws[0]), WrittenLine(ws[1..]));
      assert directive == [directive[0]] + directive[1..];
    }
  }

  lemma {:induction false} WrittenFileReads(directives: seq<seq<string>>)
    ensures |WrittenFile(directives)| == |directives|
    ensures forall i :: 0 <= i < |directives| ==>
      Split(WrittenFile(directives)[i]) == Tokens(directives[i]) && '\n' !in WrittenFile(directives)[i]
  {
    if directives != [] {
      SpeltReads(directives[0]);
      WrittenFileReads(directives[1..]);
    }
  }

  /** Any lists of any strings can be written as a configuration file, one list a line, and
      are read back as they were. */
  lemma ConfigRoundTrip(directives: seq<seq<string>>)
    ensures var ls := FileLines(Unlines(WrittenFile(directives)));
      |ls| == |directives| && forall i :: 0 <= i < |ls| ==> Split(ls[i]) == Tokens(directives[i])
  {
    WrittenFileReads(directives);
    LinesOfUnlines(WrittenFile(directives));
  }

  // ----- Errors -----

  /** `Uncaught` is an exception that neither the parser nor main has a handler for. */
  datatype Loaded<C> = Ready(config: C) | SyntaxError(lineno: nat) | Uncaught(lineno: nat)

  /** What a directive does to the configuration, or `Fault` if it is in error. */
  datatype Effect<C> = Applied(config: C) | Fault

  type Directive<!C> = (C, seq<string>) -> Effect<C>

  function LoadLine<C>(config: C, line: string, apply: Directive<C>): Effect<C> {
    match Split(line)
    case Tokens(bits) => if bits == [] then Applied(config) else apply(config, bits)
    case Rejected(_) => Fault
  }

  /** Line `lineno + 1` is the first of `ls`. */
  function Load<C>(config: C, ls: seq<string>, lineno: nat, apply: Directive<C>): Loaded<C>
    decreases |ls|
  {
    if ls == [] then Ready(config)
    else match LoadLine(config, ls[0], apply)
      case Applied(next) => Load(next, ls[1..], lineno + 1, apply)
      case Fault =>
        if Split(ls[0]) == Rejected(OutOfRange) then Uncaught(lineno + 1) else SyntaxError(lineno + 1)
  }

  /** The configuration after the first `n` lines, if all of them are in order. */
  function Sound<C>(config: C, ls: seq<string>, n: nat, apply: Directive<C>): Effect<C>
    requires n <= |ls|
  {
    if n == 0 then Applied(config)
    else match Sound(config, ls, n - 1, apply)
      case Applied(c) => LoadLine(c, ls[n - 1], apply)
      case Fault => Fault
  }

  lemma {:induction false} SoundFromSecond<C>(config: C, ls: seq<string>, n: nat, apply: Directive<C>)
    requires 0 < n <= |ls|
    ensures Sound(config, ls, n, apply) ==
      match LoadLine(config, ls[0], apply) { case Applied(c) => Sound(c, ls[1..], n - 1, apply) case Fault => Fault }
  {
    if n == 1 {
      assert Sound(config, ls, 0, apply) == Applied(config);
    } else {
      SoundFromSecond(config, ls, n - 1, apply);
    }
  }

  /** A file stops the daemon exactly when some line ends in the middle of an escape and no
      line before it is in error; the documentation promises that the old configuration
      would be kept. */
  lemma {:induction false} UncaughtIff<C>(config: C, ls: seq<string>, lineno: nat, apply: Directive<C>)
    ensures Load(config, ls, lineno, apply).Uncaught? <==>
      exists k :: 0 <= k < |ls| && EndsInEscape(ls[k]) && Sound(config, ls, k, apply).Applied?
    decreases |ls|
  {
    if ls != [] {
      OutOfRangeIff(ls[0]);
      var first := LoadLine(config, ls[0], apply);
      forall k | 0 < k < |ls|
        ensures Sound(config, ls, k, apply) ==
          match first { case Applied(c) => Sound(c, ls[1..], k - 1, apply) case Fault => Fault }
        ensures ls[k] == ls[1..][k - 1]
      {
        SoundFromSecond(config, ls, k, apply);
      }
      if first.Applied? {
        UncaughtIff(first.config, ls[1..], lineno + 1, apply);
        UncaughtShift(config, first.config, ls, apply);
      } else if EndsInEscape(ls[0]) {
        assert Sound(config, ls, 0, apply).Applied?;
      }
    }
  }

  lemma UncaughtShift<C>(config: C, next: C, ls: seq<string>, apply: Directive<C>)
    requires ls != [] && !EndsInEscape(ls[0])
    requires forall k :: 0 < k < |ls| ==>
      Sound(config, ls, k, apply) == Sound(next, ls[1..], k - 1, apply) && ls[k] == ls[1..][k - 1]
    ensures (exists k :: 0 <= k < |ls| && EndsInEscape(ls[k]) && Sound(config, ls, k, apply).Applied?)
      <==> (exists k :: 0 <= k < |ls| - 1 && EndsInEscape(ls[1..][k]) && Sound(next, ls[1..], k, apply).Applied?)
  {
    if k :| 0 <= k < |ls| && EndsInEscape(ls[k]) && Sound(config, ls, k, apply).Applied? {
      assert EndsInEscape(ls[1..][k - 1]) && Sound(next, ls[1..], k - 1, apply).Applied?;
    }
    if k :| 0 <= k < |ls| - 1 && EndsInEscape(ls[1..][k]) && Sound(next, ls[1..], k, apply).Applied? {
      assert EndsInEscape(ls[k + 1]) && Sound(config, ls, k + 1, apply).Applied?;
    }
  }

  /** The first line that is in error is `ls[k]`. */
  ghost predicate FirstFault<C>(config: C, ls: seq<string>, k: nat, apply: Directive<C>) {
    k < |ls| && Sound(config, ls, k, apply).Applied? && Sound(config, ls, k + 1, apply).Fault?
  }

  lemma {:induction false} SoundBefore<C>(config: C, ls: seq<string>, i: nat, j: nat, apply: Directive<C>)
    requires i <= j <= |ls| && Sound(config, ls, j, apply).Applied?
    ensures Sound(config, ls, i, apply).Applied?
  {
    if i < j {
      SoundBefore(config, ls, i, j - 1, apply);
    }
  }

  lemma FirstFaultLater<C>(config: C, next: C, ls: seq<string>, k: nat, apply: Directive<C>)
    requires ls != [] && LoadLine(config, ls[0], apply) == Applied(next) && FirstFault(next, ls[1..], k, apply)
    ensures FirstFault(config, ls, k + 1, apply) && ls[k + 1] == ls[1..][k]
  {
    SoundFromSecond(config, ls, k + 1, apply);
    SoundFromSecond(config, ls, k + 2, apply);
  }

  /** What a result of `Load` says about the lines. */
  ghost predicate Explains<C>(r: Loaded<C>, config: C, ls: seq<string>, n: nat, apply: Directive<C>) {
    match r
    case Ready(c) => Sound(config, ls, |ls|, apply) == Applied(c)
    case SyntaxError(j) => n < j && FirstFault(config, ls, j - n - 1, apply) && !EndsInEscape(ls[j - n - 1])
    case Uncaught(j) => n < j && FirstFault(config, ls, j - n - 1, apply) && EndsInEscape(ls[j - n - 1])
  }

  lemma ExplainsLater<C>(r: Loaded<C>, config: C, next: C, ls: seq<string>, n: nat, apply: Directive<C>)
    requires ls != [] && LoadLine(config, ls[0], apply) == Applied(next)
    requires Explains(r, next, ls[1..], n + 1, apply)
    ensures Explains(r, config, ls, n, apply)
  {
    match r
    case Ready(c) => SoundFromSecond(config, ls, |ls|, apply);
    case SyntaxError(j) => FirstFaultLater(config, next, ls, j - n - 2, apply);
    case Uncaught(j) => FirstFaultLater(config, next, ls, j - n - 2, apply);
  }

  lemma {:induction false} LoadExplains<C>(config: C, ls: seq<string>, n: nat, apply: Directive<C>)
    ensures Explains(Load(config, ls, n, apply), config, ls, n, apply)
    decreases |ls|
  {
    if ls != [] {
      var first := LoadLine(config, ls[0], apply);
      OutOfRangeIff(ls[0]);
      if first.Applied? {
        LoadExplains(first.config, ls[1..], n + 1, apply);
        ExplainsLater(Load(config, ls, n, apply), config, first.config, ls, n, apply);
      } else {
        assert Sound(config, ls, 0, apply) == Applied(config) && Sound(config, ls, 1, apply) == first;
      }
    }
  }

  lemma FaultNotSound<C>(config: C, ls: seq<string>, k: nat, n: nat, apply: Directive<C>)
    requires FirstFault(config, ls, k, apply) && k < n <= |ls|
    ensures Sound(config, ls, n, apply).Fault?
  {
    if Sound(config, ls, n, apply).Applied? {
      SoundBefore(config, ls, k + 1, n, apply);
    }
  }

  lemma FirstFaultOnce<C>(config: C, ls: seq<string>, k: nat, j: nat, apply: Directive<C>)
    requires FirstFault(config, ls, k, apply) && FirstFault(config, ls, j, apply)
    ensures k == j
  {
    if k < j {
      FaultNotSound(config, ls, k, j, apply);
    } else if j < k {
      FaultNotSound(config, ls, j, k, apply);
    }
  }

  /** No two results explain the same lines. */
  lemma ExplainsOnce<C>(r: Loaded<C>, q: Loaded<C>, config: C, ls: seq<string>, n: nat, apply: Directive<C>)
    requires Explains(r, config, ls, n, apply) && Explains(q, config, ls, n, apply)
    ensures r == q
  {
    if r.Ready? && !q.Ready? {
      FaultNotSound(config, ls, q.lineno - n - 1, |ls|, apply);
    } else if q.Ready? && !r.Ready? {
      FaultNotSound(config, ls, r.lineno - n - 1, |ls|, apply);
    } else if !r.Ready? && !q.Ready? {
      FirstFaultOnce(config, ls, r.lineno - n - 1, q.lineno - n - 1, apply);
    }
  }

  lemma LoadIs<C>(q: Loaded<C>, config: C, ls: seq<string>, n: nat, apply: Directive<C>)
    ensures Load(config, ls, n, apply) == q <==> Explains(q, config, ls, n, apply)
  {
    LoadExplains(config, ls, n, apply);
    if Explains(q, config, ls, n, apply) {
      ExplainsOnce(Load(config, ls, n, apply), q, config, ls, n, apply);
    }
  }

  lemma LoadErrorIff<C>(config: C, ls: seq<string>, n: nat, apply: Directive<C>, k: nat)
    requires k < |ls|
    ensures Load(config, ls, n, apply) == SyntaxError(n + k + 1) <==>
      FirstFault(config, ls, k, apply) && !EndsInEscape(ls[k])
    ensures Load(config, ls, n, apply) == Uncaught(n + k + 1) <==>
      FirstFault(config, ls, k, apply) && EndsInEscape(ls[k])
  {
    LoadIs(SyntaxError(n + k + 1), config, ls, n, apply);
    LoadIs(Uncaught(n + k + 1), config, ls, n, apply);
  }

  /** What becomes of a file: its configuration, exactly if every line is in order; a syntax
      error with the number of the first line that is not, unless that line ends in the middle
      of an escape; and otherwise the exception that nobody catches. */
  lemma LoadExactly<C>(config: C, ls: seq<string>, n: nat, apply: Directive<C>)
    ensures forall c :: Load(config, ls, n, apply) == Ready(c) <==> Sound(config, ls, |ls|, apply) == Applied(c)
    ensures forall k: nat :: k < |ls| ==>
      (Load(config, ls, n, apply) == SyntaxError(n + k + 1) <==>
         FirstFault(config, ls, k, apply) && !EndsInEscape(ls[k]))
    ensures forall k: nat :: k < |ls| ==>
      (Load(config, ls, n, apply) == Uncaught(n + k + 1) <==>
         FirstFault(config, ls, k, apply) && EndsInEscape(ls[k]))
    ensures Load(config, ls, n, apply).Ready? || n < Load(config, ls, n, apply).lineno <= n + |ls|
  {
    forall c
      ensures Load(config, ls, n, apply) == Ready(c) <==> Sound(config, ls, |ls|, apply) == Applied(c)
    {
      LoadIs(Ready(c), config, ls, n, apply);
    }
    forall k: nat | k < |ls|
      ensures Load(config, ls, n, apply) == SyntaxError(n + k + 1) <==>
        FirstFault(config, ls, k, apply) && !EndsInEscape(ls[k])
      ensures Load(config, ls, n, apply) == Uncaught(n + k + 1) <==>
        FirstFault(config, ls, k, apply) && EndsInEscape(ls[k])
    {
      LoadErrorIff(config, ls, n, apply, k);
    }
    LoadExplains(config, ls, n, apply);
  }

  // ----- What lines do -----

  function Blanks(n: nat): string {
    if n == 0 then "" else " " + Blanks(n - 1)
  }

  /** A line of blanks, with a comment after them or without, changes nothing. */
  lemma IdleLine<C>(config: C, n: nat, t: string, apply: Directive<C>)
    ensures LoadLine(config, Blanks(n), apply) == Applied(config)
    ensures LoadLine(config, Blanks(n) + "#" + t, apply) == Applied(config)
  {
    var c := "#" + t;
    BlanksRead(n, "");
    BlanksRead(n, c);
    CommentAlone(t);
    assert Blanks(n) + "" == Blanks(n) && Blanks(n) + c == Blanks(n) + "#" + t;
  }

  lemma {:induction false} BlanksRead(n: nat, t: string)
    ensures Split(Blanks(n) + t) == Split(t)
  {
    if n == 0 {
      assert Blanks(n) + t == t;
    } else {
      BlanksRead(n - 1, t);
      BlankThen(Blanks(n - 1) + t);
      Assoc(" ", Blanks(n - 1), t);
    }
  }

  /** What the first `n` of some directives do one after another; an empty one does nothing. */
  function Effects<C>(config: C, directives: seq<seq<string>>, n: nat, apply: Directive<C>): Effect<C>
    requires n <= |directives|
  {
    if n == 0 then Applied(config)
    else match Effects(config, directives, n - 1, apply)
      case Applied(c) => if directives[n - 1] == [] then Applied(c) else apply(c, directives[n - 1])
      case Fault => Fault
  }

  lemma {:induction false} LinesHaveEffects<C>(
      config: C, ls: seq<string>, directives: seq<seq<string>>, n: nat, apply: Directive<C>)
    requires n <= |ls| == |directives| && forall i :: 0 <= i < |ls| ==> Split(ls[i]) == Tokens(directives[i])
    ensures Sound(config, ls, n, apply) == Effects(config, directives, n, apply)
  {
    if n != 0 {
      LinesHaveEffects(config, ls, directives, n - 1, apply);
    }
  }

  /** Lines that do what directives do. */
  ghost predicate DoTheSame<C>(config: C, ls: seq<string>, directives: seq<seq<string>>, apply: Directive<C>) {
    && |ls| == |directives|
    && (forall k :: 0 <= k <= |ls| ==> Sound(config, ls, k, apply) == Effects(config, directives, k, apply))
    && (forall k :: 0 <= k < |ls| ==> !EndsInEscape(ls[k]))
  }

  lemma WrittenDoesTheSame<C>(config: C, directives: seq<seq<string>>, apply: Directive<C>)
    ensures DoTheSame(config, WrittenFile(directives), directives, apply)
  {
    var ls := WrittenFile(directives);
    WrittenFileReads(directives);
    forall k | 0 <= k <= |ls|
      ensures Sound(config, ls, k, apply) == Effects(config, directives, k, apply)
    {
      LinesHaveEffects(config, ls, directives, k, apply);
    }
    forall k | 0 <= k < |ls|
      ensures !EndsInEscape(ls[k])
    {
      OutOfRangeIff(ls[k]);
    }
  }

  /** What directives come to, one after another: a configuration, or the first in error. */
  ghost predicate ComeTo<C>(r: Loaded<C>, config: C, directives: seq<seq<string>>, apply: Directive<C>) {
    match r
    case Ready(c) => Effects(config, directives, |directives|, apply) == Applied(c)
    case SyntaxError(k) =>
      && 0 < k <= |directives|
      && Effects(config, directives, k - 1, apply).Applied? && Effects(config, directives, k, apply).Fault?
    case Uncaught(_) => false
  }

  lemma LinesComeTo<C>(r: Loaded<C>, config: C, ls: seq<string>, directives: seq<seq<string>>, apply: Directive<C>)
    requires DoTheSame(config, ls, directives, apply)
    ensures Explains(r, config, ls, 0, apply) <==> ComeTo(r, config, directives, apply)
  {
  }

  /** So a configuration that is written out is read back: the file has the effect of its
      directives, or is refused with the number of the first that is in error. */
  lemma WrittenFileLoads<C>(config: C, directives: seq<seq<string>>, apply: Directive<C>, r: Loaded<C>)
    ensures Load(config, FileLines(Unlines(WrittenFile(directives))), 0, apply) == r
      <==> ComeTo(r, config, directives, apply)
  {
    var ls := WrittenFile(directives);
    assert FileLines(Unlines(ls)) == ls by {
      WrittenFileReads(directives);
      LinesOfUnlines(ls);
    }
    WrittenDoesTheSame(config, directives, apply);
    LinesComeTo(r, config, ls, directives, apply);
    LoadIs(r, config, ls, 0, apply);
  }

  // ----- Reading, in place -----

  class StdioFile {
    const data: string
    var pos: nat

    ghost predicate Valid()
      reads this
    {
      pos <= |data|
    }

    function Unread(): string
      reads this
      requires Valid()
    {
      data[pos..]
    }

    constructor (data: string)
      ensures Valid() && Unread() == data && this.data == data
    {
      this.data, pos := data, 0;
    }

    /** Reads a line without its newline; false at the end of the file. */
    method ReadLine() returns (more: bool, line: string)
      requires Valid()
      modifies this
      ensures Valid()
      ensures more <==> old(Unread()) != ""
      ensures more ==> line == old(Unread())[..LineEnd(old(Unread()))] && Unread() == AfterLine(old(Unread()))
      ensures !more ==> line == "" && Unread() == ""
    {
      ghost var s := Unread();
      line := "";
      while pos < |data|
        invariant old(pos) <= pos <= |data| && s == data[old(pos)..]
        invariant line == data[old(pos)..pos] && '\n' !in line
      {
        var c := data[pos];
        pos := pos + 1;
        if c == '\n' {
          LineEndOf(line, s[|line|..]);
          assert s == line + s[|line|..];
          return true, line;
        }
        assert data[old(pos)..pos] == data[old(pos)..pos - 1] + [c];
        line := line + [c];
      }
      LineEndOf(line, "");
      assert s == line + "";
      return line != "", line;
    }
  }

  lemma {:induction false} HexValueMono(ds: string, n: nat)
    requires AllHex(ds) && n <= |ds|
    ensures HexValue(ds[..n]) <= HexValue(ds)
  {
    if n < |ds| {
      HexValueMono(ds[..|ds| - 1], n);
      assert ds[..|ds| - 1][..n] == ds[..n];
    } else {
      assert ds[..n] == ds;
    }
  }

  /** The digits of a hexadecimal escape, from `pos` on. */
  method ReadHex(line: string, pos: nat) returns (r: Escaped, pos': nat)
    requires pos <= |line|
    ensures r == HexEscape(line[pos..], HexRun(line[pos..]))
    ensures pos <= pos' <= |line| && (r.Char? ==> r.rest == line[pos'..])
  {
    ghost var s := line[pos..];
    ghost var run := HexRun(s);
    pos' := pos;
    var value := 0;
    while pos' < |line|
      invariant pos <= pos' <= |line| && pos' - pos <= run
      invariant value == HexValue(s[..pos' - pos]) && value <= 255
    {
      var ch := line[pos'];
      assert ch == s[pos' - pos];
      if !IsHex(ch) {
        break;
      }
      ghost var n := pos' - pos;
      assert n < run by { assert run < |s| ==> !IsHex(s[run]); }
      assert s[..n + 1][..n] == s[..n] && s[..run][..n + 1] == s[..n + 1];
      pos' := pos' + 1;
      value := 16 * value + DecodeHex(ch);
      if value > 255 {
        HexValueMono(s[..run], n + 1);
        return Bad(HexRange), pos';
      }
    }
    assert pos' - pos == run by {
      assert forall i :: 0 <= i < |s| ==> s[i] == line[pos + i];
      assert forall i :: 0 <= i < run ==> s[i] == s[..run][i];
    }
    return Char(value as char, line[pos'..]), pos';
  }

  lemma OctalStep(s: string, n: nat)
    requires n < |s| && AllOctal(s[..n]) && IsOctal(s[n])
    ensures AllOctal(s[..n + 1])
    ensures OctalValue(s[..n + 1]) == 8 * OctalValue(s[..n]) + (s[n] as int - '0' as int)
  {
    assert s[..n + 1][..n] == s[..n];
  }

  /** An octal escape whose first digit is just before `pos`. */
  method ReadOctal(line: string, pos: nat) returns (r: Escaped, pos': nat)
    requires 0 < pos <= |line| && IsOctal(line[pos - 1])
    ensures r == OctalEscape(line[pos - 1..], OctalRun(line[pos - 1..], 3))
    ensures pos <= pos' <= |line| && (r.Char? ==> r.rest == line[pos'..])
  {
    ghost var s := line[pos - 1..];
    assert forall i :: 0 <= i < |s| ==> s[i] == line[pos - 1 + i];
    var value := line[pos - 1] as int - '0' as int;
    pos' := pos;
    ghost var n := 1;
    assert s[..0] == "";
    OctalStep(s, 0);
    if pos' < |line| && IsOctal(line[pos']) {
      OctalStep(s, 1);
      n := 2;
      value := value * 8 + line[pos'] as int - '0' as int;
      pos' := pos' + 1;
      if pos' < |line| && IsOctal(line[pos']) {
        OctalStep(s, 2);
        n := 3;
        value := value * 8 + line[pos'] as int - '0' as int;
        pos' := pos' + 1;
      }
    }
    OctalRunIs(s, n);
    assert value == OctalValue(s[..n]) && line[pos'..] == s[n..];
    if value > 255 {
      return Bad(OctalRange), pos';
    }
    return Char(value as char, line[pos'..]), pos';
  }

  lemma OctalRunIs(s: string, n: nat)
    requires 1 <= n <= 3 && n <= |s| && AllOctal(s[..n]) && (n < |s| && n < 3 ==> !IsOctal(s[n]))
    ensures OctalRun(s, 3) == n
  {
    var run := OctalRun(s, 3);
    assert forall i :: 0 <= i < run ==> s[i] == s[..run][i];
    assert forall i :: 0 <= i < n ==> s[i] == s[..n][i];
  }

  /** The escape whose backslash is just before `pos`. */
  method ReadEscape(line: string, pos: nat) returns (r: Escaped, pos': nat)
    requires pos <= |line|
    ensures r == Escape(line[pos..])
    ensures pos <= pos' <= |line| && (r.Char? ==> r.rest == line[pos'..])
  {
    // The source's own test for the end of the line, `>`, never succeeds, so it is line.at
    // that throws.
    if pos == |line| {
      return Bad(OutOfRange), pos;
    }
    ghost var e := line[pos..];
    var ch := line[pos];
    pos' := pos + 1;
    assert e[0] == ch && e[1..] == line[pos'..];
    if IsSimple(ch) {
      r := Char(Simple(ch), line[pos'..]);
    } else if ch == 'x' {
      r, pos' := ReadHex(line, pos');
    } else if IsOctal(ch) {
      r, pos' := ReadOctal(line, pos');
    } else {
      r := Bad(BadEscape);
    }
  }

  /** A bare token whose first character is just before `pos`. */
  method ReadBare(line: string, pos: nat) returns (bit: string, pos': nat)
    requires 0 < pos <= |line|
    ensures pos <= pos' <= |line| && bit == line[pos - 1..pos']
    ensures ' ' !in line[pos..pos'] && (pos' < |line| ==> line[pos'] == ' ')
  {
    bit := [line[pos - 1]];
    pos' := pos;
    while pos' < |line| && line[pos'] != ' '
      invariant pos <= pos' <= |line| && bit == line[pos - 1..pos']
      invariant ' ' !in line[pos..pos']
    {
      assert line[pos - 1..pos' + 1] == line[pos - 1..pos'] + [line[pos']];
      assert line[pos..pos' + 1] == line[pos..pos'] + [line[pos']];
      bit := bit + [line[pos']];
      pos' := pos' + 1;
    }
  }

  lemma BareTokenReads(line: string, pos: nat, pos': nat)
    requires 0 < pos <= pos' <= |line| && StartsBare(line[pos - 1..])
    requires ' ' !in line[pos..pos'] && (pos' < |line| ==> line[pos'] == ' ')
    ensures Split(line[pos - 1..]) == Prepend(line[pos - 1..pos'], Split(line[pos'..]))
  {
    var s, n := line[pos - 1..], pos' - (pos - 1);
    assert s[1..n] == line[pos..pos'];
    BareTokenIs(s, n);
    SplitBare(s, n);
    assert s[..n] == line[pos - 1..pos'];
    assert s[n..] == line[pos'..];
  }

  class ConfFile<C> {
    var config: C
    var lineno: nat
    const apply: Directive<C>

    constructor (initial: C, apply: Directive<C>)
      ensures config == initial && lineno == 0 && this.apply == apply
    {
      config, lineno, this.apply := initial, 0, apply;
    }

    /** The string whose opening quote `q` is just before `pos`; the new position is beyond
        the old one and within the line. */
    static method ParseString(line: string, pos: nat, q: char) returns (r: Scan, pos': nat)
      requires pos <= |line|
      ensures r == Body(line[pos..], q)
      ensures r.Done? ==> pos < pos' <= |line| && r.rest == line[pos'..]
    {
      ghost var goal := Body(line[pos..], q);
      pos' := pos;
      var bit := "";
      while pos' < |line|
        invariant pos <= pos' <= |line|
        invariant goal == ConsAll(bit, Body(line[pos'..], q))
      {
        ghost var s := line[pos'..];
        var ch := line[pos'];
        pos' := pos' + 1;
        assert s[0] == ch && s[1..] == line[pos'..];
        if ch == q {
          return Done(line[pos'..], bit), pos';
        }
        if ch != '\\' || q == '\'' {
          ConsAllOne(bit, ch, Body(line[pos'..], q));
          bit := bit + [ch];
        } else {
          var c: Escaped;
          c, pos' := ReadEscape(line, pos');
          if c.Bad? {
            return Failed(c.error), pos';
          }
          ConsAllOne(bit, c.c, Body(line[pos'..], q));
          bit := bit + [c.c];
        }
      }
      return Failed(Unterminated), pos';
    }

    static method SplitLine(line: string) returns (r: Tokens)
      ensures r == Split(line)
    {
      var bits: seq<string> := [];
      var pos := 0;
      while pos < |line|
        invariant 0 <= pos <= |line|
        invariant Split(line) == Join(bits, Split(line[pos..]))
      {
        ghost var s := line[pos..];
        var ch := line[pos];
        pos := pos + 1;
        assert s[0] == ch && s[1..] == line[pos..];
        match ch {
          case '#' => pos := |line|;
          case ' ' =>
          case _ =>
            if IsQuote(ch) {
              var scan, next := ParseString(line, pos, ch);
              if scan.Failed? {
                return Rejected(scan.error);
              }
              JoinSnoc(bits, scan.bit, Split(line[next..]));
              pos := next;
              bits := bits + [scan.bit];
            } else {
              var bit;
              ghost var start := pos;
              bit, pos := ReadBare(line, pos);
              BareTokenReads(line, start, pos);
              JoinSnoc(bits, bit, Split(line[pos..]));
              bits := bits + [bit];
            }
        }
      }
      return Tokens(bits);
    }

    method Parse(f: StdioFile) returns (r: Loaded<C>)
      requires f.Valid()
      modifies this, f
      ensures r == Load(old(config), FileLines(old(f.Unread())), 0, apply)
    {
      lineno := 0;
      ghost var goal := Load(config, FileLines(f.Unread()), 0, apply);
      var more, line := f.ReadLine();
      while more
        invariant f.Valid()
        invariant goal == Load(config, (if more then [line] else []) + FileLines(f.Unread()), lineno, apply)
        invariant !more ==> f.Unread() == ""
        decreases |f.data| - f.pos, more
      {
        lineno := lineno + 1;
        ghost var rest := FileLines(f.Unread());
        assert ([line] + rest)[1..] == rest;
        var bits := SplitLine(line);
        match bits {
          case Rejected(OutOfRange) => return Uncaught(lineno);
          case Rejected(_) => return SyntaxError(lineno);
          case Tokens(ts) =>
            if ts != [] {
              var effect := apply(config, ts);
              if effect.Fault? {
                return SyntaxError(lineno);
              }
              config := effect.config;
            }
        }
        more, line := f.ReadLine();
        assert !more ==> rest == [];
      }
      return Ready(config);
    }
  }

  /** `bit`, then whatever `scan` gives. */
  function ConsAll(bit: string, scan: Scan): Scan {
    match scan
    case Done(rest, more) => Done(rest, bit + more)
    case Failed(e) => Failed(e)
  }

  lemma ConsAllOne(bit: string, c: char, scan: Scan)
    ensures ConsAll(bit, Cons(c, scan)) == ConsAll(bit + [c], scan)
  {
    if scan.Done? {
      assert bit + ([c] + scan.bit) == bit + [c] + scan.bit;
    }
  }

  lemma JoinSnoc(bits: seq<string>, bit: string, more: Tokens)
    ensures Join(bits, Prepend(bit, more)) == Join(bits + [bit], more)
  {
    if more.Tokens? {
      assert bits + ([bit] + more.bits) == bits + [bit] + more.bits;
    }
  }

  lemma BareTokenIs(s: string, n: nat)
    requires StartsBare(s) && 1 <= n <= |s| && ' ' !in s[1..n] && (n < |s| ==> s[n] == ' ')
    ensures n == 1 + BareRun(s[1..])
  {
    var t := s[1..];
    assert s[1..n] == t[..n - 1];
    var run := BareRun(t);
    assert forall i :: 0 <= i < n - 1 ==> t[i] == t[..n - 1][i];
    assert forall i :: 0 <= i < run ==> t[i] == t[..run][i];
  }
}
