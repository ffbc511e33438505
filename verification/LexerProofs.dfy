/** What the lexer accepts and what it makes of it. */
module LexerProofs {
  import opened Lexer

  // ----- Adding text at the end -----

  lemma {:induction false} HexRunExtend(s: string, t: string)
    requires HexRun(s) < |s| || t == "" || !IsHex(t[0])
    ensures HexRun(s + t) == HexRun(s)
    decreases |s|
  {
    if s == "" {
      assert s + t == t;
    } else if IsHex(s[0]) {
      assert (s + t)[1..] == s[1..] + t;
      HexRunExtend(s[1..], t);
    }
  }

  lemma {:induction false} OctalRunExtend(s: string, t: string, max: nat)
    requires OctalRun(s, max) < |s| || t == "" || !IsOctal(t[0])
    ensures OctalRun(s + t, max) == OctalRun(s, max)
    decreases |s|
  {
    if s == "" {
      assert s + t == t;
    } else if IsOctal(s[0]) && max != 0 {
      assert (s + t)[1..] == s[1..] + t;
      OctalRunExtend(s[1..], t, max - 1);
    }
  }

  function After(e: Escaped, t: string): Escaped {
    match e
    case Char(c, rest) => Char(c, rest + t)
    case Bad(error) => Bad(error)
  }

  lemma HexEscapeOf(ds: string, rest: string)
    requires AllHex(ds)
    ensures AllHex((ds + rest)[..|ds|])
    ensures HexEscape(ds + rest, |ds|) == if HexValue(ds) > 255 then Bad(HexRange) else Char(HexValue(ds) as char, rest)
  {
    assert (ds + rest)[..|ds|] == ds && (ds + rest)[|ds|..] == rest;
  }

  lemma OctalEscapeOf(ds: string, rest: string)
    requires AllOctal(ds)
    ensures AllOctal((ds + rest)[..|ds|])
    ensures OctalEscape(ds + rest, |ds|) ==
      if OctalValue(ds) > 255 then Bad(OctalRange) else Char(OctalValue(ds) as char, rest)
  {
    assert (ds + rest)[..|ds|] == ds && (ds + rest)[|ds|..] == rest;
  }

  lemma HexExtend(s: string, t: string)
    requires HexRun(s) < |s| || t == "" || !IsHex(t[0])
    ensures HexEscape(s + t, HexRun(s + t)) == After(HexEscape(s, HexRun(s)), t)
  {
    var u, n := s + t, HexRun(s);
    HexRunExtend(s, t);
    assert u[..n] == s[..n];
    assert u[n..] == s[n..] + t;
    assert HexEscape(u, n) == After(HexEscape(s, n), t);
  }

  lemma OctalExtend(s: string, t: string, max: nat)
    requires OctalRun(s, max) < |s| || t == "" || !IsOctal(t[0])
    ensures OctalEscape(s + t, OctalRun(s + t, max)) == After(OctalEscape(s, OctalRun(s, max)), t)
  {
    var u, n := s + t, OctalRun(s, max);
    OctalRunExtend(s, t, max);
    assert u[..n] == s[..n];
    assert u[n..] == s[n..] + t;
    assert OctalEscape(u, n) == After(OctalEscape(s, n), t);
  }

  /** An escape that is over before the end of `s`, or that `t` does not prolong, is not
      affected by `t`; and a wrong one stays wrong. */
  lemma EscapeExtend(s: string, t: string)
    requires s != ""
    requires (Escape(s).Char? && Escape(s).rest != "") || t == "" || !IsHex(t[0])
    ensures Escape(s + t) == After(Escape(s), t)
  {
    assert (s + t)[1..] == s[1..] + t;
    if s[0] == 'x' {
      HexExtend(s[1..], t);
    } else if IsOctal(s[0]) {
      OctalExtend(s, t, 3);
    }
  }

  /** A finished string does not depend on what comes after it. */
  lemma {:induction false} BodyExtend(s: string, q: char, t: string)
    requires Body(s, q).Done?
    ensures Body(s + t, q) == Done(Body(s, q).rest + t, Body(s, q).bit)
    decreases |s|
  {
    assert (s + t)[1..] == s[1..] + t;
    if s[0] == q {
    } else if s[0] != '\\' || q == '\'' {
      BodyExtend(s[1..], q, t);
    } else {
      EscapeExtend(s[1..], t);
      BodyExtend(Escape(s[1..]).rest, q, t);
    }
  }

  lemma {:induction false} BareRunExtend(s: string, t: string)
    requires BareRun(s) < |s| || t == "" || t[0] == ' '
    ensures BareRun(s + t) == BareRun(s)
    decreases |s|
  {
    if s == "" {
      assert s + t == t;
    } else if s[0] != ' ' {
      assert (s + t)[1..] == s[1..] + t;
      BareRunExtend(s[1..], t);
    }
  }

  function Join(bits: seq<string>, more: Tokens): Tokens {
    match more
    case Tokens(rest) => Tokens(bits + rest)
    case Rejected(e) => Rejected(e)
  }

  lemma BlankThen(t: string)
    ensures Split(" " + t) == Split(t)
  {
    assert (" " + t)[1..] == t;
  }

  lemma {:induction false} SplitBeforeBlank(s: string, tail: string)
    requires Split(s).Tokens? && !Commented(s) && tail != "" && tail[0] == ' '
    ensures Split(s + tail) == Join(Split(s).bits, Split(tail))
    decreases |s|
  {
    if s == "" {
      assert s + tail == tail;
    } else if s[0] == ' ' {
      assert (s + tail)[1..] == s[1..] + tail;
      SplitBeforeBlank(s[1..], tail);
    } else if IsQuote(s[0]) {
      var r := Body(s[1..], s[0]);
      SplitBeforeBlank(r.rest, tail);
      QuotedBefore(s, tail);
      JoinPrepend(r.bit, Split(r.rest).bits, Split(tail));
    } else {
      var n := 1 + BareRun(s[1..]);
      SplitBeforeBlank(s[n..], tail);
      BareBefore(s, tail, n);
      JoinPrepend(s[..n], Split(s[n..]).bits, Split(tail));
    }
  }

  /** A line that reads without error and without a comment can be continued: its tokens come
      first, then whatever becomes of the continuation. */
  lemma SplitComposes(s: string, t: string)
    requires Split(s).Tokens? && !Commented(s)
    ensures Split(s + " " + t) == Join(Split(s).bits, Split(t))
  {
    SplitBeforeBlank(s, " " + t);
    BlankThen(t);
    assert s + " " + t == s + (" " + t);
  }

  /** A quoted token is not affected by what is added after it. */
  lemma QuotedBefore(s: string, t: string)
    requires s != "" && IsQuote(s[0]) && Body(s[1..], s[0]).Done?
    ensures var r := Body(s[1..], s[0]);
      Split(s + t) == Prepend(r.bit, Split(r.rest + t))
  {
    assert (s + t)[1..] == s[1..] + t;
    BodyExtend(s[1..], s[0], t);
  }

  predicate StartsBare(p: string) {
    p != "" && p[0] != '#' && p[0] != ' ' && !IsQuote(p[0])
  }

  lemma SplitBare(s: string, n: nat)
    requires StartsBare(s) && n == 1 + BareRun(s[1..])
    ensures Split(s) == Prepend(s[..n], Split(s[n..]))
  {
  }

  lemma {:induction false} BareRunOf(s: string)
    requires ' ' !in s
    ensures BareRun(s) == |s|
  {
    if s != "" {
      BareRunOf(s[1..]);
    }
  }

  lemma BareRunBefore(p: string, t: string, n: nat)
    requires StartsBare(p) && n == 1 + BareRun(p[1..]) && (n < |p| || t == "" || t[0] == ' ')
    ensures n == 1 + BareRun((p + t)[1..]) && (p + t)[..n] == p[..n] && (p + t)[n..] == p[n..] + t
  {
    assert (p + t)[1..] == p[1..] + t;
    BareRunExtend(p[1..], t);
  }

  /** Neither is a bare token that a blank ends. */
  lemma BareBefore(p: string, t: string, n: nat)
    requires StartsBare(p) && n == 1 + BareRun(p[1..]) && (n < |p| || t == "" || t[0] == ' ')
    ensures Split(p + t) == Prepend(p[..n], Split(p[n..] + t))
  {
    BareRunBefore(p, t, n);
    SplitBare(p + t, n);
  }

  lemma JoinPrepend(bit: string, bits: seq<string>, more: Tokens)
    ensures Join([bit] + bits, more) == Prepend(bit, Join(bits, more))
  {
    if more.Tokens? {
      assert [bit] + bits + more.bits == [bit] + (bits + more.bits);
    }
  }

  // ----- The grammar of double-quoted strings -----

  /** One way to write one character between double quotes. */
  datatype Piece = Raw(c: char) | Named(letter: char) | Hex(hex: string) | Octal(oct: string)

  function Spell(p: Piece): string {
    match p
    case Raw(c) => [c]
    case Named(l) => ['\\', l]
    case Hex(ds) => "\\x" + ds
    case Octal(ds) => "\\" + ds
  }

  /** `p` is a legal way to write a character when `next` follows: a hexadecimal escape takes
      every digit it can get, an octal one up to three. */
  predicate Fits(p: Piece, next: string) {
    match p
    case Raw(c) => c != '"' && c != '\\'
    case Named(l) => IsSimple(l)
    case Hex(ds) => AllHex(ds) && HexValue(ds) <= 255 && (next == "" || !IsHex(next[0]))
    case Octal(ds) =>
      && 1 <= |ds| <= 3 && AllOctal(ds) && OctalValue(ds) <= 255
      && (|ds| == 3 || next == "" || !IsOctal(next[0]))
  }

  function Meaning(p: Piece): char {
    match p
    case Raw(c) => c
    case Named(l) => Simple(l)
    case Hex(ds) => if AllHex(ds) && HexValue(ds) <= 255 then HexValue(ds) as char else '?'
    case Octal(ds) => if AllOctal(ds) && OctalValue(ds) <= 255 then OctalValue(ds) as char else '?'
  }

  function SpellAll(ps: seq<Piece>): string {
    if ps == [] then "" else Spell(ps[0]) + SpellAll(ps[1..])
  }

  function MeaningAll(ps: seq<Piece>): string {
    if ps == [] then "" else [Meaning(ps[0])] + MeaningAll(ps[1..])
  }

  /** Every piece fits before the next, and the last before the closing quote. */
  predicate FitsAll(ps: seq<Piece>) {
    ps == [] || (Fits(ps[0], SpellAll(ps[1..]) + "\"") && FitsAll(ps[1..]))
  }

  lemma {:induction false} HexRunOf(ds: string, t: string)
    requires AllHex(ds) && (t == "" || !IsHex(t[0]))
    ensures HexRun(ds + t) == |ds|
    decreases |ds|
  {
    if ds == "" {
      assert ds + t == t;
    } else {
      assert (ds + t)[1..] == ds[1..] + t;
      HexRunOf(ds[1..], t);
    }
  }

  lemma {:induction false} OctalRunOf(ds: string, t: string, max: nat)
    requires AllOctal(ds) && |ds| <= max && (|ds| == max || t == "" || !IsOctal(t[0]))
    ensures OctalRun(ds + t, max) == |ds|
    decreases |ds|
  {
    if ds == "" {
      assert ds + t == t;
    } else {
      assert (ds + t)[1..] == ds[1..] + t;
      OctalRunOf(ds[1..], t, max - 1);
    }
  }

  lemma HexReads(ds: string, next: string)
    requires Fits(Hex(ds), next)
    ensures Escape("x" + ds + next) == Char(Meaning(Hex(ds)), next)
  {
    assert ("x" + ds + next)[1..] == ds + next;
    HexRunOf(ds, next);
    HexEscapeOf(ds, next);
  }

  lemma OctalReads(ds: string, next: string)
    requires Fits(Octal(ds), next)
    ensures Escape(ds + next) == Char(Meaning(Octal(ds)), next)
  {
    OctalRunOf(ds, next, 3);
    OctalEscapeOf(ds, next);
    assert !IsSimple(ds[0]);
  }

  lemma NamedReads(l: char, next: string)
    requires IsSimple(l)
    ensures Escape([l] + next) == Char(Simple(l), next)
  {
    assert ([l] + next)[1..] == next;
  }

  lemma EscapeReads(e: string, c: char, next: string)
    requires Escape(e) == Char(c, next)
    ensures Body("\\" + e, '"') == Cons(c, Body(next, '"'))
  {
    assert ("\\" + e)[1..] == e;
  }

  lemma RawReads(c: char, next: string)
    requires c != '"' && c != '\\'
    ensures Body([c] + next, '"') == Cons(c, Body(next, '"'))
  {
    assert ([c] + next)[1..] == next;
  }

  lemma NamedPieceReads(l: char, next: string)
    requires IsSimple(l)
    ensures Body(Spell(Named(l)) + next, '"') == Cons(Simple(l), Body(next, '"'))
  {
    NamedReads(l, next);
    EscapeReads([l] + next, Simple(l), next);
    assert Spell(Named(l)) + next == "\\" + ([l] + next);
  }

  lemma HexText(ds: string, next: string)
    ensures "\\x" + ds + next == "\\" + ("x" + ds + next)
  {
    assert "\\x" == "\\" + "x";
  }

  lemma HexPieceReads(ds: string, next: string)
    requires Fits(Hex(ds), next)
    ensures Body(Spell(Hex(ds)) + next, '"') == Cons(Meaning(Hex(ds)), Body(next, '"'))
  {
    var e := "x" + ds + next;
    HexReads(ds, next);
    EscapeReads(e, Meaning(Hex(ds)), next);
    HexText(ds, next);
  }

  lemma OctalPieceReads(ds: string, next: string)
    requires Fits(Octal(ds), next)
    ensures Body(Spell(Octal(ds)) + next, '"') == Cons(Meaning(Octal(ds)), Body(next, '"'))
  {
    OctalReads(ds, next);
    EscapeReads(ds + next, Meaning(Octal(ds)), next);
    assert Spell(Octal(ds)) + next == "\\" + (ds + next);
  }

  /** Each legal spelling is read as its meaning. */
  lemma PieceReads(p: Piece, next: string)
    requires Fits(p, next)
    ensures Body(Spell(p) + next, '"') == Cons(Meaning(p), Body(next, '"'))
  {
    match p
    case Raw(c) => RawReads(c, next);
    case Named(l) => NamedPieceReads(l, next);
    case Hex(ds) => HexPieceReads(ds, next);
    case Octal(ds) => OctalPieceReads(ds, next);
  }

  lemma {:induction false} PiecesRead(ps: seq<Piece>, rest: string)
    requires FitsAll(ps)
    ensures Body(SpellAll(ps) + "\"" + rest, '"') == Done(rest, MeaningAll(ps))
    decreases |ps|
  {
    if ps == [] {
      assert SpellAll(ps) + "\"" + rest == "\"" + rest;
      assert ("\"" + rest)[1..] == rest;
    } else {
      var next := SpellAll(ps[1..]) + "\"" + rest;
      assert next[0] == (SpellAll(ps[1..]) + "\"")[0];
      assert SpellAll(ps) + "\"" + rest == Spell(ps[0]) + next;
      PieceReads(ps[0], next);
      PiecesRead(ps[1..], rest);
    }
  }

  /** The piece that an escape was written with. */
  function PieceAt(s: string): Piece
    requires s != ""
  {
    if IsSimple(s[0]) then Named(s[0])
    else if s[0] == 'x' then Hex(s[1..][..HexRun(s[1..])])
    else Octal(s[..OctalRun(s, 3)])
  }

  lemma HexIsPiece(s: string)
    requires s != "" && s[0] == 'x' && Escape(s).Char?
    ensures var p := PieceAt(s); var r := Escape(s);
      "\\" + s == Spell(p) + r.rest && Fits(p, r.rest) && Meaning(p) == r.c
  {
    var n := HexRun(s[1..]);
    var ds, rest := s[1..][..n], s[1..][n..];
    HexEscapeOf(ds, rest);
    assert s[1..] == ds + rest;
    assert "\\" + s == "\\x" + ds + rest;
  }

  lemma OctalIsPiece(s: string)
    requires s != "" && IsOctal(s[0]) && Escape(s).Char?
    ensures var p := PieceAt(s); var r := Escape(s);
      "\\" + s == Spell(p) + r.rest && Fits(p, r.rest) && Meaning(p) == r.c
  {
    var n := OctalRun(s, 3);
    assert n == 1 + OctalRun(s[1..], 2);
    var ds, rest := s[..n], s[n..];
    OctalEscapeOf(ds, rest);
    assert s == ds + rest;
    assert "\\" + s == "\\" + ds + rest;
  }

  lemma EscapeIsPiece(s: string)
    requires s != "" && Escape(s).Char?
    ensures var p := PieceAt(s); var r := Escape(s);
      "\\" + s == Spell(p) + r.rest && Fits(p, r.rest) && Meaning(p) == r.c
  {
    if IsSimple(s[0]) {
      assert "\\" + s == ['\\', s[0]] + s[1..];
    } else if s[0] == 'x' {
      HexIsPiece(s);
    } else {
      OctalIsPiece(s);
    }
  }

  /** Pieces fit before whatever begins as the old continuation did. */
  lemma FitsNext(p: Piece, a: string, b: string)
    requires Fits(p, a) && a != "" && b != "" && a[0] == b[0]
    ensures Fits(p, b)
  {
  }

  /** The first piece of a string that is not over yet, and what follows it. */
  lemma FirstPiece(s: string) returns (p: Piece, next: string)
    requires Body(s, '"').Done? && s[0] != '"'
    ensures s == Spell(p) + next && Fits(p, next) && |next| < |s|
    ensures Body(s, '"') == Cons(Meaning(p), Body(next, '"'))
  {
    if s[0] == '\\' {
      p, next := PieceAt(s[1..]), Escape(s[1..]).rest;
      EscapeIsPiece(s[1..]);
      assert s == "\\" + s[1..];
    } else {
      p, next := Raw(s[0]), s[1..];
    }
  }

  /** Whatever is read as a double-quoted string was written in legal pieces. */
  lemma {:induction false} BodyIsPieces(s: string) returns (ps: seq<Piece>)
    requires Body(s, '"').Done?
    ensures FitsAll(ps) && MeaningAll(ps) == Body(s, '"').bit
    ensures s == SpellAll(ps) + "\"" + Body(s, '"').rest
    decreases |s|
  {
    if s[0] == '"' {
      ps := [];
      assert s == "\"" + s[1..];
    } else {
      var p, next := FirstPiece(s);
      var more := BodyIsPieces(next);
      ps := [p] + more;
      var tail := SpellAll(more) + "\"";
      assert next == tail + Body(next, '"').rest;
      FitsNext(p, next, tail);
      assert ps[1..] == more;
      assert s == Spell(p) + tail + Body(next, '"').rest;
      assert SpellAll(ps) + "\"" == Spell(p) + tail;
    }
  }

  /** The double-quoted strings of the language, and what each of them means: exactly the
      texts made of legal pieces. */
  lemma DoubleQuotedExactly(s: string, rest: string, bit: string)
    ensures Body(s, '"') == Done(rest, bit) <==>
      exists ps :: FitsAll(ps) && s == SpellAll(ps) + "\"" + rest && bit == MeaningAll(ps)
  {
    if Body(s, '"') == Done(rest, bit) {
      var ps := BodyIsPieces(s);
    }
    forall ps | FitsAll(ps) && s == SpellAll(ps) + "\"" + rest && bit == MeaningAll(ps)
      ensures Body(s, '"') == Done(rest, bit)
    {
      PiecesRead(ps, rest);
    }
  }

  /** Single-quoted strings: everything up to the next single quote, as it stands. */
  lemma {:induction false} SingleQuotedExactly(s: string, rest: string, bit: string)
    ensures Body(s, '\'') == Done(rest, bit) <==> '\'' !in bit && s == bit + "'" + rest
    decreases |s|
  {
    if s != "" && s[0] != '\'' && bit != "" {
      SingleQuotedExactly(s[1..], rest, bit[1..]);
      assert s == [s[0]] + s[1..] && bit == [bit[0]] + bit[1..];
      if s == bit + "'" + rest {
        assert s[1..] == bit[1..] + "'" + rest;
      }
      if s[0] == bit[0] && s[1..] == bit[1..] + "'" + rest {
        assert s == bit + "'" + rest;
      }
    } else if s != "" && s[0] == '\'' {
      if bit == "" {
        assert s == "'" + s[1..];
      }
      if s == bit + "'" + rest && bit != "" {
        assert s[0] == bit[0];
      }
    } else if bit == "" {
      assert bit + "'" + rest == "'" + rest;
    }
  }

  /** The letters that may follow a backslash, apart from digits: those that have a name, in
      order of what they stand for; those that stand for themselves; and no others. */
  lemma LettersExactly(c: char, s: string)
    ensures forall i :: 0 <= i < 7 && c == "abtnvfr"[i] ==> Escape([c] + s) == Char((7 + i) as char, s)
    ensures c in "'\"\\?" ==> Escape([c] + s) == Char(c, s)
    ensures c !in "abtnvfr" && c !in "'\"\\?" && c != 'x' && !('0' <= c <= '7') ==>
      Escape([c] + s) == Bad(BadEscape)
  {
    var letters, themselves := "abtnvfr", "'\"\\?";
    assert ([c] + s)[1..] == s;
    if c !in letters && c !in themselves {
      assert c != letters[0] && c != letters[1] && c != letters[2] && c != letters[3];
      assert c != letters[4] && c != letters[5] && c != letters[6];
      assert c != themselves[0] && c != themselves[1] && c != themselves[2] && c != themselves[3];
    }
  }

  // ----- Printing -----

  /** A token as somebody might write it. */
  datatype Spelling = Bare(text: string) | Single(text: string) | Double(pieces: seq<Piece>)

  predicate Legal(w: Spelling) {
    match w
    case Bare(text) => text != "" && !IsQuote(text[0]) && text[0] != '#' && ' ' !in text
    case Single(text) => '\'' !in text
    case Double(ps) => FitsAll(ps)
  }

  function Written(w: Spelling): string {
    match w
    case Bare(text) => text
    case Single(text) => "'" + text + "'"
    case Double(ps) => "\"" + SpellAll(ps) + "\""
  }

  function Token(w: Spelling): string {
    match w
    case Bare(text) => text
    case Single(text) => text
    case Double(ps) => MeaningAll(ps)
  }

  function WrittenLine(ws: seq<Spelling>): string {
    if ws == [] then "" else Written(ws[0]) + " " + WrittenLine(ws[1..])
  }

  function TokensOf(ws: seq<Spelling>): seq<string> {
    if ws == [] then [] else [Token(ws[0])] + TokensOf(ws[1..])
  }

  /** Whichever way a token is written, it is read as the same token. */
  lemma SpellingReads(w: Spelling)
    requires Legal(w)
    ensures Split(Written(w)) == Tokens([Token(w)]) && !Commented(Written(w))
  {
    var s := Written(w);
    match w
    case Bare(text) =>
      BareRunOf(text[1..]);
      assert text[..|text|] == text && text[|text|..] == "";
    case Single(text) =>
      assert s[1..] == text + "'" + "";
      SingleQuotedExactly(s[1..], "", text);
    case Double(ps) =>
      assert s[1..] == SpellAll(ps) + "\"" + "";
      PiecesRead(ps, "");
  }

  lemma {:induction false} LineReads(ws: seq<Spelling>)
    requires forall i :: 0 <= i < |ws| ==> Legal(ws[i])
    ensures Split(WrittenLine(ws)) == Tokens(TokensOf(ws))
  {
    if ws != [] {
      SpellingReads(ws[0]);
      LineReads(ws[1..]);
      SplitComposes(Written(ws[0]), WrittenLine(ws[1..]));
    }
  }

  /** A spelling for every string, without a newline in it. */
  function QuotedChar(c: char): Piece {
    if c == '"' || c == '\\' then Named(c) else if c == '\n' then Named('n') else Raw(c)
  }

  function QuotedPieces(bit: string): seq<Piece> {
    if bit == "" then [] else [QuotedChar(bit[0])] + QuotedPieces(bit[1..])
  }

  lemma QuotedCharFits(c: char, next: string)
    ensures Fits(QuotedChar(c), next) && Meaning(QuotedChar(c)) == c && '\n' !in Spell(QuotedChar(c))
  {
  }

  lemma {:induction false} QuotedFits(bit: string)
    ensures FitsAll(QuotedPieces(bit)) && MeaningAll(QuotedPieces(bit)) == bit
    ensures '\n' !in SpellAll(QuotedPieces(bit))
  {
    if bit != "" {
      QuotedFits(bit[1..]);
      var ps := QuotedPieces(bit);
      assert ps[0] == QuotedChar(bit[0]) && ps[1..] == QuotedPieces(bit[1..]);
      QuotedCharFits(bit[0], SpellAll(ps[1..]) + "\"");
      assert bit == [bit[0]] + bit[1..];
    }
  }

  /** The escapes in the test suite's configuration file stand for the bytes that its test
      expects. */
  lemma EscapesStandFor(next: string)
    ensures Meaning(Named('a')) == 7 as char && Meaning(Named('b')) == 8 as char && Meaning(Named('t')) == 9 as char
    ensures Meaning(Named('n')) == 10 as char && Meaning(Named('v')) == 11 as char && Meaning(Named('f')) == 12 as char
    ensures Meaning(Named('r')) == 13 as char
    ensures forall c :: c == '\\' || c == '"' || c == '\'' || c == '?' ==> Fits(Named(c), next) && Meaning(Named(c)) == c
    ensures Fits(Octal("001"), next) && Meaning(Octal("001")) == 1 as char
    ensures Fits(Octal("377"), next) && Meaning(Octal("377")) == 255 as char
    ensures Meaning(Hex("1")) == 1 as char && Meaning(Hex("0001")) == 1 as char && Meaning(Hex("ff")) == 255 as char
    ensures next == "" || !IsHex(next[0]) ==> Fits(Hex("1"), next) && Fits(Hex("0001"), next) && Fits(Hex("ff"), next)
  {
    assert "001"[..2] == "00" && "00"[..1] == "0" && "0"[..0] == "";
    assert "377"[..2] == "37" && "37"[..1] == "3" && "3"[..0] == "";
    assert "0001"[..3] == "000" && "000"[..2] == "00";
    assert "1"[..0] == "" && "ff"[..1] == "f" && "f"[..0] == "";
    assert OctalValue("001") == 1 && OctalValue("377") == 255;
    assert HexValue("1") == 1 && HexValue("0001") == 1 && HexValue("ff") == 255;
  }

  /** Hexadecimal digits of either case have the value of their place in the row of digits. */
  lemma DigitsDecode(v: nat)
    requires v < 16
    ensures IsHex("0123456789abcdef"[v]) && DecodeHex("0123456789abcdef"[v]) == v
    ensures IsHex("0123456789ABCDEF"[v]) && DecodeHex("0123456789ABCDEF"[v]) == v
  {
    assert forall c :: IsHex(c) ==> DecodeHex(c) < 16;
  }

  // ----- The grammar of lines -----

  /** What a line is made of, up to its end: blanks, and tokens, of which a bare one needs a
      blank to end it. */
  datatype Item = Blank | Word(w: Spelling)

  function ItemText(x: Item): string {
    match x
    case Blank => " "
    case Word(w) => Written(w) + if w.Bare? then " " else ""
  }

  function ItemsText(xs: seq<Item>): string {
    if xs == [] then "" else ItemText(xs[0]) + ItemsText(xs[1..])
  }

  predicate LegalItems(xs: seq<Item>) {
    forall i :: 0 <= i < |xs| && xs[i].Word? ==> Legal(xs[i].w)
  }

  function ItemBits(x: Item): seq<string> {
    if x.Word? then [Token(x.w)] else []
  }

  function ItemsBits(xs: seq<Item>): seq<string> {
    if xs == [] then [] else ItemBits(xs[0]) + ItemsBits(xs[1..])
  }

  /** How a line may end: just so, in a comment, or in a bare token. */
  datatype End = Nothing | Comment(text: string) | LastBare(text: string)

  function EndText(e: End): string {
    match e
    case Nothing => ""
    case Comment(text) => "#" + text
    case LastBare(text) => text
  }

  function EndBits(e: End): seq<string> {
    if e.LastBare? then [e.text] else []
  }

  /** `line` is legal items and an end, and `bits` are their tokens. */
  ghost predicate ReadsAs(line: string, bits: seq<string>, xs: seq<Item>, e: End) {
    && LegalItems(xs) && (e.LastBare? ==> Legal(Bare(e.text)))
    && line == ItemsText(xs) + EndText(e) && bits == ItemsBits(xs) + EndBits(e)
  }

  lemma Regroup(a: string, b: string, c: string, d: string)
    ensures a + (b + c + d) == a + b + c + d
  {
  }

  lemma BareThen(text: string, t: string)
    requires Legal(Bare(text))
    ensures Split(text + " " + t) == Prepend(text, Split(t))
  {
    var tail := " " + t;
    BareRunOf(text[1..]);
    BareBefore(text, tail, |text|);
    assert text + " " + t == text + tail && text[..|text|] == text && text[|text|..] + tail == tail;
    assert tail[1..] == t;
  }

  lemma SingleThen(text: string, t: string)
    requires Legal(Single(text))
    ensures Split(Written(Single(text)) + t) == Prepend(text, Split(t))
  {
    var s := Written(Single(text)) + t;
    assert s[1..] == text + "'" + t;
    SingleQuotedExactly(s[1..], t, text);
  }

  lemma DoubleThen(ps: seq<Piece>, t: string)
    requires FitsAll(ps)
    ensures Split(Written(Double(ps)) + t) == Prepend(MeaningAll(ps), Split(t))
  {
    var s := SpellAll(ps) + "\"" + t;
    PiecesRead(ps, t);
    Regroup("\"", SpellAll(ps), "\"", t);
    assert ("\"" + s)[1..] == s;
  }

  lemma WordThen(w: Spelling, t: string)
    requires Legal(w)
    ensures Split(ItemText(Word(w)) + t) == Prepend(Token(w), Split(t))
  {
    match w
    case Bare(text) => BareThen(text, t);
    case Single(text) =>
      SingleThen(text, t);
      assert ItemText(Word(w)) == Written(w);
    case Double(ps) =>
      DoubleThen(ps, t);
      assert ItemText(Word(w)) == Written(w);
  }

  lemma ItemThen(x: Item, t: string)
    requires LegalItems([x])
    ensures Split(ItemText(x) + t) == Join(ItemBits(x), Split(t))
  {
    assert [x][0] == x;
    match x
    case Blank =>
      BlankThen(t);
      JoinNothing(Split(t));
    case Word(w) =>
      WordThen(w, t);
      JoinPrepend(Token(w), [], Split(t));
      JoinNothing(Split(t));
  }

  lemma JoinNothing(more: Tokens)
    ensures Join([], more) == more
  {
    assert more.Tokens? ==> [] + more.bits == more.bits;
  }

  lemma JoinJoin(a: seq<string>, b: seq<string>, more: Tokens)
    ensures Join(a, Join(b, more)) == Join(a + b, more)
  {
    assert more.Tokens? ==> a + (b + more.bits) == a + b + more.bits;
  }

  lemma {:induction false} ItemsThen(xs: seq<Item>, t: string)
    requires LegalItems(xs)
    ensures Split(ItemsText(xs) + t) == Join(ItemsBits(xs), Split(t))
  {
    if xs == [] {
      assert ItemsText(xs) + t == t;
      JoinNothing(Split(t));
    } else {
      var next := ItemsText(xs[1..]) + t;
      ItemsThen(xs[1..], t);
      assert ItemsText(xs) + t == ItemText(xs[0]) + next;
      ItemThen(xs[0], next);
      JoinJoin(ItemBits(xs[0]), ItemsBits(xs[1..]), Split(t));
    }
  }

  /** From a comment sign on, nothing counts. */
  lemma CommentAlone(t: string)
    ensures Split("#" + t) == Tokens([])
  {
  }

  lemma EndReads(e: End)
    requires e.LastBare? ==> Legal(Bare(e.text))
    ensures Split(EndText(e)) == Tokens(EndBits(e))
  {
    match e
    case Nothing =>
    case Comment(text) => CommentAlone(text);
    case LastBare(text) => SpellingReads(Bare(text));
  }

  /** A comment may follow anything that is read without error, after a blank. */
  lemma CommentAtEnd(s: string, t: string)
    requires Split(s).Tokens? && !Commented(s)
    ensures Split(s + " #" + t) == Split(s)
  {
    var c := "#" + t;
    SplitComposes(s, c);
    CommentAlone(t);
    assert s + " " + c == s + " #" + t;
    assert Split(s).bits + [] == Split(s).bits;
  }

  /** There is a first item unless the line ends before or in it, or has an unfinished or wrong
      string there. */
  predicate HasFirstItem(line: string) {
    && line != "" && line[0] != '#'
    && (IsQuote(line[0]) ==> Body(line[1..], line[0]).Done?)
    && (StartsBare(line) ==> BareRun(line[1..]) < |line| - 1)
  }

  lemma FirstItem(line: string) returns (x: Item, next: string)
    requires HasFirstItem(line)
    ensures line == ItemText(x) + next && LegalItems([x]) && |next| < |line|
    ensures Split(line) == Join(ItemBits(x), Split(next))
  {
    if line[0] == ' ' {
      x, next := Blank, line[1..];
    } else if line[0] == '"' {
      x, next := FirstDouble(line);
    } else if line[0] == '\'' {
      x, next := FirstSingle(line);
    } else {
      x, next := FirstBare(line);
    }
    ItemThen(x, next);
  }

  lemma FirstDouble(line: string) returns (x: Item, next: string)
    requires line != "" && line[0] == '"' && Body(line[1..], '"').Done?
    ensures line == ItemText(x) + next && LegalItems([x]) && |next| < |line|
  {
    var s := line[1..];
    var ps := BodyIsPieces(s);
    next := Body(s, '"').rest;
    x := DoubleItem(ps);
    Regroup("\"", SpellAll(ps), "\"", next);
    assert line == "\"" + s;
  }

  lemma DoubleItem(ps: seq<Piece>) returns (x: Item)
    requires FitsAll(ps)
    ensures LegalItems([x]) && ItemText(x) == "\"" + SpellAll(ps) + "\""
  {
    var w := Double(ps);
    x := Word(w);
    assert ItemText(x) == Written(w);
  }

  lemma FirstSingle(line: string) returns (x: Item, next: string)
    requires line != "" && line[0] == '\'' && Body(line[1..], '\'').Done?
    ensures line == ItemText(x) + next && LegalItems([x]) && |next| < |line|
  {
    var s := line[1..];
    var bit := Body(s, '\'').bit;
    next := Body(s, '\'').rest;
    SingleQuotedExactly(s, next, bit);
    x := SingleItem(bit);
    Regroup("'", bit, "'", next);
    assert line == "'" + s;
  }

  lemma SingleItem(text: string) returns (x: Item)
    requires '\'' !in text
    ensures LegalItems([x]) && ItemText(x) == "'" + text + "'"
  {
    var w := Single(text);
    x := Word(w);
    assert ItemText(x) == Written(w);
  }

  lemma FirstBare(line: string) returns (x: Item, next: string)
    requires StartsBare(line) && BareRun(line[1..]) < |line| - 1
    ensures line == ItemText(x) + next && LegalItems([x]) && |next| < |line|
  {
    var n := 1 + BareRun(line[1..]);
    assert line[n] == line[1..][n - 1] == ' ';
    assert ' ' !in line[..n] by {
      assert forall i :: 0 < i < n ==> line[i] == line[1..][..n - 1][i - 1];
    }
    x, next := Word(Bare(line[..n])), line[n + 1..];
    assert line == line[..n] + " " + next;
  }

  /** The last of a line that is read without error. */
  lemma LastOf(line: string) returns (e: End)
    requires Split(line).Tokens? && !HasFirstItem(line)
    ensures ReadsAs(line, Split(line).bits, [], e)
  {
    assert ItemsText([]) == "" && ItemsBits([]) == [];
    if line == "" {
      e := Nothing;
    } else if line[0] == '#' {
      e := Comment(line[1..]);
      assert line == "#" + line[1..];
    } else {
      e := LastBare(line);
      BareToTheEnd(line);
    }
  }

  lemma BareToTheEnd(line: string)
    requires StartsBare(line) && BareRun(line[1..]) == |line| - 1
    ensures Legal(Bare(line)) && Split(line) == Tokens([line])
  {
    assert line[1..][..|line| - 1] == line[1..];
    assert forall i :: 0 < i < |line| ==> line[i] == line[1..][i - 1];
    SpellingReads(Bare(line));
  }

  lemma ReadsAsLater(x: Item, next: string, bits: seq<string>, xs: seq<Item>, e: End)
    requires ReadsAs(next, bits, xs, e) && LegalItems([x])
    ensures ReadsAs(ItemText(x) + next, ItemBits(x) + bits, [x] + xs, e)
  {
    var ys := [x] + xs;
    assert ys[1..] == xs && [x][0] == x;
    Assoc(ItemText(x), ItemsText(xs), EndText(e));
    Assoc(ItemBits(x), ItemsBits(xs), EndBits(e));
    assert ItemsText(ys) == ItemText(x) + ItemsText(xs) && ItemsBits(ys) == ItemBits(x) + ItemsBits(xs);
    LegalMore(x, xs);
  }

  lemma Assoc<T>(a: seq<T>, b: seq<T>, c: seq<T>)
    ensures a + (b + c) == a + b + c
  {
  }

  lemma LegalMore(x: Item, xs: seq<Item>)
    requires LegalItems([x]) && LegalItems(xs)
    ensures LegalItems([x] + xs)
  {
    assert [x][0] == x;
  }

  lemma {:induction false} LineIsItems(line: string) returns (xs: seq<Item>, e: End)
    requires Split(line).Tokens?
    ensures ReadsAs(line, Split(line).bits, xs, e)
    decreases |line|
  {
    if HasFirstItem(line) {
      var x, next := FirstItem(line);
      var more;
      more, e := LineIsItems(next);
      xs := [x] + more;
      ReadsAsLater(x, next, Split(next).bits, more, e);
    } else {
      xs := [];
      e := LastOf(line);
    }
  }

  /** The lines of the language and what they read as: exactly blanks and tokens, then nothing
      more, a comment, or a bare token. */
  lemma LineExactly(line: string, bits: seq<string>)
    ensures Split(line) == Tokens(bits) <==> exists xs, e :: ReadsAs(line, bits, xs, e)
  {
    if Split(line) == Tokens(bits) {
      var xs, e := LineIsItems(line);
    }
    forall xs, e | ReadsAs(line, bits, xs, e)
      ensures Split(line) == Tokens(bits)
    {
      EndReads(e);
      ItemsThen(xs, EndText(e));
    }
  }

  // ----- The backslash at the end of a line -----

  /** One more character after an unfinished or wrong double-quoted string. */
  lemma {:induction false} BodyOneMore(s: string, t: string)
    requires t == "\\" || t == "\""
    ensures Body(s, '"').Done? ==> Body(s + t, '"').Done?
    ensures Body(s, '"') == Failed(Unterminated) ==>
      if t == "\\" then Body(s + t, '"') == Failed(OutOfRange)
      else Body(s + t, '"').Done? && Body(s + t, '"').rest == ""
    ensures Body(s, '"').Failed? && Body(s, '"').error != Unterminated ==>
      Body(s + t, '"').Failed? && Body(s + t, '"').error != OutOfRange
    decreases |s|
  {
    if s == "" {
      assert s + t == t && t[1..] == "";
    } else {
      assert (s + t)[1..] == s[1..] + t;
      if s[0] == '"' {
      } else if s[0] != '\\' {
        BodyOneMore(s[1..], t);
      } else if s[1..] == "" {
        assert s[1..] + t == t && t[1..] == "";
        assert Escape(t) == Char(t[0], "");
      } else {
        EscapeExtend(s[1..], t);
        if Escape(s[1..]).Char? {
          BodyOneMore(Escape(s[1..]).rest, t);
        }
      }
    }
  }

  lemma {:induction false} SingleOneMore(s: string, t: string)
    requires Body(s, '\'').Failed? && (t == "\\" || t == "\"")
    ensures Body(s, '\'') == Failed(Unterminated) && Body(s + t, '\'') == Failed(Unterminated)
    decreases |s|
  {
    if s == "" {
      assert s + t == t && t[1..] == "";
    } else {
      assert (s + t)[1..] == s[1..] + t;
      SingleOneMore(s[1..], t);
    }
  }

  /** When a line makes the lexer read past its end: it ends in a backslash, and what comes
      before that is an unterminated string which a double quote would finish. */
  predicate EndsInEscape(line: string) {
    && line != "" && line[|line| - 1] == '\\'
    && Split(line[..|line| - 1]) == Rejected(Unterminated)
    && Split(line[..|line| - 1] + "\"").Tokens?
  }

  /** An unfinished or wrong quoted string: only a double-quoted one can read past the end. */
  lemma QuoteAtEnd(p: string)
    requires p != "" && IsQuote(p[0]) && Body(p[1..], p[0]).Failed?
    ensures Split(p + "\\") == Rejected(OutOfRange)
      <==> Split(p) == Rejected(Unterminated) && Split(p + "\"").Tokens?
  {
    var b, q := p + "\\", p + "\"";
    assert b[1..] == p[1..] + "\\";
    assert q[1..] == p[1..] + "\"";
    if p[0] == '\'' {
      SingleOneMore(p[1..], "\\");
      SingleOneMore(p[1..], "\"");
    } else {
      BodyOneMore(p[1..], "\\");
      BodyOneMore(p[1..], "\"");
      assert Split("") == Tokens([]);
    }
  }

  lemma {:induction false} EscapeAtEnd(p: string)
    ensures Split(p + "\\") == Rejected(OutOfRange)
      <==> Split(p) == Rejected(Unterminated) && Split(p + "\"").Tokens?
    decreases |p|
  {
    if p == "" {
      assert p + "\\" == "\\";
      assert "\\"[1..] == "" && "\\"[1..][0..] == "";
    } else if p[0] == '#' {
    } else if p[0] == ' ' {
      assert (p + "\\")[1..] == p[1..] + "\\" && (p + "\"")[1..] == p[1..] + "\"";
      EscapeAtEnd(p[1..]);
    } else if IsQuote(p[0]) {
      if Body(p[1..], p[0]).Failed? {
        QuoteAtEnd(p);
      } else {
        QuotedBefore(p, "\\");
        QuotedBefore(p, "\"");
        EscapeAtEnd(Body(p[1..], p[0]).rest);
      }
    } else {
      var n := 1 + BareRun(p[1..]);
      if n < |p| {
        BareBefore(p, "\\", n);
        BareBefore(p, "\"", n);
        EscapeAtEnd(p[n..]);
      } else {
        BareAtEnd(p, "\\");
      }
    }
  }

  /** A bare token at the end of a line takes one more character. */
  lemma BareAtEnd(p: string, t: string)
    requires StartsBare(p) && BareRun(p[1..]) == |p| - 1 && |t| == 1 && t[0] != ' '
    ensures Split(p + t) == Tokens([p + t])
  {
    var u := p + t;
    assert ' ' !in p[1..] by { assert p[1..][..|p| - 1] == p[1..]; }
    assert forall i :: 0 <= i < |u| ==> u[i] == if i == 0 then p[0] else if i < |p| then p[1..][i - 1] else t[0];
    SpellingReads(Bare(u));
  }

  /** The exception that no handler expects is thrown for exactly these lines. */
  lemma OutOfRangeIff(line: string)
    ensures Split(line) == Rejected(OutOfRange) <==> EndsInEscape(line)
  {
    if line != "" && line[|line| - 1] == '\\' {
      assert line == line[..|line| - 1] + "\\";
      EscapeAtEnd(line[..|line| - 1]);
    } else {
      NoEscapeAtEnd(line);
    }
  }

  lemma {:induction false} NoEscapeAtEnd(s: string)
    requires s == "" || s[|s| - 1] != '\\'
    ensures Split(s) != Rejected(OutOfRange)
    decreases |s|
  {
    if s == "" || s[0] == '#' {
    } else if s[0] == ' ' {
      NoEscapeAtEnd(s[1..]);
    } else if IsQuote(s[0]) {
      BodyNoEscapeAtEnd(s[1..], s[0]);
      var r := Body(s[1..], s[0]);
      if r.Done? {
        NoEscapeAtEnd(r.rest);
      }
    } else {
      NoEscapeAtEnd(s[1 + BareRun(s[1..])..]);
    }
  }

  predicate IsSuffix(r: string, s: string) {
    |r| <= |s| && s[|s| - |r|..] == r
  }

  lemma EscapeSuffix(s: string)
    requires Escape(s).Char?
    ensures IsSuffix(Escape(s).rest, s)
  {
    if IsSimple(s[0]) {
    } else if s[0] == 'x' {
      var n := HexRun(s[1..]);
      assert s[1..][n..] == s[n + 1..];
    }
  }

  lemma {:induction false} BodyNoEscapeAtEnd(s: string, q: char)
    requires s == "" || s[|s| - 1] != '\\'
    ensures Body(s, q) != Failed(OutOfRange)
    ensures Body(s, q).Done? ==> IsSuffix(Body(s, q).rest, s)
    decreases |s|
  {
    if s == "" || s[0] == q {
    } else if s[0] != '\\' || q == '\'' {
      BodyNoEscapeAtEnd(s[1..], q);
      if Body(s[1..], q).Done? {
        SuffixTrans(Body(s[1..], q).rest, s[1..], s);
      }
    } else if Escape(s[1..]).Char? {
      var next := Escape(s[1..]).rest;
      EscapeSuffix(s[1..]);
      SuffixTrans(next, s[1..], s);
      BodyNoEscapeAtEnd(next, q);
      if Body(next, q).Done? {
        SuffixTrans(Body(next, q).rest, next, s);
      }
    }
  }

  lemma SuffixTrans(r: string, s: string, t: string)
    requires IsSuffix(r, s) && IsSuffix(s, t)
    ensures IsSuffix(r, t)
  {
    assert s[|s| - |r|..] == t[|t| - |s|..][|s| - |r|..] == t[|t| - |r|..];
  }

  // ----- The same by grammar -----

  /** Complete tokens, a double quote, legal pieces, and a backslash that ends the line. */
  ghost predicate BreaksOff(line: string, xs: seq<Item>, ps: seq<Piece>) {
    LegalItems(xs) && FitsAll(ps) && line == ItemsText(xs) + ("\"" + SpellAll(ps) + "\\")
  }

  lemma FitsBeforeEscape(p: Piece, s: string)
    requires Fits(p, s + "\"")
    ensures Fits(p, s + "\\")
  {
    if s != "" {
      assert (s + "\"")[0] == (s + "\\")[0];
    }
  }

  lemma {:induction false} PiecesThenEscape(ps: seq<Piece>)
    requires FitsAll(ps)
    ensures Body(SpellAll(ps) + "\\", '"') == Failed(OutOfRange)
    decreases |ps|
  {
    if ps == [] {
      assert SpellAll(ps) + "\\" == "\\" && "\\"[1..] == "";
      assert Escape("") == Bad(OutOfRange);
    } else {
      var next := SpellAll(ps[1..]) + "\\";
      FitsBeforeEscape(ps[0], SpellAll(ps[1..]));
      PieceReads(ps[0], next);
      PiecesThenEscape(ps[1..]);
      assert SpellAll(ps) + "\\" == Spell(ps[0]) + next;
    }
  }

  /** The first piece of a string that breaks off in an escape, unless that escape comes first. */
  lemma FirstPieceBefore(s: string) returns (p: Piece, next: string)
    requires Body(s, '"') == Failed(OutOfRange) && s != "\\"
    ensures s == Spell(p) + next && Fits(p, next) && |next| < |s| && Body(next, '"') == Failed(OutOfRange)
  {
    if s[0] == '\\' {
      assert s == "\\" + s[1..];
      p, next := PieceAt(s[1..]), Escape(s[1..]).rest;
      EscapeIsPiece(s[1..]);
    } else {
      p, next := Raw(s[0]), s[1..];
    }
  }

  lemma {:induction false} PiecesBefore(s: string) returns (ps: seq<Piece>)
    requires Body(s, '"') == Failed(OutOfRange)
    ensures FitsAll(ps) && s == SpellAll(ps) + "\\"
    decreases |s|
  {
    if s == "\\" {
      ps := [];
    } else {
      var p, next := FirstPieceBefore(s);
      var more := PiecesBefore(next);
      ps := [p] + more;
      assert ps[1..] == more;
      assert Fits(p, SpellAll(more) + "\"") by { FitsBeforeQuote(p, SpellAll(more)); }
      assert s == Spell(p) + SpellAll(more) + "\\";
    }
  }

  lemma FitsBeforeQuote(p: Piece, s: string)
    requires Fits(p, s + "\\")
    ensures Fits(p, s + "\"")
  {
    if s != "" {
      assert (s + "\"")[0] == (s + "\\")[0];
    }
  }

  lemma BreaksOffLater(x: Item, next: string, xs: seq<Item>, ps: seq<Piece>)
    requires BreaksOff(next, xs, ps) && LegalItems([x])
    ensures BreaksOff(ItemText(x) + next, [x] + xs, ps)
  {
    var ys, tail := [x] + xs, "\"" + SpellAll(ps) + "\\";
    assert ys[1..] == xs && ItemsText(ys) == ItemText(x) + ItemsText(xs);
    Assoc(ItemText(x), ItemsText(xs), tail);
    LegalMore(x, xs);
  }

  lemma FirstBeforeBreak(line: string)
    requires Split(line) == Rejected(OutOfRange)
    requires line[0] == '"' ==> Body(line[1..], '"').Done?
    ensures HasFirstItem(line)
  {
    if line[0] == '\'' && Body(line[1..], '\'').Failed? {
      SingleOneMore(line[1..], "\\");
    } else if StartsBare(line) && BareRun(line[1..]) == |line| - 1 {
      BareToTheEnd(line);
    }
  }

  lemma {:induction false} ItemsBefore(line: string) returns (xs: seq<Item>, ps: seq<Piece>)
    requires Split(line) == Rejected(OutOfRange)
    ensures BreaksOff(line, xs, ps)
    decreases |line|
  {
    if line[0] == '"' && Body(line[1..], '"').Failed? {
      xs := [];
      ps := PiecesBefore(line[1..]);
      assert line == "\"" + line[1..];
    } else {
      FirstBeforeBreak(line);
      var x, next := FirstItem(line);
      var more;
      more, ps := ItemsBefore(next);
      xs := [x] + more;
      BreaksOffLater(x, next, more, ps);
    }
  }

  lemma BreakingFails(ps: seq<Piece>)
    requires FitsAll(ps)
    ensures Split("\"" + SpellAll(ps) + "\\") == Rejected(OutOfRange)
  {
    var rest := SpellAll(ps) + "\\";
    PiecesThenEscape(ps);
    assert ("\"" + rest)[1..] == rest;
    assert "\"" + rest == "\"" + SpellAll(ps) + "\\";
  }

  /** The exception that no handler expects is thrown for exactly the lines that break off in
      an escape inside a double-quoted string. */
  lemma OutOfRangeGrammar(line: string)
    ensures Split(line) == Rejected(OutOfRange) <==> exists xs, ps :: BreaksOff(line, xs, ps)
  {
    if Split(line) == Rejected(OutOfRange) {
      var xs, ps := ItemsBefore(line);
    }
    forall xs, ps | BreaksOff(line, xs, ps)
      ensures Split(line) == Rejected(OutOfRange)
    {
      BreakingFails(ps);
      ItemsThen(xs, "\"" + SpellAll(ps) + "\\");
    }
  }

  /** A double quote and a backslash make such a line. */
  lemma OutOfRangeExample()
    ensures Split("\"\\") == Rejected(OutOfRange)
  {
    assert "\"\\"[1..] == "\\" && "\\"[1..] == "";
    assert Escape("") == Bad(OutOfRange);
  }
}
