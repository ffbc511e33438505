/** How a line of the configuration file is cut into tokens: the reference description.

    Text is what remains to be read, so every function takes a suffix of the line and gives
    back a shorter one. */
module Lexer {

  /** `OutOfRange` stands for std::out_of_range, which is not a runtime_error; the others are
      syntax errors. */
  datatype Error = OutOfRange | HexRange | OctalRange | BadEscape | Unterminated

  datatype Scan = Done(rest: string, bit: string) | Failed(error: Error)

  datatype Escaped = Char(c: char, rest: string) | Bad(error: Error)

  datatype Tokens = Tokens(bits: seq<string>) | Rejected(error: Error)

  // ----- Digits -----

  predicate IsHex(c: char) {
    '0' <= c <= '9' || 'a' <= c <= 'f' || 'A' <= c <= 'F'
  }

  predicate IsOctal(c: char) {
    '0' <= c <= '7'
  }

  function DecodeHex(c: char): nat
    requires IsHex(c)
  {
    if '0' <= c <= '9' then c as int - '0' as int
    else if 'a' <= c <= 'f' then c as int - ('a' as int - 10)
    else c as int - ('A' as int - 10)
  }

  predicate AllHex(ds: string) {
    forall i :: 0 <= i < |ds| ==> IsHex(ds[i])
  }

  predicate AllOctal(ds: string) {
    forall i :: 0 <= i < |ds| ==> IsOctal(ds[i])
  }

  /** The number with these base-16 digits. */
  function HexValue(ds: string): nat
    requires AllHex(ds)
  {
    if ds == "" then 0 else 16 * HexValue(ds[..|ds| - 1]) + DecodeHex(ds[|ds| - 1])
  }

  /** The number with these base-8 digits. */
  function OctalValue(ds: string): nat
    requires AllOctal(ds)
  {
    if ds == "" then 0 else 8 * OctalValue(ds[..|ds| - 1]) + (ds[|ds| - 1] as int - '0' as int)
  }

  /** How many characters at the head of `s` are hexadecimal digits. */
  function HexRun(s: string): (n: nat)
    ensures n <= |s| && AllHex(s[..n]) && (n < |s| ==> !IsHex(s[n]))
  {
    if s == "" || !IsHex(s[0]) then 0 else 1 + HexRun(s[1..])
  }

  /** How many characters at the head of `s` are octal digits, but at most `max`. */
  function OctalRun(s: string, max: nat): (n: nat)
    ensures n <= |s| && n <= max && AllOctal(s[..n]) && (n < |s| && n < max ==> !IsOctal(s[n]))
  {
    if s == "" || max == 0 || !IsOctal(s[0]) then 0 else 1 + OctalRun(s[1..], max - 1)
  }

  // ----- Tokens -----

  predicate IsSimple(c: char) {
    || c == 'a' || c == 'b' || c == 't' || c == 'n' || c == 'v' || c == 'f' || c == 'r'
    || c == '\'' || c == '"' || c == '\\' || c == '?'
  }

  /** What a backslash and `c` stand for. */
  function Simple(c: char): char {
    match c
    case 'a' => 7 as char
    case 'b' => 8 as char
    case 't' => 9 as char
    case 'n' => 10 as char
    case 'v' => 11 as char
    case 'f' => 12 as char
    case 'r' => 13 as char
    case _ => c
  }

  /** An escape whose digits are the first `n` characters of `s`. */
  function HexEscape(s: string, n: nat): Escaped
    requires n <= |s| && AllHex(s[..n])
  {
    var v := HexValue(s[..n]);
    if v > 255 then Bad(HexRange) else Char(v as char, s[n..])
  }

  function OctalEscape(s: string, n: nat): Escaped
    requires n <= |s| && AllOctal(s[..n])
  {
    var v := OctalValue(s[..n]);
    if v > 255 then Bad(OctalRange) else Char(v as char, s[n..])
  }

  /** What follows a backslash in a double-quoted string.  A hexadecimal escape takes all the
      digits there are, an octal one up to three. */
  function Escape(s: string): (r: Escaped)
    ensures r.Char? ==> |r.rest| < |s|
  {
    if s == "" then Bad(OutOfRange)
    else if IsSimple(s[0]) then Char(Simple(s[0]), s[1..])
    else if s[0] == 'x' then HexEscape(s[1..], HexRun(s[1..]))
    else if IsOctal(s[0]) then OctalEscape(s, OctalRun(s, 3))
    else Bad(BadEscape)
  }

  function Cons(c: char, scan: Scan): Scan {
    match scan
    case Done(rest, bit) => Done(rest, [c] + bit)
    case Failed(e) => Failed(e)
  }

  /** The string after an opening quote `q`, up to and including the closing one. */
  function Body(s: string, q: char): (r: Scan)
    ensures r.Done? ==> |r.rest| < |s|
    decreases |s|
  {
    if s == "" then Failed(Unterminated)
    else if s[0] == q then Done(s[1..], "")
    else if s[0] != '\\' || q == '\'' then Cons(s[0], Body(s[1..], q))
    else match Escape(s[1..])
      case Char(c, rest) => Cons(c, Body(rest, q))
      case Bad(e) => Failed(e)
  }

  /** The length of a bare token. */
  function BareRun(s: string): (n: nat)
    ensures n <= |s| && ' ' !in s[..n] && (n < |s| ==> s[n] == ' ')
  {
    if s == "" || s[0] == ' ' then 0 else 1 + BareRun(s[1..])
  }

  function Prepend(bit: string, more: Tokens): Tokens {
    match more
    case Tokens(bits) => Tokens([bit] + bits)
    case Rejected(e) => Rejected(e)
  }

  predicate IsQuote(c: char) { c == '"' || c == '\'' }

  function Split(s: string): Tokens
    decreases |s|
  {
    if s == "" || s[0] == '#' then Tokens([])
    else if s[0] == ' ' then Split(s[1..])
    else if IsQuote(s[0]) then
      match Body(s[1..], s[0])
      case Done(rest, bit) => Prepend(bit, Split(rest))
      case Failed(e) => Rejected(e)
    else
      var n := 1 + BareRun(s[1..]);
      Prepend(s[..n], Split(s[n..]))
  }

  /** Whether reading `s` comes to a comment. */
  predicate Commented(s: string)
    decreases |s|
  {
    if s == "" then false
    else if s[0] == '#' then true
    else if s[0] == ' ' then Commented(s[1..])
    else if IsQuote(s[0]) then
      var r := Body(s[1..], s[0]);
      r.Done? && Commented(r.rest)
    else
      Commented(s[1 + BareRun(s[1..])..])
  }
}
