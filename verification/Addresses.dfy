/** Addresses as sixteen bytes, the byte-wise mask of a pattern, and what both mean as
    128-bit numbers. */
module Addresses {
  import opened Wrappers
  import opened Arithmetic

  type Bytes = seq<bv8>
  type Addr = s: Bytes | |s| == 16 witness seq(16, _ => 0)

  // ----- Text forms -----

  /** An address after inet_pton: with a colon it is taken for IPv6, without for IPv4. */
  datatype AddressText = Colon(six: Option<Addr>) | Dotted(four: Option<(bv8, bv8, bv8, bv8)>)

  /** What follows the slash, after strtol. */
  datatype MaskText = Absent | OutOfRange | Malformed | Number(n: int)

  datatype Outcome = Accepted | InvalidAddress | InvalidAddressPattern

  /** Section 2.5.5.2 of RFC 4291. */
  function V4Mapped(q: (bv8, bv8, bv8, bv8)): Addr {
    [0, 0, 0, 0, 0, 0, 0, 0, 0, 0, 0xFF, 0xFF, q.0, q.1, q.2, q.3]
  }

  function Parsed(text: AddressText): Option<Addr> {
    match text
    case Colon(six) => six
    case Dotted(Some(q)) => Some(V4Mapped(q))
    case Dotted(None) => None
  }

  /** The number of leading bits that count, if the text gives one. */
  function MaskBits(text: AddressText, mask: MaskText): Option<nat> {
    match mask
    case Absent => Some(128)
    case Number(n) =>
      if n < 0 || n > (if text.Dotted? then 32 else 128) then None
      else Some(if text.Dotted? then n + 96 else n)
    case _ => None
  }

  // ----- Bytes -----

  /** `x << n` on a type wider than a byte. */
  function ShiftLeft(x: bv16, n: nat): bv16 {
    if n == 0 then x else ShiftLeft(x, n - 1) << 1
  }

  /** 0xFF shifted left as an int and cut down to a byte. */
  function PartialMask(r: nat): bv8
    requires r < 8
  {
    (ShiftLeft(0xFF, 8 - r) & 0xFF) as bv8
  }

  /** Byte `n` of the mask for `k` bits. */
  function MaskByte(k: nat, n: nat): bv8 {
    if n < k / 8 then 0xFF else if n == k / 8 then PartialMask(k % 8) else 0
  }

  function Mask(k: nat, len: nat): Bytes {
    seq(len, n requires 0 <= n => MaskByte(k, n))
  }

  function And(a: Bytes, m: Bytes): Bytes
    requires |a| == |m|
  {
    seq(|a|, i requires 0 <= i < |a| => a[i] & m[i])
  }

  /** memcmp(a, b) < 0 */
  predicate Less(a: Bytes, b: Bytes)
    requires |a| == |b|
  {
    a != [] && (a[0] < b[0] || (a[0] == b[0] && Less(a[1..], b[1..])))
  }

  predicate IsMapped(a: Addr) {
    (forall n :: 0 <= n < 10 ==> a[n] == 0) && a[10] == 0xFF && a[11] == 0xFF
  }

  predicate Matches(network: Addr, mask: Addr, a: Addr) {
    And(a, mask) == network
  }

  // ----- Numbers -----

  /** The value of a byte, by counting. */
  function Octet(x: bv8): nat
    decreases x
  {
    if x == 0 then 0 else 1 + Octet(x - 1)
  }

  function Digits(s: Bytes): (ds: seq<nat>)
    ensures |ds| == |s| && forall i :: 0 <= i < |s| ==> ds[i] == Octet(s[i])
  {
    seq(|s|, i requires 0 <= i < |s| => Octet(s[i]))
  }

  ghost predicate AreDigits(ds: seq<nat>) {
    forall i :: 0 <= i < |ds| ==> ds[i] < 256
  }

  /** The number with the given base-256 digits, the most significant first. */
  function Num(ds: seq<nat>): nat {
    if ds == [] then 0 else ds[0] * Pow2(8 * (|ds| - 1)) + Num(ds[1..])
  }

  function Value(s: Bytes): nat {
    Num(Digits(s))
  }

  /** `a` agrees with `network` in its first `k` bits: section 2.3 of RFC 4291 and section 3.1
      of RFC 4632. */
  predicate InNetwork(network: Addr, k: nat, a: Addr)
    requires k <= 128
  {
    Value(a) / Pow2(128 - k) == Value(network) / Pow2(128 - k)
  }

  predicate HostBitsZero(network: Addr, k: nat)
    requires k <= 128
  {
    Value(network) % Pow2(128 - k) == 0
  }

  lemma PredecessorIs(x: bv8)
    requires x != 0
    ensures (x - 1) as int == x as int - 1
  {
  }

  lemma {:induction false} OctetIs(x: bv8)
    ensures Octet(x) == x as int
    decreases x
  {
    if x != 0 {
      PredecessorIs(x);
      OctetIs(x - 1);
    }
  }

  lemma DigitsAreDigits(s: Bytes)
    ensures AreDigits(Digits(s))
  {
    forall i | 0 <= i < |s| ensures Digits(s)[i] < 256 { OctetIs(s[i]); }
  }

  lemma TwoFiftySix(n: nat)
    ensures Pow2(8) == 256 && Pow2(8 * (n + 1)) == 256 * Pow2(8 * n)
  {
    assert Pow2(4) == 16;
    Pow2Add(4, 4);
    Pow2Add(8, 8 * n);
  }

  lemma {:induction false} NumBound(ds: seq<nat>)
    requires AreDigits(ds)
    ensures Num(ds) < Pow2(8 * |ds|)
  {
    if ds != [] {
      NumBound(ds[1..]);
      TwoFiftySix(|ds| - 1);
      MulMono(ds[0], 255, Pow2(8 * (|ds| - 1)));
    }
  }

  predicate LessDigits(ds: seq<nat>, es: seq<nat>)
    requires |ds| == |es|
  {
    ds != [] && (ds[0] < es[0] || (ds[0] == es[0] && LessDigits(ds[1..], es[1..])))
  }

  lemma {:induction false} NumOrder(ds: seq<nat>, es: seq<nat>)
    requires AreDigits(ds) && AreDigits(es) && |ds| == |es|
    ensures Num(ds) == Num(es) <==> ds == es
    ensures Num(ds) < Num(es) <==> LessDigits(ds, es)
  {
    if ds != [] {
      NumOrder(ds[1..], es[1..]);
      NumBound(ds[1..]);
      NumBound(es[1..]);
      var p := Pow2(8 * (|ds| - 1));
      if ds[0] < es[0] {
        MulMono(ds[0] + 1, es[0], p);
        Distribute(ds[0], 1, p);
      } else if es[0] < ds[0] {
        MulMono(es[0] + 1, ds[0], p);
        Distribute(es[0], 1, p);
      } else {
        assert ds == [ds[0]] + ds[1..] && es == [es[0]] + es[1..];
      }
    }
  }

  lemma ByteOrder(x: bv8, y: bv8)
    ensures x < y <==> Octet(x) < Octet(y)
    ensures x == y <==> Octet(x) == Octet(y)
  {
    OctetIs(x);
    OctetIs(y);
  }

  lemma {:induction false} DigitsOrder(s: Bytes, t: Bytes)
    requires |s| == |t|
    ensures Less(s, t) <==> LessDigits(Digits(s), Digits(t))
  {
    if s != [] {
      ByteOrder(s[0], t[0]);
      DigitsOrder(s[1..], t[1..]);
      assert Digits(s)[1..] == Digits(s[1..]) && Digits(t)[1..] == Digits(t[1..]);
    }
  }

  lemma DigitsInjective(s: Bytes, t: Bytes)
    requires Digits(s) == Digits(t)
    ensures s == t
  {
    forall i | 0 <= i < |s|
      ensures s[i] == t[i]
    {
      assert Digits(s)[i] == Digits(t)[i];
      ByteOrder(s[i], t[i]);
    }
  }

  lemma ValueOrder(s: Bytes, t: Bytes)
    requires |s| == |t|
    ensures Value(s) == Value(t) <==> s == t
    ensures Value(s) < Value(t) <==> Less(s, t)
  {
    DigitsOrder(s, t);
    DigitsAreDigits(s);
    DigitsAreDigits(t);
    NumOrder(Digits(s), Digits(t));
    if Value(s) == Value(t) {
      DigitsInjective(s, t);
    }
  }

  /** The order that maps of addresses are kept in is the order of the numbers. */
  lemma OrderIsNumeric(a: Addr, b: Addr)
    ensures Less(a, b) <==> Value(a) < Value(b)
    ensures a == b <==> !Less(a, b) && !Less(b, a)
  {
    ValueOrder(a, b);
    ValueOrder(b, a);
  }

  function NthDigits(v: nat, len: nat): (ds: seq<nat>)
    ensures |ds| == len
    decreases len
  {
    if len == 0 then [] else
      var p := Pow2(8 * (len - 1));
      [Quot(v, p)] + NthDigits(Rem(v, p), len - 1)
  }

  lemma SmallQuot(v: nat, p: nat)
    requires 0 < p && v < 256 * p
    ensures Quot(v, p) < 256
  {
    QuotRem(v, p);
    if Quot(v, p) >= 256 {
      MulMono(256, Quot(v, p), p);
    }
  }

  lemma {:induction false} NthDigitsNum(v: nat, len: nat)
    requires v < Pow2(8 * len)
    ensures AreDigits(NthDigits(v, len)) && Num(NthDigits(v, len)) == v
    decreases len
  {
    if len != 0 {
      var p := Pow2(8 * (len - 1));
      TwoFiftySix(len - 1);
      SmallQuot(v, p);
      QuotRem(v, p);
      NthDigitsNum(Rem(v, p), len - 1);
      assert NthDigits(v, len)[1..] == NthDigits(Rem(v, p), len - 1);
    }
  }

  function ByteOf(d: nat): bv8 {
    if d == 0 then 0 else ByteOf(d - 1) + 1
  }

  lemma {:induction false} ByteOfDigit(d: nat)
    requires d < 256
    ensures Octet(ByteOf(d)) == d
  {
    if d != 0 {
      ByteOfDigit(d - 1);
      OctetIs(0xFF);
      assert ByteOf(d - 1) + 1 != 0;
    }
  }

  /** The bytes with a given number. */
  function Nth(v: nat, len: nat): (s: Bytes)
    ensures |s| == len
  {
    var ds := NthDigits(v, len);
    seq(len, i requires 0 <= i < len => ByteOf(ds[i]))
  }

  lemma NthValue(v: nat, len: nat)
    requires v < Pow2(8 * len)
    ensures Value(Nth(v, len)) == v
  {
    NthDigitsNum(v, len);
    var ds := NthDigits(v, len);
    forall i | 0 <= i < len
      ensures Digits(Nth(v, len))[i] == ds[i]
    {
      ByteOfDigit(ds[i]);
    }
    assert Digits(Nth(v, len)) == ds;
  }

  // ----- Masking a byte -----

  lemma PartialMasks()
    ensures PartialMask(0) == 0 && PartialMask(1) == 0x80 && PartialMask(2) == 0xC0 && PartialMask(3) == 0xE0
    ensures PartialMask(4) == 0xF0 && PartialMask(5) == 0xF8 && PartialMask(6) == 0xFC && PartialMask(7) == 0xFE
  {
    assert ShiftLeft(0xFF, 1) == 0x1FE && ShiftLeft(0xFF, 2) == 0x3FC;
    assert ShiftLeft(0xFF, 3) == 0x7F8 && ShiftLeft(0xFF, 4) == 0xFF0;
    assert ShiftLeft(0xFF, 5) == 0x1FE0 && ShiftLeft(0xFF, 6) == 0x3FC0;
    assert ShiftLeft(0xFF, 7) == 0x7F80 && ShiftLeft(0xFF, 8) == 0xFF00;
  }

  lemma Keep1(a: bv8) ensures (a & 0x80) as int == a as int / 128 * 128 {}
  lemma Keep2(a: bv8) ensures (a & 0xC0) as int == a as int / 64 * 64 {}
  lemma Keep3(a: bv8) ensures (a & 0xE0) as int == a as int / 32 * 32 {}
  lemma Keep4(a: bv8) ensures (a & 0xF0) as int == a as int / 16 * 16 {}
  lemma Keep5(a: bv8) ensures (a & 0xF8) as int == a as int / 8 * 8 {}
  lemma Keep6(a: bv8) ensures (a & 0xFC) as int == a as int / 4 * 4 {}
  lemma Keep7(a: bv8) ensures (a & 0xFE) as int == a as int / 2 * 2 {}
  lemma KeepAll(a: bv8) ensures a & 0 == 0 && a & 0xFF == a {}

  /** `x` with all but its first `r` bits cleared. */
  function Round(x: nat, r: nat): nat
    requires r <= 8
  {
    Floor(x, Pow2(8 - r))
  }

  function Tops(x: nat, r: nat): nat
    requires r < 8
  {
    match r
    case 0 => 0
    case 1 => x / 128 * 128
    case 2 => x / 64 * 64
    case 3 => x / 32 * 32
    case 4 => x / 16 * 16
    case 5 => x / 8 * 8
    case 6 => x / 4 * 4
    case _ => x / 2 * 2
  }

  lemma TopsRound(x: nat, r: nat)
    requires r < 8 && x < 256
    ensures Tops(x, r) == Round(x, r)
  {
    assert Pow2(1) == 2 && Pow2(2) == 4 && Pow2(3) == 8 && Pow2(4) == 16;
    assert Pow2(5) == 32 && Pow2(6) == 64 && Pow2(7) == 128 && Pow2(8) == 256;
    QuotRem(x, Pow2(8 - r));
  }

  lemma PartialMaskTops(a: bv8, r: nat)
    requires r < 8
    ensures Octet(a & PartialMask(r)) == Tops(Octet(a), r)
  {
    PartialMasks();
    OctetIs(a);
    OctetIs(a & PartialMask(r));
    match r
    case 0 => KeepAll(a);
    case 1 => Keep1(a);
    case 2 => Keep2(a);
    case 3 => Keep3(a);
    case 4 => Keep4(a);
    case 5 => Keep5(a);
    case 6 => Keep6(a);
    case 7 => Keep7(a);
  }

  // ----- Masking an address -----

  function Beyond(k: nat): nat { if k < 8 then 0 else k - 8 }

  /** Digits with all but the first `k` bits cleared. */
  function RoundDigits(ds: seq<nat>, k: nat): (r: seq<nat>)
    ensures |r| == |ds|
  {
    if ds == [] then [] else [Round(ds[0], if k < 8 then k else 8)] + RoundDigits(ds[1..], Beyond(k))
  }

  lemma MaskTail(k: nat, len: nat)
    requires 0 < len
    ensures Mask(k, len)[1..] == Mask(Beyond(k), len - 1)
  {
    PartialMasks();
    forall n | 0 <= n < len - 1
      ensures Mask(k, len)[1..][n] == MaskByte(Beyond(k), n)
    {
    }
  }

  lemma AndTail(s: Bytes, k: nat)
    requires s != []
    ensures And(s, Mask(k, |s|)) == [s[0] & MaskByte(k, 0)] + And(s[1..], Mask(Beyond(k), |s| - 1))
  {
    MaskTail(k, |s|);
    var m := Mask(k, |s|);
    forall i | 1 <= i < |s|
      ensures m[i] == Mask(Beyond(k), |s| - 1)[i - 1]
    {
      assert m[i] == m[1..][i - 1];
    }
  }

  lemma DigitsTail(x: bv8, s: Bytes)
    ensures Digits([x] + s) == [Octet(x)] + Digits(s)
  {
  }

  lemma MaskHead(x: bv8, k: nat)
    ensures Octet(x & MaskByte(k, 0)) == Round(Octet(x), if k < 8 then k else 8)
  {
    if k < 8 {
      PartialMaskTops(x, k);
      OctetIs(x);
      TopsRound(Octet(x), k);
    } else {
      KeepAll(x);
      assert Pow2(0) == 1;
      FloorOne(Octet(x));
    }
  }

  lemma {:induction false} MaskIsRounding(s: Bytes, k: nat)
    ensures Digits(And(s, Mask(k, |s|))) == RoundDigits(Digits(s), k)
  {
    if s != [] {
      AndTail(s, k);
      DigitsTail(s[0] & MaskByte(k, 0), And(s[1..], Mask(Beyond(k), |s| - 1)));
      DigitsTail(s[0], s[1..]);
      assert s == [s[0]] + s[1..];
      MaskHead(s[0], k);
      MaskIsRounding(s[1..], Beyond(k));
    }
  }

  /** The first digit stays, and what lies below it is rounded. */
  lemma RoundBelow(hi: nat, lo: nat, n: nat, k: nat)
    requires 8 <= k <= 8 * (n + 1)
    ensures Floor(hi * Pow2(8 * n) + lo, Pow2(8 * (n + 1) - k))
      == Round(hi, 8) * Pow2(8 * n) + Floor(lo, Pow2(8 * n - (k - 8)))
  {
    Pow2Add(k - 8, 8 * (n + 1) - k);
    FloorOfSum(hi, lo, Pow2(8 * n), Pow2(8 * (n + 1) - k), Pow2(k - 8));
    FloorOne(hi);
  }

  /** The first digit is rounded, and what lies below it goes. */
  lemma RoundHere(hi: nat, lo: nat, n: nat, k: nat)
    requires k < 8 && lo < Pow2(8 * n)
    ensures Floor(hi * Pow2(8 * n) + lo, Pow2(8 * (n + 1) - k))
      == Round(hi, k) * Pow2(8 * n) + Floor(lo, Pow2(8 * n))
  {
    FloorSmall(lo, Pow2(8 * n));
    Pow2Add(8 - k, 8 * n);
    FloorOfHigh(hi, lo, Pow2(8 * n), Pow2(8 - k));
  }

  lemma NumOfRounded(ds: seq<nat>, k: nat)
    requires ds != []
    ensures Num(RoundDigits(ds, k))
      == Round(ds[0], if k < 8 then k else 8) * Pow2(8 * (|ds| - 1)) + Num(RoundDigits(ds[1..], Beyond(k)))
  {
    assert RoundDigits(ds, k)[1..] == RoundDigits(ds[1..], Beyond(k));
  }

  /** One digit more in front. */
  lemma RoundOneMore(hi: nat, lo: nat, n: nat, k: nat)
    requires lo < Pow2(8 * n) && k <= 8 * (n + 1)
    ensures Beyond(k) <= 8 * n
    ensures Round(hi, if k < 8 then k else 8) * Pow2(8 * n) + Floor(lo, Pow2(8 * n - Beyond(k)))
      == Floor(hi * Pow2(8 * n) + lo, Pow2(8 * (n + 1) - k))
  {
    if 8 <= k {
      RoundBelow(hi, lo, n, k);
    } else {
      RoundHere(hi, lo, n, k);
    }
  }

  /** Clearing all but the first `k` bits rounds the number down to a multiple of what the
      other bits can hold. */
  lemma {:induction false} RoundingRounds(ds: seq<nat>, k: nat, len: nat)
    requires AreDigits(ds) && len == |ds| && k <= 8 * len
    ensures Num(RoundDigits(ds, k)) == Floor(Num(ds), Pow2(8 * len - k))
    decreases len
  {
    if len != 0 {
      var lo, n := Num(ds[1..]), len - 1;
      NumBound(ds[1..]);
      RoundOneMore(ds[0], lo, n, k);
      assert Num(RoundDigits(ds[1..], Beyond(k))) == Floor(lo, Pow2(8 * n - Beyond(k))) by {
        RoundingRounds(ds[1..], Beyond(k), n);
      }
      NumOfRounded(ds, k);
    }
  }

  lemma MaskRounds(s: Bytes, k: nat)
    requires k <= 8 * |s|
    ensures Value(And(s, Mask(k, |s|))) == Floor(Value(s), Pow2(8 * |s| - k))
  {
    var ds := Digits(s);
    assert Num(RoundDigits(ds, k)) == Floor(Num(ds), Pow2(8 * |s| - k)) by {
      DigitsAreDigits(s);
      RoundingRounds(ds, k, |s|);
    }
    MaskIsRounding(s, k);
  }

  // ----- Patterns -----

  /** The code's byte-by-byte test is integer arithmetic. */
  lemma MatchesIsArithmetic(network: Addr, k: nat, a: Addr)
    requires k <= 128
    ensures Matches(network, Mask(k, 16), a) <==> InNetwork(network, k, a) && HostBitsZero(network, k)
  {
    MaskRounds(a, k);
    ValueOrder(And(a, Mask(k, 16)), network);
    FloorIs(Value(a), Value(network), Pow2(128 - k));
  }

  /** A pattern is the network it is written as exactly when the part of the address outside
      the mask is zero; otherwise it is the pattern that nothing matches, not even the address
      it is written with. */
  lemma PatternIsNetworkIff(network: Addr, k: nat)
    requires k <= 128
    ensures (forall a: Addr :: Matches(network, Mask(k, 16), a) <==> InNetwork(network, k, a))
      <==> HostBitsZero(network, k)
    ensures !HostBitsZero(network, k) ==>
      InNetwork(network, k, network) && forall a: Addr :: !Matches(network, Mask(k, 16), a)
  {
    forall a: Addr
      ensures Matches(network, Mask(k, 16), a) <==> InNetwork(network, k, a) && HostBitsZero(network, k)
    {
      MatchesIsArithmetic(network, k, a);
    }
    assert InNetwork(network, k, network);
  }

  /** 127.0.0.1/8 does not exempt 127.0.0.1, nor anything else. */
  lemma HostBitsExample()
    ensures var text := Dotted(Some((127 as bv8, 0 as bv8, 0 as bv8, 1 as bv8)));
      var a := Parsed(text).value;
      MaskBits(text, Number(8)) == Some(104) && !HostBitsZero(a, 104) && !Matches(a, Mask(104, 16), a)
  {
    var a := V4Mapped((127, 0, 0, 1));
    assert And(a, Mask(104, 16))[15] == a[15] & MaskByte(104, 15) == 0;
    assert a[15] == 1;
    MatchesIsArithmetic(a, 104, a);
  }

  /** A pattern with no host bits matches an interval of the map's order. */
  lemma MatchesIsInterval(network: Addr, k: nat, a: Addr)
    requires k <= 128 && HostBitsZero(network, k)
    ensures Matches(network, Mask(k, 16), a)
      <==> Value(network) <= Value(a) < Value(network) + Pow2(128 - k)
  {
    MatchesIsArithmetic(network, k, a);
    BlockIsInterval(Value(a), Value(network), Pow2(128 - k));
  }

  /** Of two patterns without host bits, the narrower lies within the wider or apart from it. */
  lemma PatternsAreLaminar(n1: Addr, k1: nat, n2: Addr, k2: nat, a: Addr, b: Addr)
    requires k1 <= k2 <= 128 && HostBitsZero(n1, k1) && HostBitsZero(n2, k2)
    requires Matches(n1, Mask(k1, 16), a) && Matches(n2, Mask(k2, 16), a)
    ensures Matches(n2, Mask(k2, 16), b) ==> Matches(n1, Mask(k1, 16), b)
  {
    var d1, d2 := Pow2(128 - k1), Pow2(128 - k2);
    Pow2Add(k2 - k1, 128 - k2);
    MatchesIsInterval(n1, k1, a);
    MatchesIsInterval(n2, k2, a);
    MatchesIsInterval(n1, k1, b);
    MatchesIsInterval(n2, k2, b);
    AlignedBlocksNest(Value(n1), d1, Value(n2), d2, Pow2(k2 - k1), Value(a));
  }

  /** Block number `q` of size `d` meets those from `lo` to `hi`, so it is one of them. */
  lemma BlockAmong(lo: nat, hi: nat, q: nat, d: nat, v: nat)
    requires lo * d <= v < hi * d && q * d <= v < (q + 1) * d
    ensures lo * d <= q * d && (q + 1) * d <= hi * d
  {
    if q < lo {
      MulMono(q + 1, lo, d);
    } else if hi <= q {
      MulMono(hi, q, d);
    } else {
      MulMono(lo, q, d);
      MulMono(q + 1, hi, d);
    }
  }

  /** A block that meets a larger one, of `c` times its size, does not stick out of it. */
  lemma AlignedBlocksNest(n1: nat, d1: nat, n2: nat, d2: nat, c: nat, v: nat)
    requires 0 < d2 && 0 < c && d1 == c * d2 && n1 % d1 == 0 && n2 % d2 == 0
    requires n1 <= v < n1 + d1 && n2 <= v < n2 + d2
    ensures n1 <= n2 && n2 + d2 <= n1 + d1
  {
    var q1, q2 := n1 / d1, n2 / d2;
    var lo := q1 * c;
    assert n1 == lo * d2 by { MulAssoc(q1, c, d2); }
    assert n1 + d1 == (lo + c) * d2 by { Distribute(lo, c, d2); }
    assert n2 == q2 * d2;
    assert n2 + d2 == (q2 + 1) * d2 by { Distribute(q2, 1, d2); }
    BlockAmong(lo, lo + c, q2, d2, v);
  }

  /** The addresses numbered from `lo`, `n` of them. */
  ghost function Stretch(lo: nat, n: nat, len: nat): set<Bytes> {
    if n == 0 then {} else Stretch(lo, n - 1, len) + {Nth(lo + n - 1, len)}
  }

  lemma {:induction false} StretchMember(lo: nat, n: nat, len: nat, a: Bytes)
    requires lo + n <= Pow2(8 * len)
    ensures a in Stretch(lo, n, len) <==> |a| == len && lo <= Value(a) < lo + n
  {
    if n != 0 {
      StretchMember(lo, n - 1, len, a);
      NthValue(lo + n - 1, len);
      if |a| == len {
        ValueOrder(a, Nth(lo + n - 1, len));
      }
    }
  }

  lemma {:induction false} StretchSize(lo: nat, n: nat, len: nat)
    requires lo + n <= Pow2(8 * len)
    ensures |Stretch(lo, n, len)| == n
  {
    if n != 0 {
      var last := Nth(lo + n - 1, len);
      NthValue(lo + n - 1, len);
      StretchMember(lo, n - 1, len, last);
      StretchSize(lo, n - 1, len);
    }
  }

  /** The addresses a pattern matches. */
  ghost function Members(network: Bytes, k: nat): set<Bytes>
    requires k <= 8 * |network|
  {
    Stretch(Value(network), Pow2(8 * |network| - k), |network|)
  }

  lemma MembersAre(network: Bytes, k: nat, a: Bytes)
    requires k <= 8 * |network| && Value(network) % Pow2(8 * |network| - k) == 0
    ensures |Members(network, k)| == Pow2(8 * |network| - k)
    ensures a in Members(network, k) <==>
      |a| == |network| && Value(network) <= Value(a) < Value(network) + Pow2(8 * |network| - k)
  {
    var len, d := |network|, Pow2(8 * |network| - k);
    DigitsAreDigits(network);
    NumBound(Digits(network));
    Pow2Add(k, 8 * len - k);
    BlockFits(Value(network), d, Pow2(k));
    StretchSize(Value(network), d, len);
    StretchMember(Value(network), d, len, a);
  }

  /** A pattern without host bits matches 2^(128-k) addresses: no more, no fewer. */
  lemma PatternSize(network: Addr, k: nat, a: Addr)
    requires k <= 128 && HostBitsZero(network, k)
    ensures |Members(network, k)| == Pow2(128 - k)
    ensures a in Members(network, k) <==> Matches(network, Mask(k, 16), a)
  {
    MembersAre(network, k, a);
    MatchesIsInterval(network, k, a);
  }

  lemma BlockFits(n: nat, d: nat, c: nat)
    requires 0 < d && n % d == 0 && n < c * d
    ensures n + d <= c * d
  {
    var q := n / d;
    if c <= q {
      MulMono(c, q, d);
    }
    MulMono(q + 1, c, d);
    Distribute(q, 1, d);
  }

  // ----- IPv4 -----

  /** A pattern written as IPv4 matches only IPv4 addresses. */
  lemma V4PatternMatchesV4(text: AddressText, mask: MaskText, a: Addr)
    requires text.Dotted? && Parsed(text).Some? && MaskBits(text, mask).Some?
    requires Matches(Parsed(text).value, Mask(MaskBits(text, mask).value, 16), a)
    ensures IsMapped(a)
  {
    var network, k := Parsed(text).value, MaskBits(text, mask).value;
    assert k / 8 >= 12;
    forall n | 0 <= n < 12
      ensures a[n] == network[n]
    {
      assert And(a, Mask(k, 16))[n] == a[n] & 0xFF;
      KeepAll(a[n]);
    }
  }

  /** 0.0.0.0/0 is the block of v4-mapped addresses, all of it and nothing else. */
  lemma AllOfV4(a: Addr)
    ensures var text := Dotted(Some((0 as bv8, 0 as bv8, 0 as bv8, 0 as bv8)));
      MaskBits(text, Number(0)) == Some(96) &&
      (Matches(Parsed(text).value, Mask(96, 16), a) <==> IsMapped(a))
  {
    var network := V4Mapped((0, 0, 0, 0));
    var both := And(a, Mask(96, 16));
    PartialMasks();
    forall n | 0 <= n < 16
      ensures both[n] == if n < 12 then a[n] else 0
    {
      KeepAll(a[n]);
    }
    if IsMapped(a) {
      assert both == network;
    }
  }
}
