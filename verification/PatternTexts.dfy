/** From the text of an exemption to the addresses it matches, in numbers. */
module PatternTexts {
  import opened Wrappers
  import opened Arithmetic
  import opened Addresses

  // ----- High and low parts -----

  lemma DivideSum(hi: nat, lo: nat, c: nat, d: nat)
    requires 0 < d
    ensures (hi * (c * d) + lo) / d == hi * c + lo / d
    ensures (hi * (c * d) + lo) % d == lo % d
  {
    var q, r := lo / d, lo % d;
    assert lo == q * d + r;
    MulAssoc(hi, c, d);
    Distribute(hi * c, q, d);
    DivUnique(hi * (c * d) + lo, d, hi * c + q, r);
  }

  lemma QuotientBelow(lo: nat, c: nat, d: nat)
    requires 0 < d && lo < c * d
    ensures lo / d < c
  {
    var q := lo / d;
    assert lo == q * d + lo % d;
    if c <= q {
      MulMono(c, q, d);
    }
  }

  lemma BlockNumber(h: nat, l: nat, c: nat, d: nat) returns (x: nat)
    requires 0 < d && l < c * d
    ensures 0 < c && x == (h * (c * d) + l) / d && x / c == h && x % c == l / d
  {
    DivideSum(h, l, c, d);
    QuotientBelow(l, c, d);
    x := h * c + l / d;
    DivUnique(x, c, h, l / d);
  }

  /** Numbers in the same block of size `d` have the same high part, and low parts in the same
      block. */
  lemma SameBlock(h1: nat, l1: nat, h2: nat, l2: nat, c: nat, d: nat)
    requires 0 < d && l1 < c * d && l2 < c * d
    ensures (h1 * (c * d) + l1) / d == (h2 * (c * d) + l2) / d <==> h1 == h2 && l1 / d == l2 / d
  {
    var x1 := BlockNumber(h1, l1, c, d);
    var x2 := BlockNumber(h2, l2, c, d);
  }

  lemma {:induction false} NumSplit(ds: seq<nat>, es: seq<nat>)
    ensures Num(ds + es) == Num(ds) * Pow2(8 * |es|) + Num(es)
  {
    if ds == [] {
      assert ds + es == es;
    } else {
      var n, p := |ds| - 1, Pow2(8 * |es|);
      NumSplit(ds[1..], es);
      assert (ds + es)[1..] == ds[1..] + es && (ds + es)[0] == ds[0];
      Pow2Add(8 * n, 8 * |es|);
      MulAssoc(ds[0], Pow2(8 * n), p);
      Distribute(ds[0] * Pow2(8 * n), Num(ds[1..]), p);
    }
  }

  lemma DigitsConcat(s: Bytes, t: Bytes)
    ensures Digits(s + t) == Digits(s) + Digits(t)
  {
    forall i | 0 <= i < |s + t|
      ensures Digits(s + t)[i] == (Digits(s) + Digits(t))[i]
    {
      assert (s + t)[i] == if i < |s| then s[i] else t[i - |s|];
    }
  }

  lemma ValueSplit(s: Bytes, t: Bytes)
    ensures Value(s + t) == Value(s) * Pow2(8 * |t|) + Value(t)
    ensures Value(t) < Pow2(8 * |t|)
  {
    DigitsConcat(s, t);
    NumSplit(Digits(s), Digits(t));
    DigitsAreDigits(t);
    NumBound(Digits(t));
  }

  // ----- The mapped block -----

  function Quad(q: (bv8, bv8, bv8, bv8)): Bytes {
    [q.0, q.1, q.2, q.3]
  }

  const PREFIX: Bytes := [0, 0, 0, 0, 0, 0, 0, 0, 0, 0, 0xFF, 0xFF]

  lemma MappedIsPrefix(a: Addr)
    ensures IsMapped(a) <==> a[..12] == PREFIX
  {
    assert forall n :: 0 <= n < 12 ==> a[..12][n] == a[n];
  }

  lemma MappedSplits(q: (bv8, bv8, bv8, bv8))
    ensures V4Mapped(q)[..12] == PREFIX && V4Mapped(q)[12..] == Quad(q)
  {
  }

  lemma Halves(a: Addr)
    ensures Value(a) == Value(a[..12]) * Pow2(32) + Value(a[12..]) && Value(a[12..]) < Pow2(32)
  {
    assert a == a[..12] + a[12..];
    ValueSplit(a[..12], a[12..]);
  }

  /** `SameBlock` and `DivideSum` for four low bytes of which `n` bits count. */
  lemma LowBits(v: nat, w: nat, h1: nat, l1: nat, h2: nat, l2: nat, n: nat)
    requires n <= 32 && l1 < Pow2(32) && l2 < Pow2(32)
    requires v == h1 * Pow2(32) + l1 && w == h2 * Pow2(32) + l2
    ensures v / Pow2(32 - n) == w / Pow2(32 - n) <==> h1 == h2 && l1 / Pow2(32 - n) == l2 / Pow2(32 - n)
    ensures w % Pow2(32 - n) == l2 % Pow2(32 - n)
  {
    Pow2Add(n, 32 - n);
    SameBlock(h1, l1, h2, l2, Pow2(n), Pow2(32 - n));
    DivideSum(h2, l2, Pow2(n), Pow2(32 - n));
  }

  lemma MappedHigh(a: Addr)
    ensures Value(a[..12]) == Value(PREFIX) <==> IsMapped(a)
  {
    MappedIsPrefix(a);
    ValueOrder(a[..12], PREFIX);
  }

  lemma MappedHalves(q: (bv8, bv8, bv8, bv8))
    ensures Value(V4Mapped(q)) == Value(PREFIX) * Pow2(32) + Value(Quad(q)) && Value(Quad(q)) < Pow2(32)
  {
    MappedSplits(q);
    Halves(V4Mapped(q));
  }

  /** What `InNetwork` and `HostBitsZero` say when only low bits are left out. */
  lemma LastBits(network: Addr, n: nat, a: Addr)
    requires n <= 32
    ensures InNetwork(network, n + 96, a) <==> Value(a) / Pow2(32 - n) == Value(network) / Pow2(32 - n)
    ensures HostBitsZero(network, n + 96) <==> Value(network) % Pow2(32 - n) == 0
  {
    assert 128 - (n + 96) == 32 - n;
  }

  /** Agreeing with a v4-mapped address in 96 bits and `n` more. */
  lemma InMappedNetwork(q: (bv8, bv8, bv8, bv8), n: nat, a: Addr)
    requires n <= 32
    ensures InNetwork(V4Mapped(q), n + 96, a) <==>
      IsMapped(a) && Value(a[12..]) / Pow2(32 - n) == Value(Quad(q)) / Pow2(32 - n)
    ensures HostBitsZero(V4Mapped(q), n + 96) <==> Value(Quad(q)) % Pow2(32 - n) == 0
  {
    var b := V4Mapped(q);
    var v, w, h1, l1, h2, l2 := Value(a), Value(b), Value(a[..12]), Value(a[12..]), Value(PREFIX), Value(Quad(q));
    assert v == h1 * Pow2(32) + l1 && l1 < Pow2(32) by { Halves(a); }
    assert w == h2 * Pow2(32) + l2 && l2 < Pow2(32) by { MappedHalves(q); }
    assert h1 == h2 <==> IsMapped(a) by { MappedHigh(a); }
    LowBits(v, w, h1, l1, h2, l2, n);
    LastBits(b, n, a);
  }

  // ----- Texts -----

  /** What the documentation promises of an exemption: a single address, or all addresses that
      begin like it; but a network matches only if it is written without host bits. */
  ghost predicate Means(text: AddressText, mask: MaskText, a: Addr) {
    match text
    case Colon(Some(six)) =>
      (match mask
       case Absent => a == six
       case Number(n) => 0 <= n <= 128 && InNetwork(six, n, a) && HostBitsZero(six, n)
       case _ => false)
    case Dotted(Some(q)) =>
      IsMapped(a) &&
      (match mask
       case Absent => a[12..] == Quad(q)
       case Number(n) =>
         && 0 <= n <= 32
         && Value(a[12..]) / Pow2(32 - n) == Value(Quad(q)) / Pow2(32 - n)
         && Value(Quad(q)) % Pow2(32 - n) == 0
       case _ => false)
    case _ => false
  }

  /** Which mask texts are refused: those that are no number, and lengths that the kind of
      address does not have. */
  predicate Refused(text: AddressText, mask: MaskText) {
    match mask
    case Absent => false
    case Number(n) => n < 0 || (text.Colon? && 128 < n) || (text.Dotted? && 32 < n)
    case OutOfRange => true
    case Malformed => true
  }

  /** The whole address. */
  lemma AllBits(network: Addr, a: Addr)
    ensures Matches(network, Mask(128, 16), a) <==> a == network
  {
    MatchesIsArithmetic(network, 128, a);
    ValueOrder(network, a);
    assert Pow2(0) == 1;
  }

  lemma MappedIsQuad(q: (bv8, bv8, bv8, bv8), a: Addr)
    ensures a == V4Mapped(q) <==> IsMapped(a) && a[12..] == Quad(q)
  {
    MappedSplits(q);
    MappedIsPrefix(a);
    assert a == a[..12] + a[12..];
    assert V4Mapped(q) == V4Mapped(q)[..12] + V4Mapped(q)[12..];
  }

  /** A text is refused exactly for its mask, and a pattern made from one that is not matches
      exactly the addresses that it means. */
  lemma PatternMeans(text: AddressText, mask: MaskText, a: Addr)
    requires Parsed(text).Some?
    ensures MaskBits(text, mask).None? <==> Refused(text, mask)
    ensures MaskBits(text, mask).Some? ==>
      MaskBits(text, mask).value <= 128 &&
      (Matches(Parsed(text).value, Mask(MaskBits(text, mask).value, 16), a) <==> Means(text, mask, a))
  {
    if MaskBits(text, mask).Some? {
      var network, k := Parsed(text).value, MaskBits(text, mask).value;
      if mask.Absent? {
        AllBits(network, a);
        if text.Dotted? {
          MappedIsQuad(text.four.value, a);
        }
      } else {
        MatchesIsArithmetic(network, k, a);
        if text.Dotted? {
          InMappedNetwork(text.four.value, mask.n, a);
        }
      }
    }
  }

  /** The same for all addresses at once; and the address that a text is parsed to is the one
      that the text alone means. */
  lemma AllMean(text: AddressText, mask: MaskText)
    requires Parsed(text).Some?
    ensures MaskBits(text, mask).None? <==> Refused(text, mask)
    ensures MaskBits(text, mask).Some? ==>
      forall a: Addr :: Matches(Parsed(text).value, Mask(MaskBits(text, mask).value, 16), a) <==> Means(text, mask, a)
    ensures forall a: Addr :: Means(text, Absent, a) <==> a == Parsed(text).value
  {
    forall a: Addr
      ensures MaskBits(text, mask).None? <==> Refused(text, mask)
      ensures MaskBits(text, mask).Some? ==>
        (Matches(Parsed(text).value, Mask(MaskBits(text, mask).value, 16), a) <==> Means(text, mask, a))
      ensures Means(text, Absent, a) <==> a == Parsed(text).value
    {
      PatternMeans(text, mask, a);
      if text.Dotted? {
        MappedIsQuad(text.four.value, a);
      }
    }
    PatternMeans(text, mask, Parsed(text).value);
  }

  /** Mapped addresses are a block of the 128-bit numbers: section 2.5.5.2 of RFC 4291. */
  lemma MappedIsArithmetic(a: Addr)
    ensures IsMapped(a) <==> Value(a) / Pow2(32) == 0xFFFF
  {
    Halves(a);
    MappedIsPrefix(a);
    ValueOrder(a[..12], PREFIX);
    PrefixValue();
    DivUnique(Value(a), Pow2(32), Value(a[..12]), Value(a[12..]));
  }

  lemma {:induction false} ZerosValue(s: Bytes)
    requires forall i :: 0 <= i < |s| ==> s[i] == 0
    ensures Value(s) == 0
  {
    if s != [] {
      assert Digits(s)[1..] == Digits(s[1..]) && Digits(s)[0] == 0;
      ZerosValue(s[1..]);
    }
  }

  lemma OneByte(x: bv8)
    ensures Value([x]) == Octet(x)
  {
    assert Digits([x]) == [Octet(x)];
    assert Num([Octet(x)]) == Octet(x) * Pow2(0) + Num([]) by {
      assert [Octet(x)][1..] == [];
    }
  }

  lemma TwoBytes(x: bv8, y: bv8)
    ensures Value([x, y]) == Octet(x) * Pow2(8) + Octet(y)
  {
    assert [x, y] == [x] + [y];
    ValueSplit([x], [y]);
    OneByte(x);
    OneByte(y);
  }

  lemma Pow2Eight()
    ensures Pow2(8) == 256
  {
    assert Pow2(2) == 4;
    Pow2Add(2, 2);
    Pow2Add(4, 4);
  }

  lemma PrefixValue()
    ensures Value(PREFIX) == 0xFFFF
  {
    var zeros: Bytes, ones: Bytes := PREFIX[..10], [0xFF, 0xFF];
    assert PREFIX == zeros + ones;
    assert Value(zeros) == 0 by { ZerosValue(zeros); }
    assert Value(ones) == 0xFFFF by {
      TwoBytes(0xFF, 0xFF);
      OctetIs(0xFF);
      Pow2Eight();
    }
    ValueSplit(zeros, ones);
  }
}
