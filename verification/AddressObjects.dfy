/** Addresses and patterns as objects that hold sixteen-byte buffers. */
module AddressObjects {
  import opened Wrappers
  import opened Addresses
  import opened PatternTexts

  lemma IsV4Mapped(bytes: seq<bv8>, q: (bv8, bv8, bv8, bv8))
    requires |bytes| == 16 && bytes[10] == 0xFF && bytes[11] == 0xFF
    requires forall j :: 0 <= j < 10 ==> bytes[j] == 0
    requires bytes[12] == q.0 && bytes[13] == q.1 && bytes[14] == q.2 && bytes[15] == q.3
    ensures bytes == V4Mapped(q)
  {
    forall j | 0 <= j < 16
      ensures bytes[j] == V4Mapped(q)[j]
    {
    }
  }

  /** Fills `addr` from a text.  A text that inet_pton rejects leaves it alone. */
  method Convert(addr: array<bv8>, text: AddressText) returns (v: Option<int>)
    requires addr.Length == 16
    modifies addr
    ensures v == if Parsed(text).None? then None else if text.Colon? then Some(6) else Some(4)
    ensures addr[..] == if Parsed(text).Some? then Parsed(text).value else old(addr[..])
  {
    match text
    case Colon(six) =>
      if six.None? {
        return None;
      }
      for i := 0 to 16
        invariant forall j :: 0 <= j < i ==> addr[j] == six.value[j]
      {
        addr[i] := six.value[i];
      }
      return Some(6);
    case Dotted(four) =>
      if four.None? {
        return None;
      }
      addr[12], addr[13], addr[14], addr[15] := four.value.0, four.value.1, four.value.2, four.value.3;
      for i := 0 to 10
        invariant forall j :: 0 <= j < i ==> addr[j] == 0
        invariant addr[12] == four.value.0 && addr[13] == four.value.1
        invariant addr[14] == four.value.2 && addr[15] == four.value.3
      {
        addr[i] := 0;
      }
      addr[10], addr[11] := 0xFF, 0xFF;
      IsV4Mapped(addr[..], four.value);
      return Some(4);
  }

  class Address {
    const address: array<bv8>

    ghost predicate Valid() {
      address.Length == 16
    }

    constructor ()
      ensures Valid() && fresh(address) && address[..] == seq(16, _ => 0)
    {
      address := new bv8[16](_ => 0);
    }

    method Assign(text: AddressText) returns (r: Outcome)
      requires Valid()
      modifies address
      ensures r == if Parsed(text).Some? then Accepted else InvalidAddress
      ensures address[..] == if Parsed(text).Some? then Parsed(text).value else old(address[..])
      ensures r == Accepted ==> Means(text, Absent, address[..])
    {
      if Parsed(text).Some? {
        AllMean(text, Absent);
      }
      var v := Convert(address, text);
      r := if v.Some? then Accepted else InvalidAddress;
    }

    method Is4() returns (four: bool)
      requires Valid()
      ensures four <==> IsMapped(address[..])
    {
      var n := 0;
      while n < 10
        invariant 0 <= n <= 10
        invariant forall j :: 0 <= j < n ==> address[j] == 0
      {
        if address[n] != 0 {
          return false;
        }
        n := n + 1;
      }
      return address[10] == 0xFF && address[11] == 0xFF;
    }
  }

  class AddressPattern {
    const network: array<bv8>
    const mask: array<bv8>

    ghost predicate Valid() {
      network.Length == 16 && mask.Length == 16 && network != mask
    }

    /** The pattern that matches everything: no bits count. */
    constructor ()
      ensures Valid() && fresh(network) && fresh(mask)
      ensures network[..] == seq(16, _ => 0) && mask[..] == Mask(0, 16)
    {
      network := new bv8[16](_ => 0);
      mask := new bv8[16](_ => 0);
      new;
      PartialMasks();
    }

    /** The network is overwritten before the mask text is looked at, so a bad mask text
        leaves a pattern with the new network under the old mask. */
    method Assign(text: AddressText, maskText: MaskText) returns (r: Outcome)
      requires Valid()
      modifies network, mask
      ensures r ==
        if Parsed(text).None? then InvalidAddress
        else if MaskBits(text, maskText).None? then InvalidAddressPattern else Accepted
      ensures network[..] == if Parsed(text).Some? then Parsed(text).value else old(network[..])
      ensures mask[..] == if r == Accepted then Mask(MaskBits(text, maskText).value, 16) else old(mask[..])
      ensures r == InvalidAddressPattern <==> Parsed(text).Some? && Refused(text, maskText)
      ensures r == Accepted ==> forall a: Addr :: Matches(network[..], mask[..], a) <==> Means(text, maskText, a)
    {
      if Parsed(text).Some? {
        AllMean(text, maskText);
      }
      var v := Convert(network, text);
      if v.None? {
        return InvalidAddress;
      }
      var maskBits: int;
      match maskText {
        case Absent => maskBits := 128;
        case OutOfRange => return InvalidAddressPattern;
        case Malformed => return InvalidAddressPattern;
        case Number(n) =>
          maskBits := n;
          if maskBits < 0 {
            return InvalidAddressPattern;
          }
          if v == Some(4) {
            if maskBits > 32 {
              return InvalidAddressPattern;
            }
            maskBits := maskBits + 96;
          } else if maskBits > 128 {
            return InvalidAddressPattern;
          }
      }
      for n := 0 to 16
        invariant forall j :: 0 <= j < n ==> mask[j] == MaskByte(maskBits, j)
        invariant network[..] == Parsed(text).value
      {
        if n < maskBits / 8 {
          mask[n] := 0xFF;
        } else if n == maskBits / 8 {
          mask[n] := PartialMask(maskBits % 8);
        } else {
          mask[n] := 0;
        }
      }
      return Accepted;
    }

    method MatchesAddress(a: Address) returns (r: bool)
      requires Valid() && a.Valid()
      ensures r <==> Matches(network[..], mask[..], a.address[..])
    {
      ghost var both := And(a.address[..], mask[..]);
      for n := 0 to 16
        invariant forall j :: 0 <= j < n ==> both[j] == network[j]
      {
        if a.address[n] & mask[n] != network[n] {
          assert both[n] != network[..][n];
          return false;
        }
      }
      assert both == network[..];
      return true;
    }
  }
}
