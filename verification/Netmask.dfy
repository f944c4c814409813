/** `netmaskToCIDR` of cmd/void-init/network.go together with the library loop it rests on
    (`IPMask.Size`), for masks of any length, against the prefix notation of RFC 4632 section 3.1. */
module Netmask {
  import opened Options

  type Mask = seq<bv8>

  // ---------------------------------------------------------------- bits

  /** The bits of a byte, most significant first. */
  function ByteBits(v: bv8): (r: seq<bool>)
    ensures |r| == 8
  {
    [v & 0x80 != 0, v & 0x40 != 0, v & 0x20 != 0, v & 0x10 != 0,
     v & 0x08 != 0, v & 0x04 != 0, v & 0x02 != 0, v & 0x01 != 0]
  }

  function Bit(mask: Mask, p: nat): bool
    requires p < 8 * |mask|
  {
    ByteBits(mask[p / 8])[p % 8]
  }

  /** The bits of the mask are n ones followed by zeros. */
  predicate OnesThenZeros(mask: Mask, n: nat) {
    n <= 8 * |mask| && forall p | 0 <= p < 8 * |mask| :: Bit(mask, p) == (p < n)
  }

  /** The byte with k leading ones. */
  function PrefixByte(k: nat): bv8 {
    match k
    case 0 => 0x00 case 1 => 0x80 case 2 => 0xC0 case 3 => 0xE0 case 4 => 0xF0
    case 5 => 0xF8 case 6 => 0xFC case 7 => 0xFE case _ => 0xFF
  }

  lemma PrefixByteBits(v: bv8, k: nat)
    requires k <= 8
    ensures v == PrefixByte(k) <==> forall j | 0 <= j < 8 :: ByteBits(v)[j] == (j < k)
  {
    var b := ByteBits(v);
    assert (forall j | 0 <= j < 8 :: b[j] == (j < k)) <==>
           (b[0] == (0 < k) && b[1] == (1 < k) && b[2] == (2 < k) && b[3] == (3 < k) &&
            b[4] == (4 < k) && b[5] == (5 < k) && b[6] == (6 < k) && b[7] == (7 < k));
  }

  // ---------------------------------------------------------------- bytes

  function Clamp(n: int): nat {
    if n < 0 then 0 else if n > 8 then 8 else n
  }

  /** The mask with n leading ones, byte by byte: what rebuilding it from the prefix length gives. */
  function FromPrefix(n: nat, length: nat): (r: Mask)
    ensures |r| == length
  {
    seq(length, i requires 0 <= i => PrefixByte(Clamp(n - 8 * i)))
  }

  /** Ones followed by zeros is the mask rebuilt from the number of ones. */
  lemma OnesThenZerosIsPrefix(mask: Mask, n: nat)
    requires n <= 8 * |mask|
    ensures OnesThenZeros(mask, n) <==> mask == FromPrefix(n, |mask|)
  {
    var built := FromPrefix(n, |mask|);
    if mask == built {
      forall p | 0 <= p < 8 * |mask| ensures Bit(mask, p) == (p < n) {
        PrefixByteBits(mask[p / 8], Clamp(n - 8 * (p / 8)));
      }
    }
    if OnesThenZeros(mask, n) {
      forall i | 0 <= i < |mask| ensures mask[i] == built[i] {
        var k := Clamp(n - 8 * i);
        forall j | 0 <= j < 8 ensures ByteBits(mask[i])[j] == (j < k) {
          ByteBitAt(mask, i, j);
        }
        PrefixByteBits(mask[i], k);
      }
    }
  }

  lemma ByteBitAt(mask: Mask, i: nat, j: nat)
    requires i < |mask| && j < 8
    ensures 8 * i + j < 8 * |mask| && Bit(mask, 8 * i + j) == ByteBits(mask[i])[j]
  {
    assert (8 * i + j) / 8 == i && (8 * i + j) % 8 == j;
  }

  // ---------------------------------------------------------------- the loops

  /** The inner loop: shifting out the leading ones of a byte. */
  method LeadingOnes(byte: bv8) returns (k: nat, rest: bv8)
    ensures k <= 8
    ensures rest == 0 <==> byte == PrefixByte(k)
    ensures forall m | 0 <= m <= 8 && m != k :: byte != PrefixByte(m)
  {
    k := 0;
    rest := byte;
    while rest & 0x80 != 0
      invariant k <= 8
      invariant Shifted(byte, k, rest)
      decreases 8 - k
    {
      ShiftOnce(byte, k, rest);
      k := k + 1;
      rest := rest << 1;
    }
    ShiftedOut(byte, k, rest);
  }

  /** k leading ones have been shifted out of the byte. */
  predicate Shifted(byte: bv8, k: nat, rest: bv8) {
    match k
    case 0 => rest == byte
    case 1 => byte & 0x80 == 0x80 && rest == byte << 1
    case 2 => byte & 0xC0 == 0xC0 && rest == byte << 2
    case 3 => byte & 0xE0 == 0xE0 && rest == byte << 3
    case 4 => byte & 0xF0 == 0xF0 && rest == byte << 4
    case 5 => byte & 0xF8 == 0xF8 && rest == byte << 5
    case 6 => byte & 0xFC == 0xFC && rest == byte << 6
    case 7 => byte & 0xFE == 0xFE && rest == byte << 7
    case _ => byte == 0xFF && rest == 0
  }

  lemma ShiftOnce(byte: bv8, k: nat, rest: bv8)
    requires k < 8 && Shifted(byte, k, rest) && rest & 0x80 != 0
    ensures Shifted(byte, k + 1, rest << 1)
  {
  }

  lemma ShiftedOut(byte: bv8, k: nat, rest: bv8)
    requires k <= 8 && Shifted(byte, k, rest) && rest & 0x80 == 0
    ensures rest == 0 <==> byte == PrefixByte(k)
    ensures forall m | 0 <= m <= 8 && m != k :: byte != PrefixByte(m)
  {
  }

  /** A byte that is no prefix byte rules every prefix length out. */
  lemma OddByte(mask: Mask, i: nat, m: nat)
    requires i < |mask| && forall k | 0 <= k <= 8 :: mask[i] != PrefixByte(k)
    ensures mask != FromPrefix(m, |mask|)
  {
    assert FromPrefix(m, |mask|)[i] == PrefixByte(Clamp(m - 8 * i));
  }

  /** So do ones in a byte after one that is not full. */
  lemma LateOnes(mask: Mask, i: nat, j: nat, m: nat)
    requires i < j < |mask| && mask[i] != 0xFF && mask[j] != 0
    ensures mask != FromPrefix(m, |mask|)
  {
    assert FromPrefix(m, |mask|)[i] == PrefixByte(Clamp(m - 8 * i));
    assert FromPrefix(m, |mask|)[j] == PrefixByte(Clamp(m - 8 * j));
  }

  lemma FullThenPartial(mask: Mask, i: nat, k: nat)
    requires i < |mask| && k < 8 && mask[i] == PrefixByte(k)
    requires forall j | 0 <= j < i :: mask[j] == 0xFF
    requires forall j | i < j < |mask| :: mask[j] == 0
    ensures mask == FromPrefix(8 * i + k, |mask|)
  {
  }

  /** The byte loop of `IPMask.Size`: the number of leading ones, or None for a mask that is not ones
      followed by zeros. */
  method MaskLength(mask: Mask) returns (n: Option<nat>)
    ensures n.Some? ==> n.value <= 8 * |mask| && mask == FromPrefix(n.value, |mask|)
    ensures n.None? ==> forall m: nat | m <= 8 * |mask| :: mask != FromPrefix(m, |mask|)
  {
    var ones := 0;
    for i := 0 to |mask|
      invariant ones == 8 * i
      invariant forall j | 0 <= j < i :: mask[j] == 0xFF
    {
      if mask[i] == 0xFF {
        ones := ones + 8;
      } else {
        var k, rest := LeadingOnes(mask[i]);
        ones := ones + k;
        if rest != 0 {
          forall m: nat ensures mask != FromPrefix(m, |mask|) { OddByte(mask, i, m); }
          return None;
        }
        for j := i + 1 to |mask|
          invariant forall m | i < m < j :: mask[m] == 0
        {
          if mask[j] != 0 {
            forall m: nat ensures mask != FromPrefix(m, |mask|) { LateOnes(mask, i, j, m); }
            return None;
          }
        }
        FullThenPartial(mask, i, k);
        return Some(ones);
      }
    }
    n := Some(ones);
  }

  // ---------------------------------------------------------------- the conversion

  /** The number of leading ones is determined by the mask. */
  lemma PrefixLengthUnique(mask: Mask, m: nat, n: nat)
    requires OnesThenZeros(mask, m)
    ensures OnesThenZeros(mask, n) <==> m == n
  {
    if m < 8 * |mask| {
      assert !Bit(mask, m);
    }
    if m > 0 {
      assert Bit(mask, m - 1);
    }
  }

  /** `netmaskToCIDR` on what `net.ParseIP(netmask).To4()` gives: accepted exactly when the bits are ones
      followed by zeros, with the number of ones, from which the mask can be rebuilt. */
  method NetmaskToCIDR(ip4: Option<Mask>) returns (cidr: Option<nat>)
    requires ip4.Some? ==> |ip4.value| == 4
    ensures cidr.Some? <==> ip4.Some? && exists n: nat :: OnesThenZeros(ip4.value, n)
    ensures cidr.Some? ==> cidr.value <= 32 && OnesThenZeros(ip4.value, cidr.value)
    ensures cidr.Some? ==> FromPrefix(cidr.value, 4) == ip4.value
  {
    if ip4.None? {
      return None;
    }
    cidr := MaskLength(ip4.value);
    forall n: nat | n <= 32 ensures OnesThenZeros(ip4.value, n) <==> ip4.value == FromPrefix(n, 4) {
      OnesThenZerosIsPrefix(ip4.value, n);
    }
  }
}
