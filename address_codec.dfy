/**
  The page-walk layout of a 64-bit virtual address: bits 63..48 select the VA
  range (all zero: Bottom, all one: Top), bits 47..39, 38..30, 29..21 and 20..12
  are the L3, L2, L1 and L0 table indices (nine bits each) and bits 11..0 the
  page offset. Shifts and masks are written as division and remainder by powers
  of two: `a >> k` is `a / 2^k` and `x & (2^w - 1)` is `x % 2^w`.
*/
module AddressCodec {
  import opened Options
  import opened Numerals

  const TOP_UNIT: nat := 0x1_0000_0000_0000   // 1 << 48
  const L3_UNIT: nat := 0x80_0000_0000        // 1 << 39
  const L2_UNIT: nat := 0x4000_0000           // 1 << 30
  const L1_UNIT: nat := 0x20_0000             // 1 << 21
  const L0_UNIT: nat := 0x1000                // 1 << 12

  /** Bounds the part-changed handler checks each field against. */
  const INDEX_LIMIT: nat := 512
  const OFFSET_LIMIT: nat := 4096

  /** The value of bits 63..48 of a Top address. */
  const TOP_BITS: nat := 0xFFFF

  datatype VaRange = Bottom | Top

  /** The fields of a page walk, as the part-changed handler reads them. */
  datatype Parts = Parts(range: VaRange, l3: nat, l2: nat, l1: nat, l0: nat, offset: nat)

  predicate InBounds(p: Parts) {
    p.l3 < INDEX_LIMIT && p.l2 < INDEX_LIMIT && p.l1 < INDEX_LIMIT && p.l0 < INDEX_LIMIT
    && p.offset < OFFSET_LIMIT
  }

  /** `0x0000_0000_0000_0000u64` for Bottom, `0xFFFF_0000_0000_0000` for Top. */
  function RangeBase(r: VaRange): U64 {
    if r == Bottom then 0 else TOP_BITS * TOP_UNIT
  }

  /** `va_range + (l3 << 39) + (l2 << 30) + (l1 << 21) + (l0 << 12) + offset`;
      the result type says the sum never leaves `u64`. */
  function Compose(p: Parts): (r: U64)
    requires InBounds(p)
    ensures RangeBase(p.range) <= r < RangeBase(p.range) + TOP_UNIT
  {
    RangeBase(p.range) + p.l3 * L3_UNIT + p.l2 * L2_UNIT + p.l1 * L1_UNIT + p.l0 * L0_UNIT + p.offset
  }

  /** The VA range an address belongs to, judged on `address >> 48`. */
  function RangeOf(a: U64): (r: Option<VaRange>)
    ensures r == Some(Bottom) <==> a < TOP_UNIT
    ensures r == Some(Top) <==> a >= TOP_BITS * TOP_UNIT
  {
    if a / TOP_UNIT == 0 then Some(Bottom)
    else if a / TOP_UNIT == TOP_BITS then Some(Top)
    else None
  }

  /** The fields of a canonical address under the nine-bit and twelve-bit masks
      (`0x1ff`, `0xfff`) that the handler's bounds call for. */
  function Decompose(a: U64): Option<Parts> {
    match RangeOf(a)
    case None => None
    case Some(range) =>
      Some(Parts(range, a / L3_UNIT % 512, a / L2_UNIT % 512, a / L1_UNIT % 512, a / L0_UNIT % 512, a % 4096))
  }

  /** The fields of a composed address occupy disjoint bit ranges: the top
      sixteen bits are the range's, and each shift-and-mask recovers its field. */
  lemma ComposeLayout(p: Parts)
    requires InBounds(p)
    ensures Compose(p) / TOP_UNIT == if p.range == Top then TOP_BITS else 0
    ensures Compose(p) / L3_UNIT % 512 == p.l3
    ensures Compose(p) / L2_UNIT % 512 == p.l2
    ensures Compose(p) / L1_UNIT % 512 == p.l1
    ensures Compose(p) / L0_UNIT % 512 == p.l0
    ensures Compose(p) % 4096 == p.offset
  {
    var hi := if p.range == Top then TOP_BITS else 0;
    var a := Compose(p);
    var k3 := hi * 512 + p.l3;
    var k2 := k3 * 512 + p.l2;
    var k1 := k2 * 512 + p.l1;
    var k0 := k1 * 512 + p.l0;
    assert a == k0 * L0_UNIT + p.offset;
    assert a / L0_UNIT == k0 && a % L0_UNIT == p.offset;
    assert a / L1_UNIT == k1 by { assert a == k1 * L1_UNIT + (p.l0 * L0_UNIT + p.offset); }
    assert a / L2_UNIT == k2 by { assert a == k2 * L2_UNIT + (p.l1 * L1_UNIT + p.l0 * L0_UNIT + p.offset); }
    assert a / L3_UNIT == k3 by {
      assert a == k3 * L3_UNIT + (p.l2 * L2_UNIT + p.l1 * L1_UNIT + p.l0 * L0_UNIT + p.offset);
    }
    assert a / TOP_UNIT == hi by {
      assert a == hi * TOP_UNIT + (p.l3 * L3_UNIT + p.l2 * L2_UNIT + p.l1 * L1_UNIT + p.l0 * L0_UNIT + p.offset);
    }
  }

  /** Decomposing a composed address gives back its fields. */
  lemma DecomposeCompose(p: Parts)
    requires InBounds(p)
    ensures Decompose(Compose(p)) == Some(p)
  {
    ComposeLayout(p);
  }

  /** Composing the fields of a canonical address gives back the address. */
  lemma ComposeDecompose(a: U64)
    requires Decompose(a).Some?
    ensures InBounds(Decompose(a).value) && Compose(Decompose(a).value) == a
  {
    var p := Decompose(a).value;
    assert InBounds(p);
    assert a == a / L0_UNIT * L0_UNIT + a % L0_UNIT;
    assert a / L0_UNIT == a / L1_UNIT * 512 + p.l0;
    assert a / L1_UNIT == a / L2_UNIT * 512 + p.l1;
    assert a / L2_UNIT == a / L3_UNIT * 512 + p.l2;
    assert a / L3_UNIT == a / TOP_UNIT * 512 + p.l3;
  }

  /** The reference decomposition has no fields exactly for the addresses
      strictly between the two ranges: at or above `2^48` and below
      `0xFFFF_0000_0000_0000`. */
  lemma DecomposeFails(a: U64)
    ensures Decompose(a).None? <==> TOP_UNIT <= a < TOP_BITS * TOP_UNIT
  {
  }

  /** On 64-bit words, within the bounds the handler checks, the sum the
      part-changed handler computes is the bitwise or of its shifted fields:
      the fields occupy disjoint bit ranges. */
  lemma SumIsBitwiseOr(base: bv64, l3: bv64, l2: bv64, l1: bv64, l0: bv64, offset: bv64)
    requires base == 0 || base == 0xFFFF_0000_0000_0000
    requires l3 < 512 && l2 < 512 && l1 < 512 && l0 < 512 && offset < 4096
    ensures base + (l3 << 39) + (l2 << 30) + (l1 << 21) + (l0 << 12) + offset
         == base | (l3 << 39) | (l2 << 30) | (l1 << 21) | (l0 << 12) | offset
  {
  }
}
