/**
 * Netmasks for a prefix length: `ipv4_prefix_mask` and `ipv6_prefix_mask`.
 *
 * A prefix length is a Rust `u8`, modelled as `bv8`; the `ipnetwork` crate only
 * builds networks whose prefix is no wider than the address, which the subset
 * types `Prefix4` and `Prefix6` carry. Each mask is computed as the source does,
 * by shifting all ones left, and is characterised bit by bit: the mask for `p`
 * has exactly the top `p` bits set.
 */
module PrefixMask {

  /** Prefix length of an IPv4 network: 0 ..= 32. */
  type Prefix4 = p: bv8 | p <= 32

  /** Prefix length of an IPv6 network: 0 ..= 128. */
  type Prefix6 = p: bv8 | p <= 128

  const MAX4: bv32 := 0xFFFF_FFFF
  const MAX6: bv128 := 0xFFFF_FFFF_FFFF_FFFF_FFFF_FFFF_FFFF_FFFF

  /** `ipv4_prefix_mask`: all ones shifted left by `32 - prefix`, with prefix 0
      special-cased to 0 because a shift by the full width would overflow. */
  function Ipv4PrefixMask(prefix: Prefix4): (mask: bv32)
    ensures prefix == 0 <==> mask == 0
    ensures prefix == 32 <==> mask == MAX4
  {
    if prefix == 0 then 0 else MAX4 << (32 - prefix)
  }

  /** Bit `i` (0 = least significant) of a 32-bit word is set. */
  predicate Bit4(x: bv32, i: bv8)
    requires i < 32
  {
    (x >> i) & 1 == 1
  }

  /** The mask for `p` has exactly the top `p` bits set. */
  lemma Ipv4PrefixMaskBits(p: Prefix4)
    ensures forall i: bv8 | i < 32 :: Bit4(Ipv4PrefixMask(p), i) <==> 32 - p <= i
  {
  }

  lemma ShiftNested4(p: bv8, q: bv8)
    ensures 0 < p <= q <= 32 ==>
      (MAX4 << (32 - p)) & (MAX4 << (32 - q)) == MAX4 << (32 - p)
  {
  }

  /** A shorter prefix's mask is a sub-mask of a longer prefix's mask. */
  lemma Ipv4PrefixMaskNested(p: Prefix4, q: Prefix4)
    ensures p <= q ==> Ipv4PrefixMask(p) & Ipv4PrefixMask(q) == Ipv4PrefixMask(p)
  {
    ShiftNested4(p, q);
  }

  lemma ShiftDistinct4(p: bv8, q: bv8)
    ensures 0 < p < q <= 32 ==> MAX4 << (32 - p) != MAX4 << (32 - q)
  {
  }

  /** Different prefixes give different masks. */
  lemma Ipv4PrefixMaskDistinct(p: Prefix4, q: Prefix4)
    ensures p < q ==> Ipv4PrefixMask(p) != Ipv4PrefixMask(q)
  {
    ShiftDistinct4(p, q);
  }

  lemma ShiftLowBitOutside4(p: bv8, q: bv8)
    ensures 0 < q < p <= 32 ==> (MAX4 << (32 - q)) & (1 << (32 - p)) == 0
  {
  }

  lemma ShiftLowBitInside4(p: bv8)
    ensures 0 < p <= 32 ==> (MAX4 << (32 - p)) & (1 << (32 - p)) != 0
  {
  }

  /** A longer prefix's mask has a bit that a shorter prefix's mask lacks: the
      lowest bit of the longer mask. */
  lemma Ipv4PrefixMaskGap(p: Prefix4, q: Prefix4) returns (bit: bv32)
    ensures q < p ==> bit & Ipv4PrefixMask(q) == 0 && bit & Ipv4PrefixMask(p) != 0
  {
    bit := 1 << (32 - p);
    ShiftLowBitOutside4(p, q);
    ShiftLowBitInside4(p);
  }

  /** `ipv6_prefix_mask`: all ones shifted left by `128 - prefix`, with prefix 0
      special-cased to 0 because a shift by the full width would overflow. */
  function Ipv6PrefixMask(prefix: Prefix6): (mask: bv128)
    ensures prefix == 0 <==> mask == 0
    ensures prefix == 128 <==> mask == MAX6
  {
    if prefix == 0 then 0 else MAX6 << (128 - prefix)
  }

  /** Bit `i` (0 = least significant) of a 128-bit word is set. */
  predicate Bit6(x: bv128, i: bv8)
    requires i < 128
  {
    (x >> i) & 1 == 1
  }

  /** The mask for `p` has exactly the top `p` bits set. */
  lemma Ipv6PrefixMaskBits(p: Prefix6)
    ensures forall i: bv8 | i < 128 :: Bit6(Ipv6PrefixMask(p), i) <==> 128 - p <= i
  {
  }

  lemma ShiftNested6(p: bv8, q: bv8)
    ensures 0 < p <= q <= 128 ==>
      (MAX6 << (128 - p)) & (MAX6 << (128 - q)) == MAX6 << (128 - p)
  {
  }

  /** A shorter prefix's mask is a sub-mask of a longer prefix's mask. */
  lemma Ipv6PrefixMaskNested(p: Prefix6, q: Prefix6)
    ensures p <= q ==> Ipv6PrefixMask(p) & Ipv6PrefixMask(q) == Ipv6PrefixMask(p)
  {
    ShiftNested6(p, q);
  }

  lemma ShiftDistinct6(p: bv8, q: bv8)
    ensures 0 < p < q <= 128 ==> MAX6 << (128 - p) != MAX6 << (128 - q)
  {
  }

  /** Different prefixes give different masks. */
  lemma Ipv6PrefixMaskDistinct(p: Prefix6, q: Prefix6)
    ensures p < q ==> Ipv6PrefixMask(p) != Ipv6PrefixMask(q)
  {
    ShiftDistinct6(p, q);
  }

  lemma ShiftLowBitOutside6(p: bv8, q: bv8)
    ensures 0 < q < p <= 128 ==> (MAX6 << (128 - q)) & (1 << (128 - p)) == 0
  {
  }

  lemma ShiftLowBitInside6(p: bv8)
    ensures 0 < p <= 128 ==> (MAX6 << (128 - p)) & (1 << (128 - p)) != 0
  {
  }

  /** A longer prefix's mask has a bit that a shorter prefix's mask lacks: the
      lowest bit of the longer mask. */
  lemma Ipv6PrefixMaskGap(p: Prefix6, q: Prefix6) returns (bit: bv128)
    ensures q < p ==> bit & Ipv6PrefixMask(q) == 0 && bit & Ipv6PrefixMask(p) != 0
  {
    bit := 1 << (128 - p);
    ShiftLowBitOutside6(p, q);
    ShiftLowBitInside6(p);
  }
}
