/**
 * The containment test of `src/expressions.rs`: `contains_ipv4`,
 * `contains_ipv6` and `network_contains`.
 *
 * Each network keeps its address as written, host bits included, so the
 * network address is computed by masking, as `ipnetwork`'s `network()` does.
 * Besides the source's own test, the module defines which addresses a network
 * holds, and proves that the test decides exactly address inclusion: every
 * address of a contained subnet is an address of the supernet (soundness), and
 * a network whose addresses all lie in another is contained in it
 * (completeness). Containment is reflexive and transitive, and a /0 network
 * contains its whole family.
 *
 * The IPv4 and IPv6 lemmas take the same steps. At 32 bits the solver often
 * finds a proof without the helper calls; they are kept so both families
 * read alike, and at 128 bits they are needed.
 */
module Containment {
  import opened PrefixMask

  /** An IPv4 network as the `ipnetwork` crate holds it: the address as written,
      host bits included, and the prefix length. */
  datatype Ipv4Net = Ipv4Net(addr: bv32, prefix: Prefix4) {
    /** `network()`: the address with every bit below the prefix cleared. */
    function Network(): bv32 {
      addr & Ipv4PrefixMask(prefix)
    }

    /** Address `a` lies in this network: its top `prefix` bits are the network's. */
    predicate HasAddress(a: bv32) {
      a & Ipv4PrefixMask(prefix) == Network()
    }
  }

  /** `contains_ipv4`: a longer supernet prefix is rejected outright; otherwise the
      subnet's network address, cut down to the supernet's prefix, must be the
      supernet's network address. */
  function ContainsIpv4(supernet: Ipv4Net, subnet: Ipv4Net): (r: bool)
    ensures r ==> supernet.prefix <= subnet.prefix
  {
    if supernet.prefix > subnet.prefix then false
    else
      var mask := Ipv4PrefixMask(supernet.prefix);
      supernet.Network() == subnet.Network() & mask
  }

  lemma Idempotent4(x: bv32, m: bv32)
    ensures (x & m) & m == x & m
  {
  }

  /** Every IPv4 network contains itself. */
  lemma ContainsIpv4Reflexive(n: Ipv4Net)
    ensures ContainsIpv4(n, n)
  {
    Idempotent4(n.addr, Ipv4PrefixMask(n.prefix));
  }

  lemma Regroup4(a: bv32, m: bv32, n: bv32)
    ensures (a & n) & m == a & (m & n)
  {
  }

  /** Every address of a contained subnet is an address of the supernet. */
  lemma ContainsIpv4Sound(supernet: Ipv4Net, subnet: Ipv4Net, a: bv32)
    requires ContainsIpv4(supernet, subnet)
    requires subnet.HasAddress(a)
    ensures supernet.HasAddress(a)
  {
    Ipv4PrefixMaskNested(supernet.prefix, subnet.prefix);
    Regroup4(a, Ipv4PrefixMask(supernet.prefix), Ipv4PrefixMask(subnet.prefix));
  }

  lemma FlipOutside4(x: bv32, bit: bv32, m: bv32)
    ensures bit & m == 0 ==> (x ^ bit) & m == x & m
  {
  }

  lemma FlipInside4(x: bv32, bit: bv32, m: bv32)
    ensures bit & m != 0 ==> (x ^ bit) & m != x & m
  {
  }

  /** A network's own network address lies in it. */
  lemma NetworkAddressIn4(n: Ipv4Net)
    ensures n.HasAddress(n.Network())
  {
    Idempotent4(n.addr, Ipv4PrefixMask(n.prefix));
  }

  /** Flipping a host bit keeps an address inside the network. */
  lemma FlipStaysIn4(n: Ipv4Net, x: bv32, bit: bv32)
    ensures bit & Ipv4PrefixMask(n.prefix) == 0 && n.HasAddress(x) ==> n.HasAddress(x ^ bit)
  {
    FlipOutside4(x, bit, Ipv4PrefixMask(n.prefix));
  }

  /** Flipping a network bit moves an address out of the network. */
  lemma FlipLeaves4(n: Ipv4Net, x: bv32, bit: bv32)
    ensures bit & Ipv4PrefixMask(n.prefix) != 0 && n.HasAddress(x) ==> !n.HasAddress(x ^ bit)
  {
    FlipInside4(x, bit, Ipv4PrefixMask(n.prefix));
  }

  /** The converse of soundness: a network all of whose addresses lie in another
      is contained in it. When the supernet's prefix is longer, flipping the
      lowest bit of its mask in the subnet's network address gives an address
      of the subnet outside the supernet; otherwise the subnet's network address
      is in the supernet, which is what the test checks. */
  lemma ContainsIpv4Complete(supernet: Ipv4Net, subnet: Ipv4Net)
    ensures (forall a: bv32 :: subnet.HasAddress(a) ==> supernet.HasAddress(a)) ==>
      ContainsIpv4(supernet, subnet)
  {
    var bit := Ipv4PrefixMaskGap(supernet.prefix, subnet.prefix);
    NetworkAddressIn4(subnet);
    FlipStaysIn4(subnet, subnet.Network(), bit);
    FlipLeaves4(supernet, subnet.Network(), bit);
  }

  /** Containment between IPv4 networks is transitive. */
  lemma ContainsIpv4Transitive(a: Ipv4Net, b: Ipv4Net, c: Ipv4Net)
    requires ContainsIpv4(a, b) && ContainsIpv4(b, c)
    ensures ContainsIpv4(a, c)
  {
    forall x | c.HasAddress(x)
      ensures a.HasAddress(x)
    {
      ContainsIpv4Sound(b, c, x);
      ContainsIpv4Sound(a, b, x);
    }
    ContainsIpv4Complete(a, c);
  }

  /** A /0 network contains every IPv4 network. */
  lemma ContainsIpv4ZeroPrefix(supernet: Ipv4Net, subnet: Ipv4Net)
    ensures supernet.prefix == 0 ==> ContainsIpv4(supernet, subnet)
  {
  }

  /** An IPv6 network as the `ipnetwork` crate holds it: the address as written,
      host bits included, and the prefix length. */
  datatype Ipv6Net = Ipv6Net(addr: bv128, prefix: Prefix6) {
    /** `network()`: the address with every bit below the prefix cleared. */
    function Network(): bv128 {
      addr & Ipv6PrefixMask(prefix)
    }

    /** Address `a` lies in this network: its top `prefix` bits are the network's. */
    predicate HasAddress(a: bv128) {
      a & Ipv6PrefixMask(prefix) == Network()
    }
  }

  /** `contains_ipv6`: a longer supernet prefix is rejected outright; otherwise the
      subnet's network address, cut down to the supernet's prefix, must be the
      supernet's network address. */
  function ContainsIpv6(supernet: Ipv6Net, subnet: Ipv6Net): (r: bool)
    ensures r ==> supernet.prefix <= subnet.prefix
  {
    if supernet.prefix > subnet.prefix then false
    else
      var mask := Ipv6PrefixMask(supernet.prefix);
      supernet.Network() == subnet.Network() & mask
  }

  lemma Idempotent6(x: bv128, m: bv128)
    ensures (x & m) & m == x & m
  {
  }

  /** Every IPv6 network contains itself. */
  lemma ContainsIpv6Reflexive(n: Ipv6Net)
    ensures ContainsIpv6(n, n)
  {
    Idempotent6(n.addr, Ipv6PrefixMask(n.prefix));
  }

  lemma Regroup6(a: bv128, m: bv128, n: bv128)
    ensures (a & n) & m == a & (m & n)
  {
  }

  /** Every address of a contained subnet is an address of the supernet. */
  lemma ContainsIpv6Sound(supernet: Ipv6Net, subnet: Ipv6Net, a: bv128)
    requires ContainsIpv6(supernet, subnet)
    requires subnet.HasAddress(a)
    ensures supernet.HasAddress(a)
  {
    Ipv6PrefixMaskNested(supernet.prefix, subnet.prefix);
    Regroup6(a, Ipv6PrefixMask(supernet.prefix), Ipv6PrefixMask(subnet.prefix));
  }

  lemma FlipOutside6(x: bv128, bit: bv128, m: bv128)
    ensures bit & m == 0 ==> (x ^ bit) & m == x & m
  {
  }

  lemma FlipInside6(x: bv128, bit: bv128, m: bv128)
    ensures bit & m != 0 ==> (x ^ bit) & m != x & m
  {
  }

  /** A network's own network address lies in it. */
  lemma NetworkAddressIn6(n: Ipv6Net)
    ensures n.HasAddress(n.Network())
  {
    Idempotent6(n.addr, Ipv6PrefixMask(n.prefix));
  }

  /** Flipping a host bit keeps an address inside the network. */
  lemma FlipStaysIn6(n: Ipv6Net, x: bv128, bit: bv128)
    ensures bit & Ipv6PrefixMask(n.prefix) == 0 && n.HasAddress(x) ==> n.HasAddress(x ^ bit)
  {
    FlipOutside6(x, bit, Ipv6PrefixMask(n.prefix));
  }

  /** Flipping a network bit moves an address out of the network. */
  lemma FlipLeaves6(n: Ipv6Net, x: bv128, bit: bv128)
    ensures bit & Ipv6PrefixMask(n.prefix) != 0 && n.HasAddress(x) ==> !n.HasAddress(x ^ bit)
  {
    FlipInside6(x, bit, Ipv6PrefixMask(n.prefix));
  }

  /** The converse of soundness: a network all of whose addresses lie in another
      is contained in it. When the supernet's prefix is longer, flipping the
      lowest bit of its mask in the subnet's network address gives an address
      of the subnet outside the supernet; otherwise the subnet's network address
      is in the supernet, which is what the test checks. */
  lemma ContainsIpv6Complete(supernet: Ipv6Net, subnet: Ipv6Net)
    ensures (forall a: bv128 :: subnet.HasAddress(a) ==> supernet.HasAddress(a)) ==>
      ContainsIpv6(supernet, subnet)
  {
    var bit := Ipv6PrefixMaskGap(supernet.prefix, subnet.prefix);
    NetworkAddressIn6(subnet);
    FlipStaysIn6(subnet, subnet.Network(), bit);
    FlipLeaves6(supernet, subnet.Network(), bit);
  }

  /** Containment between IPv6 networks is transitive. */
  lemma ContainsIpv6Transitive(a: Ipv6Net, b: Ipv6Net, c: Ipv6Net)
    requires ContainsIpv6(a, b) && ContainsIpv6(b, c)
    ensures ContainsIpv6(a, c)
  {
    forall x | c.HasAddress(x)
      ensures a.HasAddress(x)
    {
      ContainsIpv6Sound(b, c, x);
      ContainsIpv6Sound(a, b, x);
    }
    ContainsIpv6Complete(a, c);
  }

  /** A /0 network contains every IPv6 network. */
  lemma ContainsIpv6ZeroPrefix(supernet: Ipv6Net, subnet: Ipv6Net)
    ensures supernet.prefix == 0 ==> ContainsIpv6(supernet, subnet)
  {
  }

  /** `IpNetwork`: a network of either family. */
  datatype Net = V4(v4: Ipv4Net) | V6(v6: Ipv6Net) {
    /** The prefix length, whichever the family. */
    function Prefix(): bv8 {
      match this
      case V4(n) => n.prefix
      case V6(n) => n.prefix
    }

    /** Address `a` lies in this network; an address of the other family never does. */
    predicate HasAddress(a: Address) {
      match (this, a)
      case (V4(n), A4(x)) => n.HasAddress(x)
      case (V6(n), A6(x)) => n.HasAddress(x)
      case _ => false
    }
  }

  /** A single address of either family. */
  datatype Address = A4(a4: bv32) | A6(a6: bv128)

  /** Both networks are IPv4, or both are IPv6. */
  predicate SameFamily(a: Net, b: Net) {
    a.V4? == b.V4?
  }

  /** `network_contains`: networks of different families never contain one
      another; otherwise the family's own test decides. */
  function NetworkContains(supernet: Net, subnet: Net): (r: bool)
    ensures r ==> SameFamily(supernet, subnet)
    ensures r ==> supernet.Prefix() <= subnet.Prefix()
  {
    match (supernet, subnet)
    case (V4(s), V4(t)) => ContainsIpv4(s, t)
    case (V6(s), V6(t)) => ContainsIpv6(s, t)
    case _ => false
  }

  /** Every network contains itself. */
  lemma NetworkContainsReflexive(n: Net)
    ensures NetworkContains(n, n)
  {
    match n
    case V4(m) => ContainsIpv4Reflexive(m);
    case V6(m) => ContainsIpv6Reflexive(m);
  }

  /** Every address of a contained network is an address of the containing one. */
  lemma NetworkContainsSound(supernet: Net, subnet: Net, a: Address)
    requires NetworkContains(supernet, subnet)
    requires subnet.HasAddress(a)
    ensures supernet.HasAddress(a)
  {
    if supernet.V4? {
      ContainsIpv4Sound(supernet.v4, subnet.v4, a.a4);
    } else {
      ContainsIpv6Sound(supernet.v6, subnet.v6, a.a6);
    }
  }

  /** Containment is transitive. */
  lemma NetworkContainsTransitive(a: Net, b: Net, c: Net)
    requires NetworkContains(a, b) && NetworkContains(b, c)
    ensures NetworkContains(a, c)
  {
    if a.V4? {
      ContainsIpv4Transitive(a.v4, b.v4, c.v4);
    } else {
      ContainsIpv6Transitive(a.v6, b.v6, c.v6);
    }
  }

  lemma LiftAddresses4(supernet: Ipv4Net, subnet: Ipv4Net)
    ensures (forall a: Address :: V4(subnet).HasAddress(a) ==> V4(supernet).HasAddress(a)) ==>
      (forall x: bv32 :: subnet.HasAddress(x) ==> supernet.HasAddress(x))
  {
    forall x: bv32 | subnet.HasAddress(x)
      ensures V4(subnet).HasAddress(A4(x))
    {
    }
  }

  lemma LiftAddresses6(supernet: Ipv6Net, subnet: Ipv6Net)
    ensures (forall a: Address :: V6(subnet).HasAddress(a) ==> V6(supernet).HasAddress(a)) ==>
      (forall x: bv128 :: subnet.HasAddress(x) ==> supernet.HasAddress(x))
  {
    forall x: bv128 | subnet.HasAddress(x)
      ensures V6(subnet).HasAddress(A6(x))
    {
    }
  }

  /** The converse of soundness: a network all of whose addresses lie in another
      is contained in it. Across families this holds because a network always
      has an address, its network address, and no network of the other family
      holds it. */
  lemma NetworkContainsComplete(supernet: Net, subnet: Net)
    ensures (forall a: Address :: subnet.HasAddress(a) ==> supernet.HasAddress(a)) ==>
      NetworkContains(supernet, subnet)
  {
    match (supernet, subnet)
    case (V4(s), V4(t)) =>
      LiftAddresses4(s, t);
      ContainsIpv4Complete(s, t);
    case (V6(s), V6(t)) =>
      LiftAddresses6(s, t);
      ContainsIpv6Complete(s, t);
    case (V6(s), V4(t)) =>
      NetworkAddressIn4(t);
      assert subnet.HasAddress(A4(t.Network()));
    case (V4(s), V6(t)) =>
      NetworkAddressIn6(t);
      assert subnet.HasAddress(A6(t.Network()));
  }

  /** A network contains another exactly when it holds every address of it. */
  lemma NetworkContainsIffAddresses(supernet: Net, subnet: Net)
    ensures NetworkContains(supernet, subnet) <==>
      forall a: Address :: subnet.HasAddress(a) ==> supernet.HasAddress(a)
  {
    if NetworkContains(supernet, subnet) {
      forall a: Address | subnet.HasAddress(a)
        ensures supernet.HasAddress(a)
      {
        NetworkContainsSound(supernet, subnet, a);
      }
    }
    NetworkContainsComplete(supernet, subnet);
  }

  /** The direction of the test: 10.0.0.0/16 contains 10.0.0.0/24, and not the
      other way round. */
  lemma NetworkContainsDirection()
    ensures NetworkContains(V4(Ipv4Net(0x0A00_0000, 16)), V4(Ipv4Net(0x0A00_0000, 24)))
    ensures !NetworkContains(V4(Ipv4Net(0x0A00_0000, 24)), V4(Ipv4Net(0x0A00_0000, 16)))
  {
  }

  /** A /0 network contains every network of its family. */
  lemma NetworkContainsZeroPrefix(supernet: Net, subnet: Net)
    requires SameFamily(supernet, subnet) && supernet.Prefix() == 0
    ensures NetworkContains(supernet, subnet)
  {
    match (supernet, subnet)
    case (V4(s), V4(t)) => ContainsIpv4ZeroPrefix(s, t);
    case (V6(s), V6(t)) => ContainsIpv6ZeroPrefix(s, t);
  }
}
