/**
  CIDR membership (src/config.rs), which the proxy computes in two ways with two
  mask formulas: `CidrRange::contains_addr` for the IP filters and
  `PrometheusConfig::ip_in_cidr` for the metrics endpoint. Both are compared
  with the plain meaning: an aligned block of addresses.
  */
module Cidr {
  import opened Bytes
  import opened Arithmetic

  // ---------------------------------------------------------------------------
  // Bitwise operations on numbers
  // ---------------------------------------------------------------------------

  /** Bitwise and, bit by bit. */
  function And(x: nat, y: nat): nat {
    if x == 0 || y == 0 then 0
    else 2 * And(x / 2, y / 2) + if x % 2 == 1 && y % 2 == 1 then 1 else 0
  }

  /** A left shift in a word of the given width. */
  function Shl(x: nat, k: nat, width: nat): nat {
    (x * Pow2(k)) % Pow2(width)
  }

  /** The p high bits of a word of the given width. */
  function HighBits(p: nat, width: nat): nat
    requires p <= width
  {
    (Pow2(p) - 1) * Pow2(width - p)
  }

  lemma {:induction false} AndOnes(x: nat, p: nat)
    requires x < Pow2(p)
    ensures And(x, Pow2(p) - 1) == x
    decreases p
  {
    if p > 0 && x > 0 {
      assert (Pow2(p) - 1) / 2 == Pow2(p - 1) - 1 && (Pow2(p) - 1) % 2 == 1;
      AndOnes(x / 2, p - 1);
    }
  }

  /** Clearing the k low bits. */
  lemma {:induction false} AndShifted(x: nat, p: nat, k: nat)
    requires x < Pow2(p + k)
    ensures And(x, (Pow2(p) - 1) * Pow2(k)) == x / Pow2(k) * Pow2(k)
    decreases k
  {
    if k == 0 {
      AndOnes(x, p);
      assert (Pow2(p) - 1) * 1 == Pow2(p) - 1 && x / 1 * 1 == x;
    } else {
      assert Pow2(p + k) == 2 * Pow2(p + (k - 1));
      AndShifted(x / 2, p, k - 1);
      AndDoubled(x, Pow2(p) - 1, Pow2(k - 1));
    }
  }

  lemma AndDoubled(x: nat, m: nat, q: nat)
    requires q > 0 && m * q >= 0 && And(x / 2, m * q) == x / 2 / q * q
    ensures m * (2 * q) >= 0 && And(x, m * (2 * q)) == x / (2 * q) * (2 * q)
  {
    Halve(m, q);
    AndStep(x, m * (2 * q));
    DoubleBlock(x, q);
  }

  lemma DoubleBlock(x: nat, q: nat)
    requires q > 0
    ensures 2 * (x / 2 / q * q) == x / (2 * q) * (2 * q)
  {
    DivDiv(x, 2, q);
    Regroup(2, x / 2 / q, q);
  }

  lemma Halve(m: nat, q: nat)
    ensures m * (2 * q) / 2 == m * q && m * (2 * q) % 2 == 0
  {
    assert m * (2 * q) == 2 * (m * q);
  }

  lemma AndStep(x: nat, y: nat)
    requires y % 2 == 0
    ensures And(x, y) == 2 * And(x / 2, y / 2)
  {
  }

  // ---------------------------------------------------------------------------
  // Addresses and masks
  // ---------------------------------------------------------------------------

  type u128 = n: int | 0 <= n < 0x1_0000_0000_0000_0000_0000_0000_0000_0000

  datatype IpAddr = V4(v4: u32) | V6(v6: u128) {
    function Bits(): nat {
      match this
      case V4(a) => a
      case V6(a) => a
    }

    function Width(): nat {
      if V4? then 32 else 128
    }
  }

  lemma AddressFits(ip: IpAddr)
    ensures ip.Bits() < Pow2(ip.Width())
    ensures Pow2(32) == U32_MAX + 1 && Pow2(128) == 0x1_0000_0000_0000_0000_0000_0000_0000_0000
  {
    Pow2At64();
    Pow2Add(64, 64);
  }

  /** The masks of `CidrRange`: ones shifted up, in 128-bit arithmetic for both families. */
  function MaskV4(prefix: byte): nat {
    if prefix == 0 then 0
    else if prefix >= 32 then U32_MAX
    else Shl(Pow2(prefix) - 1, 32 - prefix, 128)
  }

  function MaskV6(prefix: byte): nat {
    if prefix == 0 then 0
    else if prefix >= 128 then 0xFFFF_FFFF_FFFF_FFFF_FFFF_FFFF_FFFF_FFFF
    else Shl(Pow2(prefix) - 1, 128 - prefix, 128)
  }

  /** The mask of `ip_in_cidr`: all ones shifted up within the word. */
  function ShiftedOnes(prefix: byte, width: nat): nat
    requires prefix <= width
  {
    if prefix == 0 then 0 else Shl(Pow2(width) - 1, width - prefix, width)
  }

  /** The block mask is all ones but for the low bits. */
  lemma HighBitsValue(p: nat, width: nat)
    requires p <= width
    ensures HighBits(p, width) == Pow2(width) - Pow2(width - p)
    ensures Pow2(width - p) <= Pow2(width)
  {
    Pow2Add(p, width - p);
    Pow2Monotone(width - p, width);
  }

  /** Shifting all ones up loses exactly the bits above the word. */
  lemma ShiftedOnesValue(prefix: byte, width: nat)
    requires prefix <= width
    ensures ShiftedOnes(prefix, width) == HighBits(prefix, width)
  {
    HighBitsValue(prefix, width);
    if prefix == 0 {
      assert Pow2(0) == 1;
    } else {
      OnesShifted(Pow2(width), Pow2(width - prefix));
    }
  }

  lemma OnesShifted(w: nat, k: nat)
    requires 0 < k <= w
    ensures (w - 1) * k % w == w - k
  {
    assert (w - 1) * k == w * (k - 1) + (w - k);
    DivModUnique((w - 1) * k, w, k - 1, w - k);
  }

  lemma MaskV4Value(prefix: byte)
    requires prefix <= 32
    ensures MaskV4(prefix) == HighBits(prefix, 32)
  {
    HighBitsValue(prefix, 32);
    AddressFits(V4(0));
    if 0 < prefix < 32 {
      DivModUnique(HighBits(prefix, 32), Pow2(128), 0, HighBits(prefix, 32));
    } else {
      assert Pow2(0) == 1;
    }
  }

  lemma MaskV6Value(prefix: byte)
    requires prefix <= 128
    ensures MaskV6(prefix) == HighBits(prefix, 128)
  {
    HighBitsValue(prefix, 128);
    AddressFits(V6(0));
    if 0 < prefix < 128 {
      DivModUnique(HighBits(prefix, 128), Pow2(128), 0, HighBits(prefix, 128));
    } else {
      assert Pow2(0) == 1;
    }
  }

  // ---------------------------------------------------------------------------
  // Membership
  // ---------------------------------------------------------------------------

  datatype CidrRange = CidrRange(network: nat, prefixLen: byte, isIpv6: bool)

  /** The range of a parsed address and prefix. 255 stands for a missing prefix, written or not. */
  function MakeRange(address: IpAddr, prefix: byte): Option<CidrRange> {
    match address
    case V4(a) =>
      var p := if prefix == 255 then 32 else prefix;
      if p > 32 then None else Some(CidrRange(And(a, MaskV4(p)), p, false))
    case V6(a) =>
      var p := if prefix == 255 then 128 else prefix;
      if p > 128 then None else Some(CidrRange(And(a, MaskV6(p)), p, true))
  }

  predicate ContainsAddr(range: CidrRange, ip: IpAddr) {
    match ip
    case V4(a) => !range.isIpv6 && And(a, MaskV4(range.prefixLen)) == range.network
    case V6(a) => range.isIpv6 && And(a, MaskV6(range.prefixLen)) == range.network
  }

  predicate IpInCidr(ip: IpAddr, network: IpAddr, prefix: byte) {
    match (ip, network)
    case (V4(a), V4(n)) =>
      if prefix > 32 then false
      else var mask := ShiftedOnes(prefix, 32); And(a, mask) == And(n, mask)
    case (V6(a), V6(n)) =>
      if prefix > 128 then false
      else var mask := ShiftedOnes(prefix, 128); And(a, mask) == And(n, mask)
    case _ => false
  }

  /** The plain meaning: the address lies in the aligned block of 2^(width - prefix) addresses around the network. */
  predicate InBlock(ip: IpAddr, network: IpAddr, prefix: byte) {
    && ip.V4? == network.V4? && prefix <= ip.Width()
    && var size := Pow2(ip.Width() - prefix);
       var first := network.Bits() / size * size;
       first <= ip.Bits() < first + size
  }

  /** Masking two addresses to the same number is being in one block. */
  lemma SameBlock(a: nat, n: nat, size: nat)
    requires size > 0
    ensures n / size * size <= a < n / size * size + size <==> a / size == n / size
    ensures a / size * size == n / size * size <==> a / size == n / size
  {
    var q := n / size;
    assert a == size * (a / size) + a % size;
    var d := a / size - q;
    assert size * d == a / size * size - q * size;
    MultipleBound(size, d);
  }

  lemma MaskedIsBlock(ip: IpAddr, prefix: byte)
    requires prefix <= ip.Width()
    ensures And(ip.Bits(), HighBits(prefix, ip.Width())) ==
            ip.Bits() / Pow2(ip.Width() - prefix) * Pow2(ip.Width() - prefix)
  {
    AddressFits(ip);
    AndShifted(ip.Bits(), prefix, ip.Width() - prefix);
  }

  /** The range path: a range is made and the address looked up in it. */
  predicate InRange(ip: IpAddr, network: IpAddr, prefix: byte) {
    var range := MakeRange(network, prefix);
    range.Some? && ContainsAddr(range.value, ip)
  }

  /** Two addresses of one family share the block of this prefix. */
  predicate SharesBlock(ip: IpAddr, network: IpAddr, prefix: byte)
    requires prefix <= network.Width()
  {
    var size := Pow2(network.Width() - prefix);
    ip.V4? == network.V4? && ip.Bits() / size == network.Bits() / size
  }

  lemma BlockIsShared(ip: IpAddr, network: IpAddr, prefix: byte)
    requires prefix <= network.Width()
    ensures InBlock(ip, network, prefix) == SharesBlock(ip, network, prefix)
  {
    SameBlock(ip.Bits(), network.Bits(), Pow2(network.Width() - prefix));
  }

  /** Masking both addresses with the block mask compares their blocks. */
  lemma MaskComparesBlocks(ip: IpAddr, network: IpAddr, prefix: byte)
    requires ip.V4? == network.V4? && prefix <= network.Width()
    ensures var mask := HighBits(prefix, network.Width());
            And(ip.Bits(), mask) == And(network.Bits(), mask) <==> SharesBlock(ip, network, prefix)
  {
    MaskedIsBlock(ip, prefix);
    MaskedIsBlock(network, prefix);
    SameBlock(ip.Bits(), network.Bits(), Pow2(ip.Width() - prefix));
  }

  lemma RangeIsShared(ip: IpAddr, network: IpAddr, prefix: byte)
    requires prefix <= network.Width()
    ensures InRange(ip, network, prefix) == SharesBlock(ip, network, prefix)
  {
    if ip.V4? == network.V4? {
      MaskComparesBlocks(ip, network, prefix);
      if ip.V4? {
        MaskV4Value(prefix);
      } else {
        MaskV6Value(prefix);
      }
    }
  }

  lemma CidrIsShared(ip: IpAddr, network: IpAddr, prefix: byte)
    requires prefix <= network.Width()
    ensures IpInCidr(ip, network, prefix) == SharesBlock(ip, network, prefix)
  {
    if ip.V4? == network.V4? {
      MaskComparesBlocks(ip, network, prefix);
      ShiftedOnesValue(prefix, network.Width());
    }
  }

  /** For every prefix that fits the family, the three agree on every address. */
  lemma MembershipAgrees(ip: IpAddr, network: IpAddr, prefix: byte)
    requires prefix <= network.Width()
    ensures InRange(ip, network, prefix) == InBlock(ip, network, prefix)
    ensures IpInCidr(ip, network, prefix) == InBlock(ip, network, prefix)
  {
    BlockIsShared(ip, network, prefix);
    RangeIsShared(ip, network, prefix);
    CidrIsShared(ip, network, prefix);
  }

  /** Over all 8-bit prefixes the two implementations differ in one case only: a written prefix of 255. */
  lemma MembershipDiffersExactly(ip: IpAddr, network: IpAddr, prefix: byte)
    ensures InRange(ip, network, prefix) == IpInCidr(ip, network, prefix) <==> !(prefix == 255 && ip == network)
  {
    if prefix <= network.Width() {
      MembershipAgrees(ip, network, prefix);
    } else if prefix == 255 {
      var full: byte := network.Width();
      MembershipAgrees(ip, network, full);
      assert InRange(ip, network, 255) == InRange(ip, network, full);
      assert Pow2(0) == 1;
    }
  }

  /** A block of a longer prefix lies within one block of a shorter prefix. */
  lemma SmallWithinLarge(ip: IpAddr, b: IpAddr, p: byte, q: byte)
    requires p <= q <= b.Width() && SharesBlock(ip, b, q)
    ensures SharesBlock(ip, b, p)
  {
    var small, ratio := Pow2(b.Width() - q), Pow2(q - p);
    Pow2Add(b.Width() - q, q - p);
    DivDiv(ip.Bits(), small, ratio);
    DivDiv(b.Bits(), small, ratio);
  }

  /** Any two ranges of one family are nested or disjoint. */
  lemma NestedOrDisjoint(a: IpAddr, p: byte, b: IpAddr, q: byte)
    requires a.V4? == b.V4? && p <= q <= a.Width()
    ensures || (forall ip: IpAddr :: InRange(ip, b, q) ==> InRange(ip, a, p))
            || (forall ip: IpAddr :: !(InRange(ip, a, p) && InRange(ip, b, q)))
  {
    forall ip: IpAddr
      ensures InRange(ip, b, q) ==> (InRange(ip, a, p) <==> SharesBlock(b, a, p))
    {
      RangeIsShared(ip, a, p);
      RangeIsShared(ip, b, q);
      if SharesBlock(ip, b, q) {
        SmallWithinLarge(ip, b, p, q);
      }
    }
  }
}
