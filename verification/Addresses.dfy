/**
IP addresses as numbers tagged with their family, CIDR blocks, and the address arithmetic
of the repository on that view. Module `AddressBytes` proves that the byte-level code of
pkg/utils/cidr.go agrees with it.
*/
module Addresses {
  import opened Powers

  datatype Option<+T> = None | Some(value: T)

  type Positive = n: nat | n >= 1 witness 1

  /** An address family, given by the number of bytes of its addresses. The two families in use are
      IPv4 and IPv6; what does not depend on which is proved for any. */
  datatype Family = Family(bytes: Positive)

  const IPv4 := Family(4)
  const IPv6 := Family(16)

  datatype Addr = Addr(fam: Family, val: nat)

  function Width(f: Family): (w: nat) {
    8 * f.bytes
  }

  /** The highest address value of a family. */
  function Max(f: Family): (m: nat) {
    Pow2(Width(f)) - 1
  }

  const V6_FLOOR: nat := 0x1_0000_0000_0000  // 2^48: below lie the IPv4-mapped addresses

  predicate InFamily(a: Addr) {
    a.val <= Max(a.fam)
  }

  /** The addresses that NextIP and PrevIP keep in their family (but for 255.255.255.255 and its
      IPv6 like, on which NextIP panics). */
  predicate Regular(a: Addr) {
    InFamily(a) && (a.fam == IPv6 ==> a.val > V6_FLOOR)
  }

  /** The addresses on which NextIP is the integer successor; PrevIP is the predecessor on all of them but 0.0.0.0. */
  predicate Inner(a: Addr) {
    Regular(a) && a.val < Max(a.fam)
  }

  function NextIP(a: Addr): (r: Addr)
    requires Inner(a)
  {
    Addr(a.fam, a.val + 1)
  }

  /** The predecessor; 0.0.0.0 yields 0.0.0.1, since the sign of minus one is dropped. */
  function PrevIP(a: Addr): (r: Addr)
    requires Regular(a)
  {
    Addr(a.fam, if a.val == 0 then 1 else a.val - 1)
  }

  /** -1, 0 or 1 within a family; -2 for addresses of different families. */
  function Cmp(a: Addr, b: Addr): (r: int) {
    if a.fam != b.fam then -2
    else if a.val < b.val then -1
    else if a.val == b.val then 0
    else 1
  }

  /** A CIDR block: `net.IPNet` with a prefix of `plen` bits. */
  datatype Net = Net(fam: Family, base: nat, plen: nat)
  {
    function HostBits(): (k: nat) {
      if plen <= Width(fam) then Width(fam) - plen else 0
    }

    predicate Valid() {
      && plen <= Width(fam)
      && Aligned(base, HostBits())
      && base + Pow2(HostBits()) <= Pow2(Width(fam))
    }

    /** The value of the last address. */
    function Last(): (v: nat) {
      base + Pow2(HostBits()) - 1
    }

    /** The address is masked and compared with the base, as `net.IPNet.Contains` does. */
    predicate Contains(a: Addr) {
      a.fam == fam && Mask(a.val, HostBits()) == base
    }

    function First(): (a: Addr) {
      Addr(fam, base)
    }

    function LastIP(): (a: Addr) {
      Addr(fam, Last())
    }
  }

  /** A block holds exactly the addresses from its base to its last address. */
  lemma ContainsInterval(n: Net, a: Addr)
    requires n.Valid()
    ensures n.Contains(a) <==> a.fam == n.fam && n.base <= a.val <= n.Last()
  {
    MaskBlock(a.val, n.base, n.HostBits());
  }

  /** Two blocks of a family are nested or disjoint: the longer prefix lies inside the shorter
      as soon as they share an address. */
  lemma Laminar(small: Net, big: Net, shared: Addr)
    requires small.Valid() && big.Valid() && big.plen <= small.plen
    requires small.Contains(shared) && big.Contains(shared)
    ensures big.base <= small.base && small.Last() <= big.Last()
    ensures forall a :: small.Contains(a) ==> big.Contains(a)
  {
    ContainsInterval(small, shared);
    ContainsInterval(big, shared);
    var k, m := small.HostBits(), big.HostBits();
    AlignedLower(big.base, k, m);
    AlignedNext(big.base, m);
    AlignedLower(big.base + Pow2(m), k, m);
    if small.base < big.base {
      AlignedApart(small.base, big.base, k);
    }
    AlignedApart(small.base, big.base + Pow2(m), k);
    forall a | small.Contains(a)
      ensures big.Contains(a)
    {
      ContainsInterval(small, a);
      ContainsInterval(big, a);
    }
  }

  /** A block is determined by its first address and prefix, so blocks with the same prefix that
      share an address are the same block. */
  lemma SamePrefixSameBlock(a: Net, b: Net, shared: Addr)
    requires a.Valid() && b.Valid() && a.plen == b.plen
    requires a.Contains(shared) && b.Contains(shared)
    ensures a == b
  {
    Laminar(a, b, shared);
    Laminar(b, a, shared);
  }

  /** LastIP of pkg/utils: the last address of the block; for IPv4 its last byte is then decremented,
      without a borrow from the byte before. */
  function LastUsable(n: Net): (a: Addr) {
    if n.fam != IPv4 then n.LastIP()
    else if n.Last() % 256 == 0 then Addr(n.fam, n.Last() + 255)
    else Addr(n.fam, n.Last() - 1)
  }

  /** A block of two addresses or more ends on an odd address. */
  lemma LastIsOdd(base: nat, k: nat)
    requires Aligned(base, k) && k > 0
    ensures base < base + Pow2(k) - 1 && (base + Pow2(k) - 1) % 256 != 0
  {
    var h := Mask(base / 2, k - 1) + Pow2(k - 1) - 1;
    assert base + Pow2(k) - 1 == 2 * h + 1;
  }

  /** In a block of two addresses or more the decrement stays inside. */
  lemma LastUsableInside(n: Net)
    requires n.Valid() && n.plen < Width(n.fam)
    ensures n.base <= LastUsable(n).val <= n.Last() && LastUsable(n).fam == n.fam
    ensures n.fam == IPv4 ==> LastUsable(n).val == n.Last() - 1
  {
    LastIsOdd(n.base, n.HostBits());
  }

  // ---- a concrete block -----------------------------------------------------------------------------

  const TEN := Net(IPv4, 0x0a00_0000, 24)  // 10.0.0.0/24

  lemma TenValid()
    ensures TEN.Valid() && TEN.HostBits() == 8 && TEN.Last() == 0x0a00_00ff && TEN.Last() < Max(IPv4)
    ensures Regular(TEN.First()) && TEN.plen < Width(IPv4)
    ensures forall a :: TEN.Contains(a) <==> a.fam == IPv4 && 0x0a00_0000 <= a.val <= 0x0a00_00ff
  {
    Pow2Values();
    assert Mask(0x0a00_0000, 8) == 0x0a00_0000;
    forall a
      ensures TEN.Contains(a) <==> a.fam == IPv4 && 0x0a00_0000 <= a.val <= 0x0a00_00ff
    {
      ContainsInterval(TEN, a);
    }
  }
}
