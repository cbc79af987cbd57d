/**
Splitting an address range into CIDR blocks (pkg/daemon/utils/ip_range.go): what a greedy tiling of a range is, and
what every greedy tiling is worth: exact, pairwise disjoint, as short as any, at most 2W - 2 long. The loops that
compute one are in IPRanges.
*/
module RangeSplit {
  import opened Powers
  import opened Addresses
  import opened Finite

  // ---- greedy tilings ----------------------------------------------------------------

  /** The blocks are valid, start at `s`, follow each other without gap or overlap, and end at `e`. */
  ghost predicate Tiles(blocks: seq<Net>, f: Family, s: nat, e: nat) {
    && blocks != []
    && (forall i :: 0 <= i < |blocks| ==> blocks[i].Valid() && blocks[i].fam == f)
    && blocks[0].base == s
    && (forall i :: 0 <= i < |blocks| - 1 ==> blocks[i + 1].base == blocks[i].Last() + 1)
    && blocks[|blocks| - 1].Last() == e
  }

  /** No larger block starts where `b` does: it would be misaligned or run past `e`. */
  ghost predicate Largest(b: Net, e: nat) {
    forall j {:trigger Aligned(b.base, j)} :: b.HostBits() < j <= Width(b.fam) && Aligned(b.base, j) ==>
      b.base + Pow2(j) - 1 > e
  }

  ghost predicate Greedy(blocks: seq<Net>, f: Family, s: nat, e: nat) {
    Tiles(blocks, f, s, e) && forall i :: 0 <= i < |blocks| ==> Largest(blocks[i], e)
  }

  ghost predicate InSome(blocks: seq<Net>, a: Addr) {
    exists i :: 0 <= i < |blocks| && blocks[i].Contains(a)
  }

  // ---- exact partition ---------------------------------------------------------------

  lemma TilesInside(blocks: seq<Net>, f: Family, s: nat, e: nat, i: nat)
    requires Tiles(blocks, f, s, e) && i < |blocks|
    ensures s <= blocks[i].base <= blocks[i].Last() <= e
    ensures forall j :: 0 <= j < i ==> blocks[j].Last() < blocks[i].base
  {
    var m := 0;
    while m < i
      invariant 0 <= m <= i
      invariant s <= blocks[m].base
      invariant forall j :: 0 <= j < m ==> blocks[j].Last() < blocks[m].base
    {
      m := m + 1;
    }
    var n := i;
    while n + 1 < |blocks|
      invariant i <= n < |blocks|
      invariant blocks[i].Last() <= blocks[n].Last()
    {
      n := n + 1;
    }
  }

  lemma TilesReach(blocks: seq<Net>, f: Family, s: nat, e: nat, v: nat) returns (i: nat)
    requires Tiles(blocks, f, s, e) && s <= v <= e
    ensures i < |blocks| && blocks[i].base <= v <= blocks[i].Last()
  {
    i := 0;
    while blocks[i].Last() < v
      invariant 0 <= i < |blocks| && blocks[i].base <= v
      decreases |blocks| - i
    {
      i := i + 1;
    }
  }

  /** A tiling holds exactly the addresses of the range, each address in one block only. */
  lemma TilesExact(blocks: seq<Net>, f: Family, s: nat, e: nat)
    requires Tiles(blocks, f, s, e)
    ensures forall a :: InSome(blocks, a) <==> a.fam == f && s <= a.val <= e
    ensures forall i, j, a :: 0 <= i < j < |blocks| && blocks[i].Contains(a) ==> !blocks[j].Contains(a)
  {
    forall a
      ensures InSome(blocks, a) <==> a.fam == f && s <= a.val <= e
    {
      if InSome(blocks, a) {
        var i :| 0 <= i < |blocks| && blocks[i].Contains(a);
        ContainsInterval(blocks[i], a);
        TilesInside(blocks, f, s, e, i);
      } else if a.fam == f && s <= a.val <= e {
        var i := TilesReach(blocks, f, s, e, a.val);
        ContainsInterval(blocks[i], a);
      }
    }
    forall i, j, a | 0 <= i < j < |blocks| && blocks[i].Contains(a)
      ensures !blocks[j].Contains(a)
    {
      TilesInside(blocks, f, s, e, j);
      ContainsInterval(blocks[i], a);
      ContainsInterval(blocks[j], a);
    }
  }

  // ---- no shorter list of blocks ------------------------------------------------------

  /** Every CIDR block inside the range lies inside one block of a greedy tiling. */
  lemma GreedyMaximal(blocks: seq<Net>, f: Family, s: nat, e: nat, n: Net) returns (i: nat)
    requires Greedy(blocks, f, s, e)
    requires n.Valid() && n.fam == f && s <= n.base && n.Last() <= e
    ensures i < |blocks| && blocks[i].base <= n.base && n.Last() <= blocks[i].Last()
  {
    i := TilesReach(blocks, f, s, e, n.base);
    var block := blocks[i];
    ContainsInterval(block, n.First());
    ContainsInterval(n, n.First());
    if block.plen <= n.plen {
      Laminar(n, block, n.First());
    } else {
      Laminar(block, n, n.First());
      assert false;
    }
  }

  /** `cover` is a list of CIDR blocks whose union is exactly [s, e]. */
  ghost predicate CoversExactly(cover: seq<Net>, f: Family, s: nat, e: nat) {
    && (forall i :: 0 <= i < |cover| ==> cover[i].Valid())
    && (forall a :: InSome(cover, a) <==> a.fam == f && s <= a.val <= e)
  }

  lemma CoverInside(cover: seq<Net>, f: Family, s: nat, e: nat, i: nat)
    requires CoversExactly(cover, f, s, e) && i < |cover|
    ensures cover[i].fam == f && s <= cover[i].base && cover[i].Last() <= e
  {
    ContainsInterval(cover[i], cover[i].First());
    ContainsInterval(cover[i], cover[i].LastIP());
    assert InSome(cover, cover[i].First()) && InSome(cover, cover[i].LastIP());
  }

  lemma OneBlock(blocks: seq<Net>, f: Family, s: nat, e: nat, m: nat, i: nat)
    requires Tiles(blocks, f, s, e) && m < |blocks| && i < |blocks|
    requires blocks[m].base <= blocks[i].base <= blocks[m].Last()
    ensures i == m
  {
    if i < m {
      TilesInside(blocks, f, s, e, m);
    } else if m < i {
      TilesInside(blocks, f, s, e, i);
    }
  }

  /** A CIDR block inside the range holds the start of at most one block of the tiling. */
  lemma OneStart(blocks: seq<Net>, f: Family, s: nat, e: nat, n: Net, i: nat, j: nat)
    requires Greedy(blocks, f, s, e) && i < |blocks| && j < |blocks|
    requires n.Valid() && n.fam == f && s <= n.base && n.Last() <= e
    requires n.Contains(blocks[i].First()) && n.Contains(blocks[j].First())
    ensures i == j
  {
    var m := GreedyMaximal(blocks, f, s, e, n);
    ContainsInterval(n, blocks[i].First());
    ContainsInterval(n, blocks[j].First());
    OneBlock(blocks, f, s, e, m, i);
    OneBlock(blocks, f, s, e, m, j);
  }

  /** No list of CIDR blocks with the same union is shorter than a greedy tiling. */
  lemma GreedyMinimal(blocks: seq<Net>, f: Family, s: nat, e: nat, cover: seq<Net>)
    requires Greedy(blocks, f, s, e)
    requires CoversExactly(cover, f, s, e)
    ensures |blocks| <= |cover|
  {
    var pick: seq<nat> := [];
    while |pick| < |blocks|
      invariant |pick| <= |blocks|
      invariant forall i :: 0 <= i < |pick| ==> pick[i] < |cover| && cover[pick[i]].Contains(blocks[i].First())
    {
      var at := blocks[|pick|].First();
      TilesInside(blocks, f, s, e, |pick|);
      assert InSome(cover, at);
      var c: nat :| c < |cover| && cover[c].Contains(at);
      pick := pick + [c];
    }
    forall i, j | 0 <= i < j < |pick|
      ensures pick[i] != pick[j]
    {
      if pick[i] == pick[j] {
        CoverInside(cover, f, s, e, pick[i]);
        OneStart(blocks, f, s, e, cover[pick[i]], i, j);
      }
    }
    Pigeonhole(pick, |cover|);
  }

  // ---- at most 2W - 2 blocks -----------------------------------------------------------

  lemma {:induction false} ZeroAligned(k: nat)
    ensures Aligned(0, k)
  {
    if k > 0 { ZeroAligned(k - 1); }
  }

  lemma GreedyRest(blocks: seq<Net>, f: Family, s: nat, e: nat)
    requires Greedy(blocks, f, s, e) && |blocks| > 1
    ensures Greedy(blocks[1..], f, s + Pow2(blocks[0].HostBits()), e)
    ensures s + Pow2(blocks[0].HostBits()) <= e
  {
    TilesInside(blocks, f, s, e, 1);
  }

  lemma TailStep(b: Net, e: nat, m: nat)
    requires b.Valid() && Largest(b, e) && b.Last() <= e
    requires m <= Width(b.fam) && Aligned(b.base, m) && e - b.base + 1 < Pow2(m)
    ensures b.HostBits() < m
    ensures Aligned(b.base + Pow2(b.HostBits()), b.HostBits())
    ensures e - b.base + 1 < 2 * Pow2(b.HostBits())
  {
    var k := b.HostBits();
    if k >= m {
      Pow2Monotonic(m, k);
    } else {
      AlignedLower(b.base, k + 1, m);
    }
    AlignedNext(b.base, k);
  }

  /** Once the remaining length is below the alignment, block sizes strictly decrease. */
  lemma {:induction false} GreedyTail(blocks: seq<Net>, f: Family, s: nat, e: nat, m: nat)
    requires Greedy(blocks, f, s, e) && m <= Width(f)
    requires Aligned(s, m) && e - s + 1 < Pow2(m)
    ensures |blocks| <= m
    decreases |blocks|
  {
    var k := blocks[0].HostBits();
    TilesInside(blocks, f, s, e, 0);
    TailStep(blocks[0], e, m);
    if |blocks| > 1 {
      GreedyRest(blocks, f, s, e);
      GreedyTail(blocks[1..], f, s + Pow2(k), e, k);
    }
  }

  /** Below 2^w only zero is aligned to w bits. */
  lemma AlignedBelow(v: nat, w: nat)
    requires Aligned(v, w) && v < Pow2(w)
    ensures v == 0
  {
    ZeroAligned(w);
    if v > 0 {
      AlignedApart(0, v, w);
    }
  }

  /** A start other than zero has fewer zero bits than the family is wide. */
  lemma StartBits(f: Family, s: nat, k: nat)
    requires 0 < s <= Max(f) && k <= Width(f) && Aligned(s, k)
    ensures k < Width(f)
  {
    if k == Width(f) {
      AlignedBelow(s, k);
    }
  }

  /** A block limited by its alignment makes the next start more aligned. */
  lemma BodyStep(b: Net, j: nat)
    requires b.Valid() && 0 < b.base && b.Last() < Max(b.fam)
    requires Aligned(b.base, j) && !Aligned(b.base, b.HostBits() + 1)
    ensures j <= b.HostBits() && b.HostBits() + 1 < Width(b.fam)
    ensures Aligned(b.base + Pow2(b.HostBits()), b.HostBits() + 1)
  {
    var k := b.HostBits();
    if k < j {
      AlignedLower(b.base, k + 1, j);
    }
    StartBits(b.fam, b.base, k);
    AlignedCarry(b.base, k);
    StartBits(b.fam, b.base + Pow2(k), k + 1);
  }

  /** From a start with at least `j` zero bits, sizes first strictly increase, then decrease. */
  lemma {:induction false} GreedyBody(blocks: seq<Net>, f: Family, s: nat, e: nat, j: nat)
    requires Greedy(blocks, f, s, e) && 0 < s && e <= Max(f) && j < Width(f)
    requires Aligned(s, j)
    ensures |blocks| <= 2 * Width(f) - 2 - j
    decreases |blocks|
  {
    var k := blocks[0].HostBits();
    TilesInside(blocks, f, s, e, 0);
    StartBits(f, s, k);
    if Aligned(s, k + 1) {
      StartBits(f, s, k + 1);
      GreedyTail(blocks, f, s, e, k + 1);
    } else if |blocks| > 1 {
      GreedyRest(blocks, f, s, e);
      BodyStep(blocks[0], j);
      GreedyBody(blocks[1..], f, s + Pow2(k), e, k + 1);
    }
  }

  /** A range never needs more than 62 IPv4 or 254 IPv6 blocks. */
  lemma GreedyShort(blocks: seq<Net>, f: Family, s: nat, e: nat)
    requires Greedy(blocks, f, s, e) && e <= Max(f)
    ensures |blocks| <= 2 * Width(f) - 2
  {
    var w := Width(f);
    TilesInside(blocks, f, s, e, 0);
    if s > 0 {
      GreedyBody(blocks, f, s, e, 0);
    } else if e < Max(f) {
      ZeroAligned(w);
      GreedyTail(blocks, f, s, e, w);
    } else {
      ZeroAligned(w);
      assert Largest(blocks[0], e);
      if |blocks| > 1 {
        TilesInside(blocks, f, s, e, 1);
      }
    }
  }
}
