/**
Address ranges and their translation into CIDR blocks (pkg/daemon/utils/ip_range.go). `Range` is
the value of a range, `IPRange` the object that the daemon widens in place.
*/
module IPRanges {
  import opened Powers
  import opened Addresses
  import opened RangeSplit

  datatype Range = Range(start: Addr, end: Addr)
  {
    /** Both ends in one family and in order, as CreateIPRange leaves them. */
    predicate Valid() {
      start.fam == end.fam && start.val <= end.val && InFamily(end)
    }

    predicate Covers(a: Addr) {
      a.fam == start.fam && start.val <= a.val <= end.val
    }

    /** `a` lies in the range or next to one of its ends. */
    predicate Touches(a: Addr) {
      a.fam == start.fam && start.val <= a.val + 1 && a.val <= end.val + 1
    }
  }

  ghost predicate AnyCovers(rs: seq<Range>, a: Addr) {
    exists i :: 0 <= i < |rs| && rs[i].Covers(a)
  }

  // ---- the first block of a range --------------------------------------------------------

  lemma BlockFits(f: Family, v: nat, k: nat)
    requires v <= Max(f) && k <= Width(f) && Aligned(v, k)
    ensures Net(f, v, Width(f) - k).Valid()
  {
    var w := Width(f);
    ZeroAligned(w);
    AlignedNext(0, w);
    AlignedLower(Pow2(w), k, w);
    AlignedApart(v, Pow2(w), k);
  }

  /** The number of trailing zero bits: the prefix is lengthened until masking changes nothing. */
  method CalculateIPLastZeroBits(ip: Addr) returns (zeros: nat)
    ensures zeros <= Width(ip.fam) && Aligned(ip.val, zeros)
    ensures forall j {:trigger Aligned(ip.val, j)} :: zeros < j <= Width(ip.fam) ==> !Aligned(ip.val, j)
  {
    var w, prefix := Width(ip.fam), 0;
    while Mask(ip.val, w - prefix) != ip.val
      invariant 0 <= prefix <= w
      invariant forall j {:trigger Aligned(ip.val, j)} :: w - prefix < j <= w ==> !Aligned(ip.val, j)
      decreases w - prefix
    {
      prefix := prefix + 1;
    }
    zeros := w - prefix;
  }

  /** The largest block that starts at `start` and ends no later than `end`, and where to go on. */
  method FindTheFirstLargestCidr(start: Addr, end: Addr) returns (block: Net, next: Option<Addr>)
    requires Range(start, end).Valid() && Regular(start)
    ensures block.Valid() && block.First() == start && block.Last() <= end.val
    ensures Largest(block, end.val)
    ensures next == if block.Last() == end.val then None else Some(Addr(start.fam, block.Last() + 1))
  {
    var zeroBits := CalculateIPLastZeroBits(start);
    var w := Width(start.fam);
    var plen := w - zeroBits;
    while true
      invariant w - zeroBits <= plen <= w
      invariant forall j {:trigger Aligned(start.val, j)} ::
                  w - plen < j <= w && Aligned(start.val, j) ==> start.val + Pow2(j) - 1 > end.val
      decreases w - plen
    {
      block := Net(start.fam, start.val, plen);
      AlignedLower(start.val, w - plen, zeroBits);
      BlockFits(start.fam, start.val, w - plen);
      ContainsInterval(block, end);
      if block.LastIP() == end {
        return block, None;
      }
      if block.Contains(end) {
        plen := plen + 1;
      } else {
        return block, Some(NextIP(block.LastIP()));
      }
    }
  }

  // ---- the mutable range -------------------------------------------------------------------

  /** `blocks` tile the addresses from `start` up to, not including, `next`. */
  ghost predicate GreedyUpTo(blocks: seq<Net>, start: Addr, end: Addr, next: Addr) {
    && next.fam == start.fam && start.val <= next.val <= end.val
    && (forall i :: 0 <= i < |blocks| ==> Largest(blocks[i], end.val))
    && (blocks == [] ==> next == start)
    && (blocks != [] ==> next.val > 0 && Tiles(blocks, start.fam, start.val, next.val - 1))
  }

  lemma GreedyAppend(blocks: seq<Net>, start: Addr, end: Addr, next: Addr, b: Net)
    requires GreedyUpTo(blocks, start, end, next)
    requires b.Valid() && b.First() == next && b.Last() <= end.val && Largest(b, end.val)
    ensures b.Last() == end.val ==> Greedy(blocks + [b], start.fam, start.val, end.val)
    ensures b.Last() < end.val ==> GreedyUpTo(blocks + [b], start, end, Addr(start.fam, b.Last() + 1))
  {
  }

  class IPRange {
    var start: Addr
    var end: Addr

    constructor (start: Addr, end: Addr)
      ensures this.start == start && this.end == end
    {
      this.start, this.end := start, end;
    }

    function Value(): (r: Range)
      reads this
    {
      Range(start, end)
    }

    /** Absorbs an address that touches the range; any other is refused. The range then covers that
        address and no other more, except that a range starting at 0.0.0.0 loses that address when
        given 0.0.0.1, which PrevIP takes for the predecessor; the range of 0.0.0.0 alone is then no
        range any more. */
    method TryAddIP(ip: Addr) returns (success: bool)
      requires Value().Valid() && Regular(start) && Inner(end)
      requires InFamily(ip)
      modifies this
      ensures success <==> old(Value()).Touches(ip)
      ensures !success ==> Value() == old(Value())
      ensures success ==>
                ((forall a :: Value().Covers(a) <==> old(Value()).Covers(a) || a == ip)
                 <==> !(old(start.val) == 0 && ip.val == 1))
      ensures start in {old(start), ip} && end in {old(end), ip}
      ensures old(Value()).Touches(ip) && old(start.val) == 0 && ip.val == 1 ==> Value() == Range(ip, old(end))
      ensures Value().Valid() <==> !(old(Value()) == Range(Addr(ip.fam, 0), Addr(ip.fam, 0)) && ip.val == 1)
    {
      ghost var zero := Addr(start.fam, 0);
      if ip == PrevIP(start) {
        start := ip;
        assert old(start.val) == 0 ==> old(Value()).Covers(zero) && !Value().Covers(zero);
        return true;
      }
      if ip == NextIP(end) {
        end := ip;
        return true;
      }
      if Cmp(ip, start) >= 0 && Cmp(ip, end) <= 0 {
        return true;
      }
      return false;
    }

    /** The range cut into blocks, largest first: a greedy tiling of it. */
    method SplitIPRangeToIPBlocks() returns (blocks: seq<Net>)
      requires Value().Valid() && Regular(start)
      ensures Greedy(blocks, start.fam, start.val, end.val)
    {
      blocks := [];
      var nextRangeStart := Some(start);
      while nextRangeStart.Some?
        invariant nextRangeStart.None? ==> Greedy(blocks, start.fam, start.val, end.val)
        invariant nextRangeStart.Some? ==> GreedyUpTo(blocks, start, end, nextRangeStart.value)
        decreases if nextRangeStart.Some? then end.val - nextRangeStart.value.val + 1 else 0
      {
        var newBlock: Net;
        ghost var from := nextRangeStart.value;
        newBlock, nextRangeStart := FindTheFirstLargestCidr(nextRangeStart.value, end);
        GreedyAppend(blocks, start, end, from, newBlock);
        blocks := blocks + [newBlock];
      }
    }
  }

  /** A new range, or none when the bounds are in the wrong order. */
  method CreateIPRange(start: Addr, end: Addr) returns (r: IPRange?)
    ensures r == null <==> Cmp(start, end) > 0
    ensures r != null ==> fresh(r) && r.Value() == Range(start, end)
  {
    if Cmp(start, end) > 0 {
      return null;
    }
    r := new IPRange(start, end);
  }
}
