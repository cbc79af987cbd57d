/**
The translation of a subnet's ranges, excluded addresses and gateway into the CIDR blocks that do
not belong to its pods (FindSubnetExcludeIPBlocks of pkg/daemon/utils/ip_range.go).
*/
module ExcludeBlocks {
  import opened Addresses
  import opened Finite
  import opened RangeSplit
  import opened IPRanges

  datatype Result<+T> = Ok(value: T) | Err

  // ---- what the blocks have to hold -------------------------------------------------------

  /** The addresses kept from a subnet's pods: those outside its ranges, when it has any, the
      excluded addresses and the gateway. */
  ghost predicate Excluded(cidr: Net, included: seq<Range>, gateway: Option<Addr>, excludeIPs: seq<Addr>, a: Addr) {
    || (included != [] && cidr.Contains(a) && !AnyCovers(included, a))
    || a in excludeIPs
    || gateway == Some(a)
  }

  predicate Inside(r: Range, cidr: Net) {
    r.start.fam == cidr.fam && cidr.base <= r.start.val && r.end.val <= cidr.Last()
  }

  predicate Apart(r: Range, q: Range) {
    r.start.fam != q.start.fam || r.end.val < q.start.val || q.end.val < r.start.val
  }

  ghost predicate PairwiseApart(rs: seq<Range>) {
    forall i, j :: 0 <= i < j < |rs| ==> Apart(rs[i], rs[j])
  }

  ghost predicate AllInside(rs: seq<Range>, cidr: Net) {
    forall i :: 0 <= i < |rs| ==> Inside(rs[i], cidr)
  }

  ghost predicate AllValid(rs: seq<Range>) {
    forall i :: 0 <= i < |rs| ==> rs[i].Valid() && Regular(rs[i].start)
  }

  // ---- sorting ------------------------------------------------------------------------------

  ghost predicate Ascending(rs: seq<Range>) {
    forall i, j :: 0 <= i < j < |rs| ==> rs[i].start.val <= rs[j].start.val
  }

  function Insert(s: seq<Range>, p: nat, r: Range): (t: seq<Range>)
    requires p <= |s|
    ensures |t| == |s| + 1
  {
    s[..p] + [r] + s[p..]
  }

  lemma InsertApart(s: seq<Range>, p: nat, r: Range)
    requires p <= |s|
    ensures PairwiseApart(Insert(s, p, r)) <==> PairwiseApart(s) && forall i :: 0 <= i < |s| ==> Apart(s[i], r)
  {
    var t := Insert(s, p, r);
    if PairwiseApart(t) {
      forall i, j | 0 <= i < j < |s|
        ensures Apart(s[i], s[j])
      {
        assert Apart(t[if i < p then i else i + 1], t[if j < p then j else j + 1]);
      }
      forall i | 0 <= i < |s|
        ensures Apart(s[i], r)
      {
        assert if i < p then Apart(t[i], t[p]) else Apart(t[p], t[i + 1]);
      }
    } else {
      var i, j :| 0 <= i < j < |t| && !Apart(t[i], t[j]);
      assert i != p && j != p ==> !Apart(s[if i < p then i else i - 1], s[if j < p then j else j - 1]);
      assert j == p ==> !Apart(s[i], r);
      assert i == p ==> !Apart(s[j - 1], r);
    }
  }

  lemma SameMembers<T>(s: seq<T>, t: seq<T>)
    requires multiset(s) == multiset(t)
    ensures forall x :: x in s <==> x in t
  {
    forall x
      ensures x in s <==> x in t
    {
      assert x in s <==> x in multiset(s);
      assert x in t <==> x in multiset(t);
    }
  }

  lemma InsertStep(s: seq<Range>, done: seq<Range>, p: nat, r: Range)
    requires multiset(s) == multiset(done) && p <= |s|
    requires PairwiseApart(s) <==> PairwiseApart(done)
    ensures multiset(Insert(s, p, r)) == multiset(done + [r])
    ensures PairwiseApart(Insert(s, p, r)) <==> PairwiseApart(done + [r])
  {
    SameMembers(s, done);
    InsertApart(s, p, r);
    InsertApart(done, |done|, r);
    assert Insert(done, |done|, r) == done + [r];
    assert s == s[..p] + s[p..];
    assert forall i :: 0 <= i < |s| ==> s[i] in done;
    assert forall i :: 0 <= i < |done| ==> done[i] in s;
  }

  /** The position before the first range that starts later than `r`. */
  method FindPosition(s: seq<Range>, r: Range) returns (p: nat)
    ensures p <= |s|
    ensures (forall i :: 0 <= i < |s| ==> s[i].start.fam == r.start.fam) && Ascending(s) ==> Ascending(Insert(s, p, r))
  {
    p := 0;
    while p < |s| && !(Cmp(r.start, s[p].start) < 0)
      invariant 0 <= p <= |s|
      invariant forall i :: 0 <= i < p ==> !(Cmp(r.start, s[i].start) < 0)
    {
      p := p + 1;
    }
  }

  /** The ranges ordered by their start. Comparison is meaningful only within one family. */
  method SortByStart(rs: seq<Range>, ghost f: Family) returns (s: seq<Range>)
    ensures multiset(s) == multiset(rs)
    ensures PairwiseApart(s) <==> PairwiseApart(rs)
    ensures (forall r :: r in rs ==> r.start.fam == f) ==> Ascending(s)
  {
    if rs == [] {
      return [];
    }
    var done, r := rs[..|rs| - 1], rs[|rs| - 1];
    assert rs == done + [r];
    s := SortByStart(done, f);
    var p := FindPosition(s, r);
    SameMembers(s, done);
    InsertStep(s, done, p, r);
    s := Insert(s, p, r);
  }

  // ---- the gaps between the ranges ------------------------------------------------------------

  ghost predicate Consecutive(rs: seq<Range>) {
    forall i :: 0 <= i < |rs| - 1 ==> rs[i].end.val < rs[i + 1].start.val
  }

  lemma {:induction false} ConsecutiveFar(rs: seq<Range>, cidr: Net, i: nat, j: nat)
    requires AllValid(rs) && AllInside(rs, cidr) && Consecutive(rs) && i < j < |rs|
    ensures rs[i].end.val < rs[j].start.val
    decreases j - i
  {
    if i + 1 < j {
      ConsecutiveFar(rs, cidr, i, j - 1);
      assert rs[j - 1].end.val < rs[j - 1 + 1].start.val;
    }
  }

  lemma ConsecutiveIsApart(rs: seq<Range>, cidr: Net)
    requires AllValid(rs) && AllInside(rs, cidr) && Ascending(rs)
    ensures Consecutive(rs) <==> PairwiseApart(rs)
  {
    if Consecutive(rs) {
      forall i, j | 0 <= i < j < |rs|
        ensures Apart(rs[i], rs[j])
      {
        ConsecutiveFar(rs, cidr, i, j);
      }
    } else {
      var i :| 0 <= i < |rs| - 1 && !(rs[i].end.val < rs[i + 1].start.val);
      assert !Apart(rs[i], rs[i + 1]);
    }
  }

  function Gap(f: Family, lo: nat, hi: int): (g: seq<Range>) {
    if lo <= hi then [Range(Addr(f, lo), Addr(f, hi))] else []
  }

  function Bound(rs: seq<Range>, cidr: Net, i: nat): (b: nat)
    requires i <= |rs|
  {
    if i == |rs| then cidr.Last() + 1 else rs[i].start.val
  }

  /** The gaps that the range at `i` adds: the one before it, if it is the first, and the one after it. */
  function GapsAt(rs: seq<Range>, cidr: Net, i: nat): (g: seq<Range>)
    requires i < |rs|
  {
    (if i == 0 then Gap(cidr.fam, cidr.base, rs[0].start.val - 1) else [])
    + Gap(cidr.fam, rs[i].end.val + 1, Bound(rs, cidr, i + 1) - 1)
  }

  /** The gaps found after the first `i` ranges. */
  function Gaps(rs: seq<Range>, cidr: Net, i: nat): (g: seq<Range>)
    requires i <= |rs|
  {
    if i == 0 then [] else Gaps(rs, cidr, i - 1) + GapsAt(rs, cidr, i - 1)
  }

  ghost predicate Steady(r: Range) {
    r.Valid() && Inner(r.start) && Inner(r.end)
  }

  ghost predicate InnerNet(cidr: Net) {
    cidr.Valid() && Inner(cidr.First()) && Inner(cidr.LastIP())
  }

  /** No range of a block from 0.0.0.0 starts there. */
  ghost predicate NoneAtZero(cidr: Net, rs: seq<Range>) {
    cidr.base == 0 ==> forall i :: 0 <= i < |rs| ==> rs[i].start.val > 0
  }

  ghost predicate AllSteady(v: seq<Range>) {
    forall i :: 0 <= i < |v| ==> Steady(v[i])
  }

  ghost predicate AboveZero(v: seq<Range>) {
    forall i :: 0 <= i < |v| ==> v[i].start.val > 0
  }

  lemma CoversAppend(rs: seq<Range>, qs: seq<Range>, a: Addr)
    ensures AnyCovers(rs + qs, a) <==> AnyCovers(rs, a) || AnyCovers(qs, a)
  {
    if AnyCovers(rs, a) {
      var i :| 0 <= i < |rs| && rs[i].Covers(a);
      assert (rs + qs)[i].Covers(a);
    }
    if AnyCovers(qs, a) {
      var i :| 0 <= i < |qs| && qs[i].Covers(a);
      assert (rs + qs)[|rs| + i].Covers(a);
    }
  }

  lemma GapCovers(f: Family, lo: nat, hi: int, a: Addr)
    ensures AnyCovers(Gap(f, lo, hi), a) <==> a.fam == f && lo <= a.val <= hi
  {
    if lo <= hi {
      assert Gap(f, lo, hi)[0].Covers(a) <==> a.fam == f && lo <= a.val <= hi;
    }
  }

  lemma GapsAtCovers(rs: seq<Range>, cidr: Net, i: nat, a: Addr)
    requires i < |rs|
    ensures AnyCovers(GapsAt(rs, cidr, i), a) <==>
            && a.fam == cidr.fam
            && (|| (i == 0 && cidr.base <= a.val < rs[0].start.val)
                || (rs[i].end.val < a.val < Bound(rs, cidr, i + 1)))
  {
    var first := if i == 0 then Gap(cidr.fam, cidr.base, rs[0].start.val - 1) else [];
    CoversAppend(first, Gap(cidr.fam, rs[i].end.val + 1, Bound(rs, cidr, i + 1) - 1), a);
    GapCovers(cidr.fam, cidr.base, rs[0].start.val - 1, a);
    GapCovers(cidr.fam, rs[i].end.val + 1, Bound(rs, cidr, i + 1) - 1, a);
  }

  lemma CoversLast(rs: seq<Range>, i: nat, a: Addr)
    requires i < |rs|
    ensures AnyCovers(rs[..i + 1], a) <==> AnyCovers(rs[..i], a) || rs[i].Covers(a)
  {
    assert rs[..i + 1] == rs[..i] + [rs[i]];
    CoversAppend(rs[..i], [rs[i]], a);
    assert rs[i].Covers(a) ==> [rs[i]][0].Covers(a);
  }

  /** Beyond the start of the range at `i`, no earlier range covers anything. */
  lemma CoversBefore(rs: seq<Range>, cidr: Net, i: nat, a: Addr)
    requires AllValid(rs) && AllInside(rs, cidr) && Consecutive(rs) && i < |rs|
    requires AnyCovers(rs[..i], a)
    ensures a.val < rs[i].start.val
  {
    var j :| 0 <= j < i && rs[..i][j].Covers(a);
    ConsecutiveFar(rs, cidr, j, i);
  }

  /** The gaps hold exactly the addresses of the block that lie in no range. */
  lemma {:induction false} GapsExact(rs: seq<Range>, cidr: Net, i: nat, a: Addr)
    requires AllValid(rs) && AllInside(rs, cidr) && Consecutive(rs) && i <= |rs|
    ensures AnyCovers(Gaps(rs, cidr, i), a) <==>
            i > 0 && a.fam == cidr.fam && cidr.base <= a.val < Bound(rs, cidr, i) && !AnyCovers(rs[..i], a)
  {
    if i > 0 {
      var k := i - 1;
      GapsExact(rs, cidr, k, a);
      CoversAppend(Gaps(rs, cidr, k), GapsAt(rs, cidr, k), a);
      GapsAtCovers(rs, cidr, k, a);
      CoversLast(rs, k, a);
      if AnyCovers(rs[..k], a) {
        CoversBefore(rs, cidr, k, a);
      }
      assert Inside(rs[k], cidr) && rs[k].end.val < Bound(rs, cidr, k + 1);
    }
  }

  lemma {:induction false} GapsSteady(rs: seq<Range>, cidr: Net, i: nat)
    requires InnerNet(cidr)
    requires AllValid(rs) && AllInside(rs, cidr) && i <= |rs|
    ensures forall j :: 0 <= j < |Gaps(rs, cidr, i)| ==> Steady(Gaps(rs, cidr, i)[j])
  {
    if i > 0 {
      GapsSteady(rs, cidr, i - 1);
    }
  }

  lemma {:induction false} GapsAboveZero(rs: seq<Range>, cidr: Net, i: nat)
    requires AllValid(rs) && i <= |rs|
    ensures cidr.base > 0 || rs == [] ==> AboveZero(Gaps(rs, cidr, i))
  {
    if i > 0 {
      GapsAboveZero(rs, cidr, i - 1);
    }
  }

  // ---- the method -----------------------------------------------------------------------------

  /** The range objects have the given values. */
  ghost predicate Hold(rs: seq<IPRange>, v: seq<Range>)
    reads rs
  {
    |rs| == |v| && forall i :: 0 <= i < |rs| ==> rs[i].Value() == v[i]
  }

  /** The list with the range from `lo` to `hi` added, if that is a range at all. */
  method AppendRange(rs: seq<IPRange>, lo: Addr, hi: Addr, ghost v: seq<Range>) returns (out: seq<IPRange>)
    requires Distinct(rs)
    ensures Distinct(out) && |rs| <= |out| && out[..|rs|] == rs
    ensures forall i :: |rs| <= i < |out| ==> fresh(out[i])
    ensures Hold(rs, v) && lo.fam == hi.fam ==> Hold(out, v + Gap(lo.fam, lo.val, hi.val))
  {
    var r := CreateIPRange(lo, hi);
    if r == null {
      return rs;
    }
    return rs + [r];
  }

  /** One turn of the first loop, after its checks. */
  method AddGapsAt(rs: seq<IPRange>, cidr: Net, ranges: seq<Range>, i: nat, ghost v: seq<Range>)
    returns (out: seq<IPRange>)
    requires Distinct(rs) && i < |ranges| && AllValid(ranges)
    requires InnerNet(cidr) && Inside(ranges[i], cidr) && NoneAtZero(cidr, ranges)
    requires i + 1 < |ranges| ==> Cmp(ranges[i].end, ranges[i + 1].start) < 0
    ensures Distinct(out) && |rs| <= |out| && out[..|rs|] == rs
    ensures forall j :: |rs| <= j < |out| ==> fresh(out[j])
    ensures Hold(rs, v) && AllInside(ranges, cidr) ==> Hold(out, v + GapsAt(ranges, cidr, i))
  {
    out := rs;
    ghost var first: seq<Range> := [];
    if i == 0 {
      out := AppendRange(out, cidr.First(), PrevIP(ranges[i].start), v);
      first := Gap(cidr.fam, cidr.base, ranges[i].start.val - 1);
    }
    assert v + [] == v;
    var bound := if i == |ranges| - 1 then cidr.LastIP() else PrevIP(ranges[i + 1].start);
    out := AppendRange(out, NextIP(ranges[i].end), bound, v + first);
    ghost var after := Gap(cidr.fam, ranges[i].end.val + 1, Bound(ranges, cidr, i + 1) - 1);
    assert v + first + after == v + (first + after);
  }

  /** The first loop: the ranges are checked one by one and the gaps between them collected. */
  method CollectGaps(cidr: Net, ranges: seq<Range>) returns (r: Result<seq<IPRange>>)
    requires InnerNet(cidr) && AllValid(ranges) && NoneAtZero(cidr, ranges)
    ensures r.Ok? <==> AllInside(ranges, cidr) && Consecutive(ranges)
    ensures r.Ok? ==> Distinct(r.value) && Hold(r.value, Gaps(ranges, cidr, |ranges|))
    ensures r.Ok? ==> forall i :: 0 <= i < |r.value| ==> fresh(r.value[i])
  {
    var gaps: seq<IPRange> := [];
    for i := 0 to |ranges|
      invariant Distinct(gaps)
      invariant forall j :: 0 <= j < |gaps| ==> fresh(gaps[j])
      invariant forall j :: 0 <= j < i ==> Inside(ranges[j], cidr)
      invariant forall j :: 0 <= j < i && j < |ranges| - 1 ==> Cmp(ranges[j].end, ranges[j + 1].start) < 0
      invariant AllInside(ranges, cidr) ==> Hold(gaps, Gaps(ranges, cidr, i))
    {
      var current := ranges[i];
      if Cmp(current.start, cidr.First()) < 0 || Cmp(current.end, cidr.LastIP()) > 0 {
        assert !Inside(ranges[i], cidr);
        return Err;
      }
      if i < |ranges| - 1 && Cmp(current.end, ranges[i + 1].start) >= 0 {
        assert !(ranges[i].end.val < ranges[i + 1].start.val);
        return Err;
      }
      gaps := AddGapsAt(gaps, cidr, ranges, i, Gaps(ranges, cidr, i));
    }
    return Ok(gaps);
  }

  // ---- the excluded addresses ---------------------------------------------------------------

  /** 0.0.0.1 is not absorbed by a range that starts at 0.0.0.0: it is not excluded, or nothing starts there. */
  ghost predicate OneWithoutZero(v: seq<Range>, ips: seq<Addr>) {
    (exists i :: 0 <= i < |ips| && ips[i].val == 1) ==> AboveZero(v) && forall i :: 0 <= i < |ips| ==> ips[i].val > 0
  }

  /** `w` covers what `v` covers, and `ip`. */
  ghost predicate CoversOneMore(w: seq<Range>, v: seq<Range>, ip: Addr) {
    forall a :: AnyCovers(w, a) <==> AnyCovers(v, a) || a == ip
  }

  lemma WidenCovers(v: seq<Range>, i: nat, r: Range, ip: Addr)
    requires i < |v| && forall a :: r.Covers(a) <==> v[i].Covers(a) || a == ip
    ensures CoversOneMore(v[i := r], v, ip)
  {
    var w := v[i := r];
    forall a
      ensures AnyCovers(w, a) <==> AnyCovers(v, a) || a == ip
    {
      if AnyCovers(v, a) {
        var j :| 0 <= j < |v| && v[j].Covers(a);
        assert w[j].Covers(a);
      }
      assert w[i].Covers(ip);
    }
  }

  lemma SingleCovers(v: seq<Range>, ip: Addr)
    ensures CoversOneMore(v + [Range(ip, ip)], v, ip)
  {
    forall a
      ensures AnyCovers(v + [Range(ip, ip)], a) <==> AnyCovers(v, a) || a == ip
    {
      CoversAppend(v, [Range(ip, ip)], a);
      assert [Range(ip, ip)][0].Covers(a) <==> a == ip;
    }
  }

  /** One address is given to the first range that takes it, or to a new range of its own; ranges may
      come to overlap, but together they cover that address more and nothing else. */
  method AbsorbIP(rs: seq<IPRange>, ip: Addr, ghost v: seq<Range>) returns (out: seq<IPRange>, ghost w: seq<Range>)
    requires Distinct(rs) && Hold(rs, v) && AllSteady(v) && Inner(ip) && (ip.val == 1 ==> AboveZero(v))
    modifies rs
    ensures Distinct(out) && |rs| <= |out| && out[..|rs|] == rs
    ensures forall i :: |rs| <= i < |out| ==> fresh(out[i])
    ensures Hold(out, w) && AllSteady(w) && CoversOneMore(w, v, ip) && (AboveZero(v) && ip.val > 0 ==> AboveZero(w))
  {
    for i := 0 to |rs|
      invariant Hold(rs, v)
    {
      var success := rs[i].TryAddIP(ip);
      if success {
        WidenCovers(v, i, rs[i].Value(), ip);
        return rs, v[i := rs[i].Value()];
      }
    }
    var single := CreateIPRange(ip, ip);
    SingleCovers(v, ip);
    return rs + [single], v + [Range(ip, ip)];
  }

  /** The second loop: every excluded address in turn. */
  method AbsorbIPs(rs: seq<IPRange>, ips: seq<Addr>, ghost v: seq<Range>)
    returns (out: seq<IPRange>, ghost w: seq<Range>)
    requires Distinct(rs) && Hold(rs, v) && AllSteady(v)
    requires OneWithoutZero(v, ips) && forall i :: 0 <= i < |ips| ==> Inner(ips[i])
    modifies rs
    ensures Hold(out, w) && AllSteady(w)
    ensures forall a :: AnyCovers(w, a) <==> AnyCovers(v, a) || a in ips
  {
    out, w := rs, v;
    for n := 0 to |ips|
      invariant Distinct(out) && Hold(out, w) && AllSteady(w)
      invariant (exists i :: 0 <= i < |ips| && ips[i].val == 1) ==> AboveZero(w)
      invariant forall i :: 0 <= i < |out| ==> out[i] in rs || fresh(out[i])
      invariant forall a :: AnyCovers(w, a) <==> AnyCovers(v, a) || a in ips[..n]
    {
      ghost var u, before := w, out;
      out, w := AbsorbIP(out, ips[n], w);
      assert CoversOneMore(w, u, ips[n]);
      assert forall i :: 0 <= i < |before| ==> out[i] == out[..|before|][i] == before[i];
      assert ips[..n + 1] == ips[..n] + [ips[n]];
    }
    assert ips[..|ips|] == ips;
  }

  lemma SplitStep(blocks: seq<Net>, more: seq<Net>, v: seq<Range>, n: nat)
    requires n < |v| && v[n].Valid() && Greedy(more, v[n].start.fam, v[n].start.val, v[n].end.val)
    requires forall a :: InSome(blocks, a) <==> AnyCovers(v[..n], a)
    ensures forall a :: InSome(blocks + more, a) <==> AnyCovers(v[..n + 1], a)
  {
    TilesExact(more, v[n].start.fam, v[n].start.val, v[n].end.val);
    forall a
      ensures InSome(blocks + more, a) <==> AnyCovers(v[..n + 1], a)
    {
      CoversLast(v, n, a);
      if InSome(blocks, a) {
        var i :| 0 <= i < |blocks| && blocks[i].Contains(a);
        assert (blocks + more)[i].Contains(a);
      }
      if InSome(more, a) {
        var i :| 0 <= i < |more| && more[i].Contains(a);
        assert (blocks + more)[|blocks| + i].Contains(a);
      }
      if InSome(blocks + more, a) {
        var i :| 0 <= i < |blocks + more| && (blocks + more)[i].Contains(a);
        assert if i < |blocks| then blocks[i].Contains(a) else more[i - |blocks|].Contains(a);
      }
    }
  }

  /** The last loop: every range is cut into blocks. */
  method SplitAll(rs: seq<IPRange>, ghost v: seq<Range>) returns (blocks: seq<Net>)
    requires Hold(rs, v) && AllSteady(v)
    ensures forall i :: 0 <= i < |blocks| ==> blocks[i].Valid()
    ensures forall a :: InSome(blocks, a) <==> AnyCovers(v, a)
  {
    blocks := [];
    for n := 0 to |rs|
      invariant forall i :: 0 <= i < |blocks| ==> blocks[i].Valid()
      invariant forall a :: InSome(blocks, a) <==> AnyCovers(v[..n], a)
    {
      var more := rs[n].SplitIPRangeToIPBlocks();
      assert Steady(v[n]);
      SplitStep(blocks, more, v, n);
      blocks := blocks + more;
    }
    assert v[..|v|] == v;
  }

  // ---- the whole translation ------------------------------------------------------------------

  lemma GapsMeaning(cidr: Net, included: seq<Range>, sorted: seq<Range>, a: Addr)
    requires cidr.Valid() && multiset(sorted) == multiset(included)
    requires AllValid(sorted) && AllInside(sorted, cidr) && Consecutive(sorted)
    ensures AnyCovers(Gaps(sorted, cidr, |sorted|), a) <==>
            included != [] && cidr.Contains(a) && !AnyCovers(included, a)
  {
    GapsExact(sorted, cidr, |sorted|, a);
    ContainsInterval(cidr, a);
    assert sorted[..|sorted|] == sorted;
    SameMembers(sorted, included);
    assert |multiset(sorted)| == |sorted| && |multiset(included)| == |included|;
    assert AnyCovers(sorted, a) <==> exists r :: r in sorted && r.Covers(a);
    assert AnyCovers(included, a) <==> exists r :: r in included && r.Covers(a);
  }

  lemma SortedConditions(cidr: Net, included: seq<Range>, sorted: seq<Range>)
    requires AllValid(included) && multiset(sorted) == multiset(included)
    requires PairwiseApart(sorted) <==> PairwiseApart(included)
    requires (forall r :: r in included ==> r.start.fam == cidr.fam) ==> Ascending(sorted)
    ensures AllValid(sorted) && (sorted == [] <==> included == [])
    ensures NoneAtZero(cidr, included) ==> NoneAtZero(cidr, sorted)
    ensures AllInside(sorted, cidr) && Consecutive(sorted) <==> AllInside(included, cidr) && PairwiseApart(included)
  {
    SameMembers(sorted, included);
    assert forall i :: 0 <= i < |sorted| ==> sorted[i] in included;
    assert forall i :: 0 <= i < |included| ==> included[i] in sorted;
    assert |multiset(sorted)| == |sorted| && |multiset(included)| == |included|;
    if AllInside(sorted, cidr) {
      ConsecutiveIsApart(sorted, cidr);
    }
  }

  function WithGateway(excludeIPs: seq<Addr>, gateway: Option<Addr>): (ips: seq<Addr>) {
    if gateway.Some? then excludeIPs + [gateway.value] else excludeIPs
  }

  ghost predicate AllInner(ips: seq<Addr>) {
    forall i :: 0 <= i < |ips| ==> Inner(ips[i])
  }

  /** The predecessor that 0.0.0.0 does not have is never asked for: no range of a block from 0.0.0.0 starts there, and
      0.0.0.1 is excluded only where neither 0.0.0.0 nor a gap from there on is. */
  ghost predicate Untangled(cidr: Net, included: seq<Range>, ips: seq<Addr>) {
    && NoneAtZero(cidr, included)
    && ((exists i :: 0 <= i < |ips| && ips[i].val == 1) ==>
          (cidr.base > 0 || included == []) && forall i :: 0 <= i < |ips| ==> ips[i].val > 0)
  }

  /** For a block, gateway and excluded addresses in reach of NextIP and PrevIP, and not tangled up at 0.0.0.0, the
      translation succeeds exactly for ranges that lie in the block and are pairwise disjoint, and its blocks then
      hold exactly the addresses kept from the pods. */
  method FindSubnetExcludeIPBlocks(cidr: Net, includedRanges: seq<Range>, gateway: Option<Addr>, excludeIPs: seq<Addr>)
    returns (r: Result<seq<Net>>)
    requires InnerNet(cidr) && AllValid(includedRanges) && AllInner(WithGateway(excludeIPs, gateway))
    requires Untangled(cidr, includedRanges, WithGateway(excludeIPs, gateway))
    ensures r.Ok? <==> AllInside(includedRanges, cidr) && PairwiseApart(includedRanges)
    ensures r.Ok? ==> forall i :: 0 <= i < |r.value| ==> r.value[i].Valid()
    ensures r.Ok? ==> forall a :: InSome(r.value, a) <==> Excluded(cidr, includedRanges, gateway, excludeIPs, a)
  {
    var sorted := SortByStart(includedRanges, cidr.fam);
    SortedConditions(cidr, includedRanges, sorted);
    var found := CollectGaps(cidr, sorted);
    if found.Err? {
      return Err;
    }
    var allExcludedIPs := excludeIPs;
    if gateway.Some? {
      allExcludedIPs := allExcludedIPs + [gateway.value];
    }
    assert allExcludedIPs == WithGateway(excludeIPs, gateway);
    ghost var gaps := Gaps(sorted, cidr, |sorted|);
    GapsSteady(sorted, cidr, |sorted|);
    GapsAboveZero(sorted, cidr, |sorted|);
    ghost var v: seq<Range>;
    var ranges: seq<IPRange>;
    ranges, v := AbsorbIPs(found.value, allExcludedIPs, gaps);
    var blocks := SplitAll(ranges, v);
    forall a
      ensures InSome(blocks, a) <==> Excluded(cidr, includedRanges, gateway, excludeIPs, a)
    {
      GapsMeaning(cidr, includedRanges, sorted, a);
    }
    return Ok(blocks);
  }
}
