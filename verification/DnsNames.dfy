/**
Object names made from addresses, and back (pkg/utils/ip.go, pkg/controllers/utils/format.go). An IPv6 address is
its eight groups; its text is the one of section 4.2 of RFC 5952, as `net.IP.String` prints it.
*/
module DnsNames {
  import opened Addresses
  import opened Strings

  type Group = g: int | 0 <= g < 65536

  type Groups = gs: seq<Group> | |gs| == 8 witness [0, 0, 0, 0, 0, 0, 0, 0]

  // ---- hexadecimal ----------------------------------------------------------------------------------------

  predicate IsHex(c: char) {
    '0' <= c <= '9' || 'a' <= c <= 'f' || 'A' <= c <= 'F'
  }

  function HexValue(c: char): (d: nat)
    requires IsHex(c)
    ensures d < 16
  {
    if c <= '9' then c as int - '0' as int
    else if c <= 'F' then c as int - 'A' as int + 10
    else c as int - 'a' as int + 10
  }

  function HexDigit(d: nat): (c: char)
    requires d < 16
    ensures IsHex(c) && HexValue(c) == d
  {
    if d < 10 then ('0' as int + d) as char else ('a' as int + d - 10) as char
  }

  /** Lower case, without leading zeros. */
  function Hex(g: nat): (s: string)
    ensures s != "" && forall i :: 0 <= i < |s| ==> IsHex(s[i])
  {
    if g < 16 then [HexDigit(g)] else Hex(g / 16) + [HexDigit(g % 16)]
  }

  function FromHex(s: string): (v: nat)
    requires forall i :: 0 <= i < |s| ==> IsHex(s[i])
  {
    if s == "" then 0 else 16 * FromHex(s[..|s| - 1]) + HexValue(s[|s| - 1])
  }

  lemma {:induction false} HexRoundTrip(g: nat)
    ensures FromHex(Hex(g)) == g
  {
    if g >= 16 {
      HexRoundTrip(g / 16);
      assert Hex(g)[..|Hex(g)| - 1] == Hex(g / 16);
    } else {
      assert Hex(g)[..0] == "";
    }
  }

  function Hexes(gs: seq<Group>): (ps: seq<string>)
    ensures |ps| == |gs| && forall i :: 0 <= i < |gs| ==> ps[i] == Hex(gs[i])
  {
    if gs == [] then [] else [Hex(gs[0])] + Hexes(gs[1..])
  }

  lemma HexClean(g: nat)
    ensures ':' !in Hex(g) && '-' !in Hex(g)
  {
    assert !IsHex(':') && !IsHex('-');
  }

  /** Hexadecimal pieces hold neither separator, and none is empty. */
  lemma HexesClean(gs: seq<Group>)
    ensures Clean(Hexes(gs), ':') && Clean(Hexes(gs), '-') && forall i :: 0 <= i < |gs| ==> Hexes(gs)[i] != ""
  {
    forall i | 0 <= i < |gs|
      ensures ':' !in Hexes(gs)[i] && '-' !in Hexes(gs)[i] && Hexes(gs)[i] != ""
    {
      HexClean(gs[i]);
    }
  }

  // ---- the text of an address -----------------------------------------------------------------------------

  /** How many groups are zero from position `i` on. */
  function ZerosAt(gs: seq<Group>, i: nat): (n: nat)
    ensures i <= |gs| ==> i + n <= |gs|
    ensures forall j :: i <= j < i + n ==> j < |gs| && gs[j] == 0
    decreases |gs| - i
  {
    if i < |gs| && gs[i] == 0 then 1 + ZerosAt(gs, i + 1) else 0
  }

  datatype Run = Run(start: nat, length: nat)

  /** The scan of `net.IP.String`: a longer run replaces the one found, and is skipped. */
  function LongestRun(gs: seq<Group>, i: nat, best: Run): (r: Run)
    requires best.start + best.length <= |gs|
    ensures r.start + r.length <= |gs|
    decreases |gs| - i
  {
    if i >= |gs| then best
    else
      var n := ZerosAt(gs, i);
      if n > best.length then LongestRun(gs, i + n + 1, Run(i, n)) else LongestRun(gs, i + 1, best)
  }

  function ZeroRun(gs: Groups): (r: Run)
    ensures r.start + r.length <= 8
  {
    LongestRun(gs, 0, Run(0, 0))
  }

  /** The run is the first longest among those starting before `i`. */
  ghost predicate FirstLongest(gs: seq<Group>, i: nat, r: Run) {
    && r.start + r.length <= |gs| && (r.length > 0 ==> r.length == ZerosAt(gs, r.start))
    && (forall j :: 0 <= j < i ==> ZerosAt(gs, j) <= r.length)
    && (forall j :: 0 <= j < r.start && r.length > 0 ==> ZerosAt(gs, j) < r.length)
  }

  lemma {:induction false} ShorterInside(gs: seq<Group>, i: nat, j: nat)
    requires i <= j <= i + ZerosAt(gs, i)
    ensures ZerosAt(gs, j) == ZerosAt(gs, i) - (j - i)
    decreases j - i
  {
    if i < j {
      ShorterInside(gs, i + 1, j);
    }
  }

  lemma RunTaken(gs: seq<Group>, i: nat, best: Run, n: nat)
    requires i < |gs| && FirstLongest(gs, i, best) && n == ZerosAt(gs, i) > best.length
    ensures FirstLongest(gs, i + n + 1, Run(i, n))
  {
    forall j | i <= j <= i + n
      ensures ZerosAt(gs, j) <= n
    {
      ShorterInside(gs, i, j);
    }
  }

  lemma {:induction false} LongestRunFirst(gs: seq<Group>, i: nat, best: Run, r: Run)
    requires FirstLongest(gs, i, best) && r == LongestRun(gs, i, best)
    ensures FirstLongest(gs, |gs|, r)
    decreases |gs| - i
  {
    if i < |gs| {
      var n := ZerosAt(gs, i);
      if n > best.length {
        RunTaken(gs, i, best, n);
        LongestRunFirst(gs, i + n + 1, Run(i, n), r);
      } else {
        LongestRunFirst(gs, i + 1, best, r);
      }
    }
  }

  /** The run squashed is the longest, and the first of those; all its groups are zero. */
  lemma ZeroRunFirst(gs: Groups)
    ensures FirstLongest(gs, 8, ZeroRun(gs))
    ensures var r := ZeroRun(gs); forall i :: r.start <= i < r.start + r.length ==> gs[i] == 0
  {
    LongestRunFirst(gs, 0, Run(0, 0), ZeroRun(gs));
  }

  /** One zero group alone is not shortened. */
  predicate Shortened(gs: Groups) {
    ZeroRun(gs).length >= 2
  }

  function Left(gs: Groups): (l: seq<Group>) {
    gs[..ZeroRun(gs).start]
  }

  function Right(gs: Groups): (r: seq<Group>) {
    gs[ZeroRun(gs).start + ZeroRun(gs).length..]
  }

  function Text(gs: Groups): (s: string) {
    if Shortened(gs) then Join(Hexes(Left(gs)), ':') + "::" + Join(Hexes(Right(gs)), ':') else Join(Hexes(gs), ':')
  }

  // ---- the name of an address -----------------------------------------------------------------------------

  function Repeat(s: string, n: nat): (ps: seq<string>)
    ensures |ps| == n && forall i :: 0 <= i < n ==> ps[i] == s
  {
    if n == 0 then [] else [s] + Repeat(s, n - 1)
  }

  /** The squashed groups of the text are written out, where fewer than eight groups are counted. */
  function Unify(ip: string): (r: string) {
    var sections := Count(ip, ':') + 1;
    if sections < 8 then ReplacePair(ip, ':', Join(Repeat(":", 2 + 8 - sections), '0')) else ip
  }

  method UnifyIPv6AddressString(ip: string) returns (r: string)
    ensures r == Unify(ip)
  {
    var sectionCount := Count(ip, ':') + 1;
    if sectionCount < 8 {
      var separators := [":", ":"];
      ghost var counted := sectionCount;
      while sectionCount < 8
        invariant counted <= sectionCount <= 8
        invariant separators == Repeat(":", 2 + sectionCount - counted)
      {
        separators := separators + [":"];
        sectionCount := sectionCount + 1;
      }
      return ReplacePair(ip, ':', Join(separators, '0'));
    }
    return ip;
  }

  function IPv6Name(gs: Groups): (s: string) {
    ReplaceChar(Unify(Text(gs)), ':', '-')
  }

  /** One side of a squashed text; an empty one counts as one empty piece. */
  function Side(gs: seq<Group>): (ps: seq<string>)
    ensures ps != []
  {
    if gs == [] then [""] else Hexes(gs)
  }

  /** What is written between the sides: zero groups where at least two fit in, else nothing new. */
  function Middle(k: nat): (ps: seq<string>)
    ensures ps != []
  {
    if k >= 2 then Repeat("0", k) else [""]
  }

  /** The eight pieces of a name: the groups, but for empty pieces where the text starts or ends with `::`. */
  function Pieces(gs: Groups): (ps: seq<string>)
    ensures |ps| == 8
  {
    if !Shortened(gs) then Hexes(gs)
    else
      var (a, b) := (Side(Left(gs)), Side(Right(gs)));
      a + Middle(8 - |a| - |b|) + b
  }

  lemma SeparatorStep(z: string)
    ensures ":" + ['0'] + (":" + z + ":") == ":" + ("0" + [':'] + z) + ":"
  {
  }

  lemma JoinRepeat(s: string, n: nat, c: char)
    requires n >= 2
    ensures Join(Repeat(s, n), c) == s + [c] + Join(Repeat(s, n - 1), c)
  {
    assert Repeat(s, n)[1..] == Repeat(s, n - 1);
  }

  lemma {:induction false} SeparatorString(n: nat)
    requires n >= 2
    ensures Join(Repeat(":", n), '0') == ":" + Join(Repeat("0", n - 1), ':') + ":"
  {
    JoinRepeat(":", n, '0');
    if n > 2 {
      SeparatorString(n - 1);
      JoinRepeat("0", n - 1, ':');
      SeparatorStep(Join(Repeat("0", n - 2), ':'));
    } else {
      assert Join(Repeat("0", 1), ':') == "0" && Join(Repeat(":", 1), '0') == ":";
    }
  }

  lemma SideClean(gs: seq<Group>)
    ensures Clean(Side(gs), ':') && Clean(Side(gs), '-')
  {
    HexesClean(gs);
  }

  /** A string that a pair of separators can be put behind, or before, without making another. */
  ghost predicate Sided(s: string) {
    NoPair(s, ':') && (s != "" ==> s[0] != ':' && s[|s| - 1] != ':')
  }

  lemma SideJoin(gs: seq<Group>)
    ensures Join(Side(gs), ':') == Join(Hexes(gs), ':') && Sided(Join(Side(gs), ':'))
  {
    HexesClean(gs);
    JoinNoPair(Hexes(gs), ':');
  }

  lemma CleanThree(a: seq<string>, m: seq<string>, b: seq<string>, c: char)
    requires Clean(a, c) && Clean(m, c) && Clean(b, c)
    ensures Clean(a + m + b, c)
  {
  }

  lemma MiddleClean(k: nat)
    ensures Clean(Middle(k), ':') && Clean(Middle(k), '-')
  {
  }

  lemma AroundClean(l: seq<Group>, r: seq<Group>, k: nat)
    ensures var ps := Side(l) + Middle(k) + Side(r); Clean(ps, ':') && Clean(ps, '-')
  {
    SideClean(l);
    SideClean(r);
    MiddleClean(k);
    CleanThree(Side(l), Middle(k), Side(r), ':');
    CleanThree(Side(l), Middle(k), Side(r), '-');
  }

  lemma PiecesClean(gs: Groups)
    ensures Clean(Pieces(gs), ':') && Clean(Pieces(gs), '-')
  {
    if Shortened(gs) {
      var l, r := Left(gs), Right(gs);
      var k := 8 - |Side(l)| - |Side(r)|;
      AroundClean(l, r, k);
      assert Pieces(gs) == Side(l) + Middle(k) + Side(r);
    } else {
      HexesClean(gs);
      assert Pieces(gs) == Hexes(gs);
    }
  }

  lemma JoinThree(a: seq<string>, m: seq<string>, b: seq<string>, c: char)
    requires a != [] && m != [] && b != []
    ensures Join(a + m + b, c) == Join(a, c) + [c] + Join(m, c) + [c] + Join(b, c)
  {
    JoinAppend(a, m, c);
    JoinAppend(a + m, b, c);
  }

  lemma SidesCount(a: seq<string>, b: seq<string>)
    requires a != [] && b != [] && Clean(a, ':') && Clean(b, ':')
    ensures Count(Join(a, ':') + "::" + Join(b, ':'), ':') == |a| + |b|
  {
    var x, y := Join(a, ':'), Join(b, ':');
    JoinCount(a, ':');
    JoinCount(b, ':');
    CountAppend(x, "::", ':');
    CountAppend(x + "::", y, ':');
    assert Count("::", ':') == 2;
  }

  lemma Regrouped(x: string, z: string, y: string)
    ensures x + ((":" + z + ":") + y) == x + [':'] + z + [':'] + y
  {
  }

  lemma Squeezed(x: string, y: string)
    ensures x + "::" + y == x + [':'] + "" + [':'] + y && x + "::" + y == x + ([':', ':'] + y)
  {
  }

  /** Squashed groups, at least two between the sides, are written out. */
  lemma UnifyWide(a: seq<string>, b: seq<string>, k: nat)
    requires a != [] && b != [] && Clean(a, ':') && Clean(b, ':') && |a| + k + |b| == 8 && k >= 2
    requires Sided(Join(a, ':')) && Sided(Join(b, ':'))
    ensures Unify(Join(a, ':') + "::" + Join(b, ':')) == Join(a + Middle(k) + b, ':')
  {
    var x, y, z := Join(a, ':'), Join(b, ':'), Join(Repeat("0", k), ':');
    var sep := Join(Repeat(":", k + 1), '0');
    SidesCount(a, b);
    Squeezed(x, y);
    ReplaceOne(x, y, ':', sep);
    assert Unify(x + "::" + y) == x + (sep + y);
    SeparatorString(k + 1);
    Regrouped(x, z, y);
    JoinThree(a, Repeat("0", k), b, ':');
  }

  /** Nothing is left to write out. */
  lemma UnifyNarrow(a: seq<string>, b: seq<string>)
    requires a != [] && b != [] && Clean(a, ':') && Clean(b, ':') && |a| + |b| == 7
    ensures Unify(Join(a, ':') + "::" + Join(b, ':')) == Join(a + Middle(1) + b, ':')
  {
    SidesCount(a, b);
    Squeezed(Join(a, ':'), Join(b, ':'));
    JoinThree(a, [""], b, ':');
  }

  lemma UnifyBetween(l: seq<Group>, r: seq<Group>, a: seq<string>, b: seq<string>, k: nat)
    requires |l| + |r| <= 6 && a == Side(l) && b == Side(r) && |a| + k + |b| == 8
    ensures Unify(Join(Hexes(l), ':') + "::" + Join(Hexes(r), ':')) == Join(a + Middle(k) + b, ':')
  {
    SideClean(l);
    SideClean(r);
    SideJoin(l);
    SideJoin(r);
    if k >= 2 {
      UnifyWide(a, b, k);
    } else {
      UnifyNarrow(a, b);
    }
  }

  lemma UnifyShortened(gs: Groups)
    requires Shortened(gs)
    ensures Unify(Text(gs)) == Join(Pieces(gs), ':')
  {
    var l, r := Left(gs), Right(gs);
    var a, b := Side(l), Side(r);
    var k := 8 - |a| - |b|;
    assert Pieces(gs) == a + Middle(k) + b;
    assert Text(gs) == Join(Hexes(l), ':') + "::" + Join(Hexes(r), ':');
    UnifyBetween(l, r, a, b, k);
  }

  lemma UnifyWhole(gs: Groups)
    requires !Shortened(gs)
    ensures Unify(Text(gs)) == Join(Pieces(gs), ':')
  {
    HexesClean(gs);
    JoinCount(Hexes(gs), ':');
  }

  /** The name of an IPv6 address is its eight pieces, joined by dashes. */
  lemma NamePieces(gs: Groups)
    ensures Unify(Text(gs)) == Join(Pieces(gs), ':') && IPv6Name(gs) == Join(Pieces(gs), '-')
  {
    if Shortened(gs) {
      UnifyShortened(gs);
    } else {
      UnifyWhole(gs);
    }
    PiecesClean(gs);
    JoinReplace(Pieces(gs), ':', '-');
  }

  // ---- what the pieces say ----------------------------------------------------------------------------------

  /** The text starts or ends with `::`. */
  predicate AtEdge(gs: Groups) {
    Shortened(gs) && (Left(gs) == [] || Right(gs) == [])
  }

  lemma SideAt(gs: seq<Group>, i: nat)
    requires i < |Side(gs)|
    ensures if gs == [] then Side(gs)[i] == "" else i < |gs| && Side(gs)[i] == Hex(gs[i])
  {
  }

  lemma PieceAt(gs: Groups, z: nat, n: nat, a: seq<string>, m: seq<string>, b: seq<string>, i: nat)
    requires 2 <= n && z + n <= 8 && a == Side(gs[..z]) && b == Side(gs[z + n..]) && m == Middle(8 - |a| - |b|) && i < 8
    requires forall j :: z <= j < z + n ==> gs[j] == 0
    ensures |a + m + b| == 8
    ensures (a + m + b)[i] == Hex(gs[i]) || ((a + m + b)[i] == "" && gs[i] == 0)
  {
    assert Hex(0) == "0";
    if i < |a| {
      assert (a + m + b)[i] == a[i];
      SideAt(gs[..z], i);
    } else if i < |a| + |m| {
      assert (a + m + b)[i] == m[i - |a|];
    } else {
      assert (a + m + b)[i] == b[i - |a| - |m|];
      SideAt(gs[z + n..], i - |a| - |m|);
    }
  }

  /** Every piece is its group, or empty for a zero group. */
  lemma PieceMeans(gs: Groups, i: nat)
    requires i < 8
    ensures Pieces(gs)[i] == Hex(gs[i]) || (Pieces(gs)[i] == "" && gs[i] == 0)
  {
    if Shortened(gs) {
      var a, b := Side(Left(gs)), Side(Right(gs));
      ZeroRunFirst(gs);
      PieceAt(gs, ZeroRun(gs).start, ZeroRun(gs).length, a, Middle(8 - |a| - |b|), b, i);
    }
  }

  ghost predicate NonEmpty(ps: seq<string>) {
    forall i :: 0 <= i < |ps| ==> ps[i] != ""
  }

  lemma NotEmpty(a: seq<string>, m: seq<string>, b: seq<string>)
    requires NonEmpty(a) && NonEmpty(m) && NonEmpty(b)
    ensures NonEmpty(a + m + b)
  {
  }

  lemma HexesNonEmpty(gs: seq<Group>)
    ensures NonEmpty(Hexes(gs))
  {
    HexesClean(gs);
  }

  lemma PiecesNonEmpty(gs: Groups)
    requires !AtEdge(gs)
    ensures NonEmpty(Pieces(gs))
  {
    if Shortened(gs) {
      var l, r := Left(gs), Right(gs);
      HexesNonEmpty(l);
      HexesNonEmpty(r);
      NotEmpty(Hexes(l), Middle(8 - |l| - |r|), Hexes(r));
    } else {
      HexesNonEmpty(gs);
    }
  }

  /** Unless the text starts or ends with `::`, the pieces are the eight groups. */
  lemma PiecesWhole(gs: Groups)
    requires !AtEdge(gs)
    ensures Pieces(gs) == Hexes(gs)
  {
    PiecesNonEmpty(gs);
    forall i | 0 <= i < 8
      ensures Pieces(gs)[i] == Hexes(gs)[i]
    {
      PieceMeans(gs, i);
    }
  }

  // ---- reading an address -----------------------------------------------------------------------------------

  /** Hexadecimal digits of a value below 2^16. */
  predicate IsGroup(p: string) {
    p != "" && (forall i :: 0 <= i < |p| ==> IsHex(p[i])) && FromHex(p) < 65536
  }

  /** The groups written in the pieces, if all are groups. */
  function ReadAll(ps: seq<string>): (r: Option<seq<Group>>)
    ensures r.Some? ==> |r.value| == |ps|
  {
    if ps == [] then Some([])
    else if !IsGroup(ps[0]) || ReadAll(ps[1..]).None? then None
    else Some([FromHex(ps[0])] + ReadAll(ps[1..]).value)
  }

  function ZeroGroups(n: nat): (gs: seq<Group>)
    ensures |gs| == n && forall i :: 0 <= i < n ==> gs[i] == 0
  {
    if n == 0 then [] else [0] + ZeroGroups(n - 1)
  }

  function FirstEmpty(ps: seq<string>): (e: nat)
    ensures e <= |ps| && (forall i :: 0 <= i < e ==> ps[i] != "") && (e < |ps| ==> ps[e] == "")
  {
    if ps == [] || ps[0] == "" then 0 else 1 + FirstEmpty(ps[1..])
  }

  /** Two sides around a `::`, which stands for one group at least. */
  function Around(l: Option<seq<Group>>, r: Option<seq<Group>>): (gs: Option<Groups>) {
    if l.None? || r.None? || |l.value| + |r.value| >= 8 then None
    else Some(l.value + ZeroGroups(8 - |l.value| - |r.value|) + r.value)
  }

  function Exactly(l: Option<seq<Group>>): (gs: Option<Groups>) {
    if l.None? || |l.value| != 8 then None else Some(l.value)
  }

  /** Groups, with an empty piece where a `::` is. */
  function ReadPieces(ps: seq<string>): (r: Option<Groups>) {
    var e := FirstEmpty(ps);
    if e == |ps| then Exactly(ReadAll(ps)) else Around(ReadAll(ps[..e]), ReadAll(ps[e + 1..]))
  }

  /** An empty piece at either end is half of a `::` there, or an error. */
  function TrimFront(ps: seq<string>): (r: Option<seq<string>>) {
    if ps != [] && ps[0] == "" then (if |ps| >= 3 && ps[1] == "" then Some(ps[1..]) else None) else Some(ps)
  }

  function TrimBack(ps: seq<string>): (r: Option<seq<string>>) {
    if ps != [] && ps[|ps| - 1] == "" then
      (if |ps| >= 2 && ps[|ps| - 2] == "" then Some(ps[..|ps| - 1]) else None)
    else Some(ps)
  }

  function ParsePieces(ps: seq<string>): (r: Option<Groups>) {
    var front := TrimFront(ps);
    if front.None? then None
    else
      var back := TrimBack(front.value);
      if back.None? then None else ReadPieces(back.value)
  }

  /** `net.ParseIP` on IPv6 text without an embedded IPv4 address, as section 2.2 of RFC 4291 describes it. */
  function ParseIP(s: string): (r: Option<Groups>) {
    ParsePieces(Split(s, ':'))
  }

  lemma HexIsGroup(g: Group)
    ensures IsGroup(Hex(g)) && FromHex(Hex(g)) == g
  {
    HexRoundTrip(g);
  }

  lemma {:induction false} ReadHexes(gs: seq<Group>)
    ensures ReadAll(Hexes(gs)) == Some(gs)
  {
    if gs != [] {
      HexIsGroup(gs[0]);
      ReadHexes(gs[1..]);
      assert Hexes(gs)[1..] == Hexes(gs[1..]) && gs == [gs[0]] + gs[1..];
    }
  }

  lemma WholeParses(gs: Groups)
    ensures ParsePieces(Hexes(gs)) == Some(gs)
  {
    ReadHexes(gs);
    HexesNonEmpty(gs);
  }

  lemma FirstEmptyAt(a: seq<string>, b: seq<string>)
    requires NonEmpty(a)
    ensures FirstEmpty(a + [""] + b) == |a|
  {
    var ps := a + [""] + b;
    assert ps[|a|] == "" && forall i :: 0 <= i < |a| ==> ps[i] == a[i];
  }

  /** Groups with one empty piece between them. */
  lemma ReadSides(a: seq<string>, b: seq<string>)
    requires NonEmpty(a)
    ensures ReadPieces(a + [""] + b) == Around(ReadAll(a), ReadAll(b))
  {
    var ps := a + [""] + b;
    FirstEmptyAt(a, b);
    assert ps[..|a|] == a && ps[|a| + 1..] == b;
  }

  /** One side as it is written, and as it is read. */
  ghost predicate Written(side: seq<string>, a: seq<string>) {
    NonEmpty(a) && side == if a == [] then [""] else a
  }

  lemma TrimFrontSide(side: seq<string>, a: seq<string>, b: seq<string>)
    requires Written(side, a) && b != []
    ensures TrimFront(side + [""] + b) == Some(a + [""] + b)
  {
    var ps := side + [""] + b;
    if a == [] {
      assert ps[1..] == a + [""] + b;
    } else {
      assert ps[0] == a[0];
    }
  }

  lemma TrimBackSide(a: seq<string>, side: seq<string>, b: seq<string>)
    requires Written(side, b)
    ensures TrimBack(a + [""] + side) == Some(a + [""] + b)
  {
    var ps := a + [""] + side;
    if b == [] {
      assert ps[..|ps| - 1] == a + [""] + b;
    } else {
      assert ps[|ps| - 1] == b[|b| - 1];
    }
  }

  lemma PiecesAround(x: seq<string>, a: seq<string>, y: seq<string>, b: seq<string>)
    requires Written(x, a) && Written(y, b)
    ensures ParsePieces(x + [""] + y) == Around(ReadAll(a), ReadAll(b))
  {
    TrimFrontSide(x, a, y);
    TrimBackSide(a, y, b);
    ReadSides(a, b);
  }

  lemma SideWritten(gs: seq<Group>)
    ensures Written(Side(gs), Hexes(gs))
  {
    HexesNonEmpty(gs);
  }

  /** A `::` anywhere is read as the zero groups it stands for. */
  lemma SidesParse(l: seq<Group>, r: seq<Group>)
    ensures ParsePieces(Side(l) + [""] + Side(r)) == Around(Some(l), Some(r))
  {
    SideWritten(l);
    SideWritten(r);
    PiecesAround(Side(l), Hexes(l), Side(r), Hexes(r));
    ReadHexes(l);
    ReadHexes(r);
  }

  lemma ZerosBetween(gs: Groups)
    requires ZeroRun(gs).length > 0
    ensures Around(Some(Left(gs)), Some(Right(gs))) == Some(gs)
  {
    ZeroRunFirst(gs);
    assert Left(gs) + ZeroGroups(ZeroRun(gs).length) + Right(gs) == gs;
  }

  lemma SplitSides(l: seq<Group>, r: seq<Group>)
    ensures Split(Join(Hexes(l), ':') + "::" + Join(Hexes(r), ':'), ':') == Side(l) + [""] + Side(r)
  {
    SideClean(l);
    SideClean(r);
    SideJoin(l);
    SideJoin(r);
    CleanThree(Side(l), [""], Side(r), ':');
    SplitJoin(Side(l) + [""] + Side(r), ':');
    JoinThree(Side(l), [""], Side(r), ':');
    Squeezed(Join(Side(l), ':'), Join(Side(r), ':'));
  }

  lemma SidesTextParses(l: seq<Group>, r: seq<Group>)
    ensures ParseIP(Join(Hexes(l), ':') + "::" + Join(Hexes(r), ':')) == Around(Some(l), Some(r))
  {
    SplitSides(l, r);
    SidesParse(l, r);
  }

  lemma ShortTextParses(gs: Groups)
    requires Shortened(gs)
    ensures ParseIP(Text(gs)) == Some(gs)
  {
    SidesTextParses(Left(gs), Right(gs));
    ZerosBetween(gs);
  }

  lemma WholeTextParses(gs: Groups)
    requires !Shortened(gs)
    ensures ParseIP(Text(gs)) == Some(gs)
  {
    HexesClean(gs);
    SplitJoin(Hexes(gs), ':');
    WholeParses(gs);
  }

  /** The text of every address is read back. */
  lemma TextParses(gs: Groups)
    ensures ParseIP(Text(gs)) == Some(gs)
  {
    if Shortened(gs) {
      ShortTextParses(gs);
    } else {
      WholeTextParses(gs);
    }
  }

  // ---- names of both families, and back -------------------------------------------------------------------------

  /** The groups of an address that `net.IP` takes for IPv4. */
  predicate IsIPv4(gs: Groups) {
    gs[..5] == [0, 0, 0, 0, 0] && gs[5] == 0xffff
  }

  function Dec(n: nat): (s: string)
    ensures s != "" && forall i :: 0 <= i < |s| ==> '0' <= s[i] <= '9'
  {
    if n < 10 then [HexDigit(n)] else Dec(n / 10) + [HexDigit(n % 10)]
  }

  /** The four bytes of an IPv4 address in decimal. */
  function Bytes4(gs: Groups): (ps: seq<string>)
    ensures |ps| == 4
  {
    [Dec(gs[6] / 256), Dec(gs[6] % 256), Dec(gs[7] / 256), Dec(gs[7] % 256)]
  }

  /** `net.IP.String`. */
  function IPString(gs: Groups): (s: string) {
    if IsIPv4(gs) then Join(Bytes4(gs), '.') else Text(gs)
  }

  function ToDNSFormat(gs: Groups): (name: string) {
    if IsIPv4(gs) then ReplaceChar(IPString(gs), '.', '-') else IPv6Name(gs)
  }

  /** A name with seven dashes is read as IPv6; the text of no address is "<nil>". */
  function ToIPFormat(name: string): (s: string) {
    if Count(name, '-') == 7 then
      var ip := ParseIP(ReplaceChar(name, '-', ':'));
      if ip.None? then "<nil>" else IPString(ip.value)
    else ReplaceChar(name, '-', '.')
  }

  lemma Bytes4Clean(gs: Groups)
    ensures Clean(Bytes4(gs), '.') && Clean(Bytes4(gs), '-')
  {
  }

  /** Names have three dashes for IPv4 and seven for IPv6. */
  lemma NameDashes(gs: Groups)
    ensures Count(ToDNSFormat(gs), '-') == if IsIPv4(gs) then 3 else 7
  {
    if IsIPv4(gs) {
      Bytes4Clean(gs);
      JoinReplace(Bytes4(gs), '.', '-');
      JoinCount(Bytes4(gs), '-');
    } else {
      NamePieces(gs);
      PiecesClean(gs);
      JoinCount(Pieces(gs), '-');
    }
  }

  lemma RoundTripIPv4(gs: Groups)
    requires IsIPv4(gs)
    ensures ToIPFormat(ToDNSFormat(gs)) == IPString(gs)
  {
    NameDashes(gs);
    Bytes4Clean(gs);
    JoinReplace(Bytes4(gs), '.', '-');
    JoinReplace(Bytes4(gs), '-', '.');
  }

  /** What an IPv6 name is read as is decided by its pieces. */
  lemma NameRead(gs: Groups)
    ensures ParseIP(ReplaceChar(IPv6Name(gs), '-', ':')) == ParsePieces(Pieces(gs))
  {
    NamePieces(gs);
    PiecesClean(gs);
    JoinReplace(Pieces(gs), '-', ':');
    SplitJoin(Pieces(gs), ':');
  }

  /** The text starts or ends with a `::` that stands for three groups or more. */
  predicate Lost(gs: Groups) {
    AtEdge(gs) && ZeroRun(gs).length >= 3
  }

  lemma EdgeFront(m: seq<string>, y: seq<string>)
    requires m != [] && m[0] != ""
    ensures TrimFront([""] + m + y) == None
  {
    assert ([""] + m + y)[1] == m[0];
  }

  lemma EdgeBack(x: seq<string>, m: seq<string>)
    requires x != [] && x[0] != "" && m != [] && m[|m| - 1] != ""
    ensures TrimFront(x + m + [""]) == Some(x + m + [""]) && TrimBack(x + m + [""]) == None
  {
    var ps := x + m + [""];
    assert ps[0] == x[0] && ps[|ps| - 1] == "" && ps[|ps| - 2] == m[|m| - 1];
  }

  /** Zero groups behind, or before, a single separator at an end are refused. */
  lemma EdgePieces(l: seq<Group>, r: seq<Group>, k: nat)
    requires k >= 2 && (l == [] || r == [])
    ensures ParsePieces(Side(l) + Middle(k) + Side(r)) == None
  {
    if l == [] {
      EdgeFront(Middle(k), Side(r));
    } else {
      HexesNonEmpty(l);
      EdgeBack(Hexes(l), Middle(k));
    }
  }

  /** A `::` for just two groups at an end is left as it is, and read back. */
  lemma NarrowPieces(gs: Groups)
    requires AtEdge(gs) && !Lost(gs)
    ensures ParsePieces(Pieces(gs)) == Some(gs)
  {
    SidesParse(Left(gs), Right(gs));
    ZerosBetween(gs);
  }

  lemma PiecesParse(gs: Groups)
    ensures ParsePieces(Pieces(gs)) == if Lost(gs) then None else Some(gs)
  {
    if Lost(gs) {
      EdgePieces(Left(gs), Right(gs), 8 - |Side(Left(gs))| - |Side(Right(gs))|);
    } else if AtEdge(gs) {
      NarrowPieces(gs);
    } else {
      PiecesWhole(gs);
      WholeParses(gs);
    }
  }

  lemma {:induction false} TextChars(ps: seq<string>)
    requires forall i :: 0 <= i < |ps| ==> '<' !in ps[i]
    ensures '<' !in Join(ps, ':')
  {
    if |ps| > 1 {
      TextChars(ps[1..]);
    }
  }

  lemma HexesChars(gs: seq<Group>)
    ensures '<' !in Join(Hexes(gs), ':')
  {
    assert !IsHex('<');
    TextChars(Hexes(gs));
  }

  lemma TextIsNotNil(gs: Groups)
    ensures Text(gs) != "<nil>"
  {
    HexesChars(gs);
    HexesChars(Left(gs));
    HexesChars(Right(gs));
    assert "<nil>"[0] == '<';
  }

  /** The name of an address is turned back into its text if and only if the text does not start or end with a `::`
      for three groups or more; else nothing is made of it. */
  lemma RoundTrip(gs: Groups)
    ensures ToIPFormat(ToDNSFormat(gs)) == IPString(gs) <==> IsIPv4(gs) || !Lost(gs)
    ensures !IsIPv4(gs) && Lost(gs) ==> ToIPFormat(ToDNSFormat(gs)) == "<nil>"
  {
    if IsIPv4(gs) {
      RoundTripIPv4(gs);
    } else {
      NameDashes(gs);
      NameRead(gs);
      PiecesParse(gs);
      TextIsNotNil(gs);
    }
  }

  /** For example, the loopback address ::1 gets a name that nothing is made of. */
  lemma LoopbackLost()
    ensures ToIPFormat(ToDNSFormat([0, 0, 0, 0, 0, 0, 0, 1])) == "<nil>"
  {
    var gs: Groups := [0, 0, 0, 0, 0, 0, 0, 1];
    assert ZerosAt(gs, 7) == 0 && ZerosAt(gs, 6) == 1 && ZerosAt(gs, 5) == 2 && ZerosAt(gs, 4) == 3;
    assert ZerosAt(gs, 3) == 4 && ZerosAt(gs, 2) == 5 && ZerosAt(gs, 1) == 6 && ZerosAt(gs, 0) == 7;
    ZeroRunFirst(gs);
    assert ZeroRun(gs) == Run(0, 7);
    assert gs[5] != 0xffff;
    RoundTrip(gs);
  }

  lemma EdgeEmpty(gs: Groups)
    requires AtEdge(gs)
    ensures Pieces(gs)[0] == "" || Pieces(gs)[7] == ""
  {
  }

  /** The name has the eight groups, none empty, if and only if the text neither starts nor ends with `::`. */
  lemma EightGroups(gs: Groups)
    ensures IPv6Name(gs) == Join(Hexes(gs), '-') <==> !AtEdge(gs)
  {
    NamePieces(gs);
    PiecesClean(gs);
    HexesClean(gs);
    if AtEdge(gs) {
      EdgeEmpty(gs);
      if Join(Pieces(gs), '-') == Join(Hexes(gs), '-') {
        JoinInjective(Pieces(gs), Hexes(gs), '-');
        assert false;
      }
    } else {
      PiecesWhole(gs);
    }
  }

  // ---- distinct addresses have distinct names ---------------------------------------------------------------------

  lemma SameGroup(g: Group, h: Group, p: string)
    requires p == Hex(g) || (p == "" && g == 0)
    requires p == Hex(h) || (p == "" && h == 0)
    ensures g == h
  {
    HexRoundTrip(g);
    HexRoundTrip(h);
  }

  lemma IPv6NamesDistinct(x: Groups, y: Groups)
    requires IPv6Name(x) == IPv6Name(y)
    ensures x == y
  {
    NamePieces(x);
    NamePieces(y);
    PiecesClean(x);
    PiecesClean(y);
    JoinInjective(Pieces(x), Pieces(y), '-');
    forall i | 0 <= i < 8
      ensures x[i] == y[i]
    {
      PieceMeans(x, i);
      PieceMeans(y, i);
      SameGroup(x[i], y[i], Pieces(x)[i]);
    }
  }

  function FromDec(s: string): (v: nat)
    requires forall i :: 0 <= i < |s| ==> '0' <= s[i] <= '9'
  {
    if s == "" then 0 else 10 * FromDec(s[..|s| - 1]) + HexValue(s[|s| - 1])
  }

  lemma {:induction false} DecRoundTrip(n: nat)
    ensures FromDec(Dec(n)) == n
  {
    if n >= 10 {
      DecRoundTrip(n / 10);
      assert Dec(n)[..|Dec(n)| - 1] == Dec(n / 10);
    } else {
      assert Dec(n)[..0] == "";
    }
  }

  lemma SameDec(n: nat, m: nat)
    requires Dec(n) == Dec(m)
    ensures n == m
  {
    DecRoundTrip(n);
    DecRoundTrip(m);
  }

  lemma SameBytes(x: Groups, y: Groups)
    requires Bytes4(x) == Bytes4(y)
    ensures x[6] == y[6] && x[7] == y[7]
  {
    var a, b := Bytes4(x), Bytes4(y);
    assert a[0] == b[0] && a[1] == b[1] && a[2] == b[2] && a[3] == b[3];
    SameDec(x[6] / 256, y[6] / 256);
    SameDec(x[6] % 256, y[6] % 256);
    SameDec(x[7] / 256, y[7] / 256);
    SameDec(x[7] % 256, y[7] % 256);
  }

  predicate Digits(s: string) {
    forall i :: 0 <= i < |s| ==> '0' <= s[i] <= '9'
  }

  lemma IPv4NameSplit(gs: Groups)
    requires IsIPv4(gs)
    ensures Split(ToDNSFormat(gs), '-') == Bytes4(gs)
  {
    Bytes4Clean(gs);
    JoinReplace(Bytes4(gs), '.', '-');
    SplitJoin(Bytes4(gs), '-');
  }

  /** The name of an IPv4 address, split at its dashes, is its four bytes in decimal, from the first to the last. */
  lemma IPv4NameBytes(gs: Groups)
    requires IsIPv4(gs)
    ensures var ps := Split(ToDNSFormat(gs), '-');
      && |ps| == 4 && (forall i :: 0 <= i < 4 ==> Digits(ps[i]))
      && gs[6] == 256 * FromDec(ps[0]) + FromDec(ps[1]) && gs[7] == 256 * FromDec(ps[2]) + FromDec(ps[3])
      && (forall i :: 0 <= i < 4 ==> FromDec(ps[i]) < 256)
  {
    IPv4NameSplit(gs);
    DecRoundTrip(gs[6] / 256);
    DecRoundTrip(gs[6] % 256);
    DecRoundTrip(gs[7] / 256);
    DecRoundTrip(gs[7] % 256);
  }

  lemma IPv4NamesDistinct(x: Groups, y: Groups)
    requires IsIPv4(x) && IsIPv4(y) && ToDNSFormat(x) == ToDNSFormat(y)
    ensures x == y
  {
    Bytes4Clean(x);
    Bytes4Clean(y);
    JoinReplace(Bytes4(x), '.', '-');
    JoinReplace(Bytes4(y), '.', '-');
    JoinInjective(Bytes4(x), Bytes4(y), '-');
    SameBytes(x, y);
    assert forall i :: 0 <= i < 5 ==> x[i] == x[..5][i] && y[i] == y[..5][i];
  }

  /** Whatever the texts look like, no two addresses share a name. */
  lemma NamesDistinct(x: Groups, y: Groups)
    ensures ToDNSFormat(x) == ToDNSFormat(y) <==> x == y
  {
    if ToDNSFormat(x) == ToDNSFormat(y) {
      NameDashes(x);
      NameDashes(y);
      if IsIPv4(x) {
        IPv4NamesDistinct(x, y);
      } else {
        IPv6NamesDistinct(x, y);
      }
    }
  }
}
