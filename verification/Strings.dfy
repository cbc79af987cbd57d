/** The string operations of Go's standard library that the naming code uses. */
module Strings {
  function Count(s: string, c: char): (n: nat) {
    if s == "" then 0 else (if s[0] == c then 1 else 0) + Count(s[1..], c)
  }

  function ReplaceChar(s: string, from: char, to: char): (r: string)
    ensures |r| == |s| && forall i :: 0 <= i < |s| ==> r[i] == if s[i] == from then to else s[i]
  {
    if s == "" then "" else [if s[0] == from then to else s[0]] + ReplaceChar(s[1..], from, to)
  }

  /** `strings.ReplaceAll` for a pair of equal characters: left to right, without overlaps. */
  function ReplacePair(s: string, c: char, to: string): (r: string) {
    if |s| < 2 then s
    else if s[0] == c && s[1] == c then to + ReplacePair(s[2..], c, to)
    else [s[0]] + ReplacePair(s[1..], c, to)
  }

  /** `strings.Join` with a separator of one character. */
  function Join(pieces: seq<string>, c: char): (s: string) {
    if pieces == [] then ""
    else if |pieces| == 1 then pieces[0]
    else pieces[0] + [c] + Join(pieces[1..], c)
  }

  /** No piece holds the separator. */
  ghost predicate Clean(pieces: seq<string>, c: char) {
    forall i :: 0 <= i < |pieces| ==> c !in pieces[i]
  }

  lemma {:induction false} CountAppend(a: string, b: string, c: char)
    ensures Count(a + b, c) == Count(a, c) + Count(b, c)
  {
    if a == "" {
      assert a + b == b;
    } else {
      CountAppend(a[1..], b, c);
      assert (a + b)[1..] == a[1..] + b;
    }
  }

  lemma {:induction false} CountNone(s: string, c: char)
    requires c !in s
    ensures Count(s, c) == 0
  {
    if s != "" {
      CountNone(s[1..], c);
    }
  }

  lemma {:induction false} JoinCount(pieces: seq<string>, c: char)
    requires pieces != [] && Clean(pieces, c)
    ensures Count(Join(pieces, c), c) == |pieces| - 1
  {
    CountNone(pieces[0], c);
    if |pieces| > 1 {
      JoinCount(pieces[1..], c);
      CountAppend(pieces[0], [c], c);
      CountAppend(pieces[0] + [c], Join(pieces[1..], c), c);
      assert Count([c], c) == 1;
    }
  }

  lemma {:induction false} JoinAppend(a: seq<string>, b: seq<string>, c: char)
    requires a != [] && b != []
    ensures Join(a + b, c) == Join(a, c) + [c] + Join(b, c)
  {
    if |a| == 1 {
      assert (a + b)[1..] == b;
    } else {
      JoinAppend(a[1..], b, c);
      assert (a + b)[1..] == a[1..] + b;
      assert a[0] + [c] + (Join(a[1..], c) + [c] + Join(b, c)) == a[0] + [c] + Join(a[1..], c) + [c] + Join(b, c);
    }
  }

  lemma ReplaceCharAppend(a: string, b: string, from: char, to: char)
    ensures ReplaceChar(a + b, from, to) == ReplaceChar(a, from, to) + ReplaceChar(b, from, to)
  {
  }

  lemma {:induction false} JoinReplace(pieces: seq<string>, c: char, d: char)
    requires Clean(pieces, c)
    ensures ReplaceChar(Join(pieces, c), c, d) == Join(pieces, d)
  {
    if |pieces| == 1 {
      assert ReplaceChar(pieces[0], c, d) == pieces[0];
    } else if pieces != [] {
      JoinReplace(pieces[1..], c, d);
      assert ReplaceChar(pieces[0], c, d) == pieces[0];
      ReplaceCharAppend(pieces[0], [c], c, d);
      ReplaceCharAppend(pieces[0] + [c], Join(pieces[1..], c), c, d);
      assert ReplaceChar([c], c, d) == [d];
    }
  }

  lemma FirstPiece(a: string, s: string, b: string, t: string, c: char)
    requires c !in a && c !in b && a + [c] + s == b + [c] + t
    ensures a == b && s == t
  {
    var u, v := a + [c] + s, b + [c] + t;
    assert u[|a|] == c && v[|b|] == c;
    assert (forall i :: 0 <= i < |b| ==> v[i] != c) && (forall i :: 0 <= i < |a| ==> u[i] != c);
    assert a == u[..|a|] && b == v[..|b|] && s == u[|a| + 1..] && t == v[|b| + 1..];
  }

  /** Where the separator is in no piece, the pieces can be told from the joined string. */
  lemma {:induction false} JoinInjective(a: seq<string>, b: seq<string>, c: char)
    requires |a| == |b| && Clean(a, c) && Clean(b, c) && Join(a, c) == Join(b, c)
    ensures a == b
  {
    if |a| == 1 {
      assert a == [a[0]] && b == [b[0]];
    } else if |a| > 1 {
      FirstPiece(a[0], Join(a[1..], c), b[0], Join(b[1..], c), c);
      JoinInjective(a[1..], b[1..], c);
      assert a == [a[0]] + a[1..] && b == [b[0]] + b[1..];
    }
  }

  /** No two separators in a row. */
  predicate NoPair(s: string, c: char) {
    |s| < 2 || (!(s[0] == c && s[1] == c) && NoPair(s[1..], c))
  }

  lemma {:induction false} ReplaceNone(s: string, c: char, to: string)
    requires NoPair(s, c)
    ensures ReplacePair(s, c, to) == s
  {
    if |s| >= 2 {
      ReplaceNone(s[1..], c, to);
    }
  }

  lemma ReplaceFirst(x: char, s: string, c: char, to: string)
    requires s != "" && !(x == c && s[0] == c)
    ensures ReplacePair([x] + s, c, to) == [x] + ReplacePair(s, c, to)
  {
    assert ([x] + s)[1..] == s;
  }

  lemma ReplacePairFirst(b: string, c: char, to: string)
    requires NoPair(b, c)
    ensures ReplacePair([c, c] + b, c, to) == to + b
  {
    assert ([c, c] + b)[2..] == b;
    ReplaceNone(b, c, to);
  }

  lemma Shift(a: string, b: string)
    requires a != ""
    ensures a + b == [a[0]] + (a[1..] + b)
  {
  }

  /** The one pair is replaced. */
  lemma {:induction false} ReplaceOne(a: string, b: string, c: char, to: string)
    requires NoPair(a, c) && NoPair(b, c) && (a != "" ==> a[|a| - 1] != c)
    ensures ReplacePair(a + ([c, c] + b), c, to) == a + (to + b)
  {
    if a == "" {
      assert a + ([c, c] + b) == [c, c] + b && a + (to + b) == to + b;
      ReplacePairFirst(b, c, to);
    } else {
      var x, tail := a[0], a[1..];
      var s := tail + ([c, c] + b);
      assert s[0] == if tail == "" then c else tail[0];
      ReplaceOne(tail, b, c, to);
      ReplaceFirst(x, s, c, to);
      Shift(a, [c, c] + b);
      Shift(a, to + b);
    }
  }

  lemma {:induction false} NoPairPiece(p: string, s: string, c: char)
    requires c !in p && NoPair(s, c) && s != "" && s[0] != c
    ensures NoPair(p + ([c] + s), c)
  {
    if p == "" {
      assert p + ([c] + s) == [c] + s && ([c] + s)[1..] == s;
    } else {
      NoPairPiece(p[1..], s, c);
      Shift(p, [c] + s);
      assert (p + ([c] + s))[1..] == p[1..] + ([c] + s);
    }
  }

  lemma {:induction false} NoPairClean(p: string, c: char)
    requires c !in p
    ensures NoPair(p, c)
  {
    if |p| >= 2 {
      NoPairClean(p[1..], c);
    }
  }

  /** Joined non-empty pieces hold no pair, and neither start nor end with the separator. */
  lemma {:induction false} JoinNoPair(pieces: seq<string>, c: char)
    requires Clean(pieces, c) && forall i :: 0 <= i < |pieces| ==> pieces[i] != ""
    ensures var s := Join(pieces, c); NoPair(s, c) && (pieces != [] ==> s != "" && s[0] != c && s[|s| - 1] != c)
  {
    if pieces != [] {
      var p := pieces[0];
      assert p != "" && p[0] != c && p[|p| - 1] != c;
      if |pieces| == 1 {
        NoPairClean(p, c);
      } else {
        var t := Join(pieces[1..], c);
        JoinNoPair(pieces[1..], c);
        NoPairPiece(p, t, c);
        assert p + [c] + t == p + ([c] + t);
      }
    }
  }

  /** `strings.Split`: the pieces between separators. */
  function Split(s: string, c: char): (pieces: seq<string>)
    ensures pieces != []
  {
    if s == "" then [""]
    else
      var tail := Split(s[1..], c);
      if s[0] == c then [""] + tail else [[s[0]] + tail[0]] + tail[1..]
  }

  lemma {:induction false} SplitClean(p: string, c: char)
    requires c !in p
    ensures Split(p, c) == [p]
  {
    if p != "" {
      SplitClean(p[1..], c);
      assert p == [p[0]] + p[1..];
    }
  }

  lemma {:induction false} SplitPiece(p: string, s: string, c: char)
    requires c !in p
    ensures Split(p + ([c] + s), c) == [p] + Split(s, c)
  {
    var whole := p + ([c] + s);
    if p == "" {
      assert whole == [c] + s && whole[1..] == s;
    } else {
      SplitPiece(p[1..], s, c);
      assert whole[1..] == p[1..] + ([c] + s);
      assert p == [p[0]] + p[1..];
      assert ([p[1..]] + Split(s, c))[1..] == Split(s, c);
    }
  }

  lemma {:induction false} SplitJoin(pieces: seq<string>, c: char)
    requires pieces != [] && Clean(pieces, c)
    ensures Split(Join(pieces, c), c) == pieces
  {
    if |pieces| == 1 {
      SplitClean(pieces[0], c);
    } else {
      var s := Join(pieces[1..], c);
      SplitJoin(pieces[1..], c);
      SplitPiece(pieces[0], s, c);
      assert pieces[0] + [c] + s == pieces[0] + ([c] + s);
    }
  }
}
