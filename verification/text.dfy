/**
 The Python `str` operations the rewriter relies on, stated on `seq<char>`:
 `in`, `rfind`-style searches, `split`, `join`, `replace` and `strip`, each
 with the declarative property it is defined to have.
 */
module Text {
  import opened Wrappers

  /** `pat` occurs in `s` starting at index `i`. */
  predicate Occurs(s: string, pat: string, i: nat) {
    i + |pat| <= |s| && s[i..i + |pat|] == pat
  }

  /** `pat` occurs in `s` at no index from `lo` up to, but excluding, `hi`. */
  predicate NoneBetween(s: string, pat: string, lo: nat, hi: nat) {
    forall j: nat :: lo <= j < hi ==> !Occurs(s, pat, j)
  }

  /** Every character of `s` belongs to `cs`. */
  predicate AllIn(s: string, cs: set<char>) {
    forall k :: 0 <= k < |s| ==> s[k] in cs
  }

  lemma OccursChar(s: string, pat: string, i: nat, k: nat)
    requires Occurs(s, pat, i) && k < |pat|
    ensures s[i + k] == pat[k]
  {
    assert s[i..i + |pat|][k] == s[i + k];
  }

  /** Dropping the first character shifts every occurrence left by one. */
  lemma OccursShift(s: string, pat: string)
    requires |s| > 0
    ensures forall i: nat :: Occurs(s[1..], pat, i) <==> Occurs(s, pat, i + 1)
  {
    forall i: nat
      ensures Occurs(s[1..], pat, i) <==> Occurs(s, pat, i + 1)
    {
      if i + 1 + |pat| <= |s| {
        assert s[1..][i..i + |pat|] == s[i + 1..i + 1 + |pat|];
      }
    }
  }

  /** When `pat` is not at index 0, its occurrences are those of `s[1..]`, shifted. */
  lemma ContainsStep(s: string, pat: string)
    requires |s| > 0 && !Occurs(s, pat, 0)
    ensures (exists i: nat :: Occurs(s, pat, i)) <==> (exists i: nat :: Occurs(s[1..], pat, i))
  {
    OccursShift(s, pat);
    if i: nat :| Occurs(s, pat, i) {
      assert i > 0;
      assert Occurs(s[1..], pat, i - 1);
    }
  }

  /** Python's `pat in s`. */
  function Contains(s: string, pat: string): (b: bool)
    ensures b <==> exists i: nat :: Occurs(s, pat, i)
    decreases |s|
  {
    if |s| < |pat| then false
    else if s[..|pat|] == pat then assert Occurs(s, pat, 0); true
    else
      ContainsStep(s, pat);
      Contains(s[1..], pat)
  }

  /** A text without `pat` has no occurrence of it at any index. */
  lemma NotContainsAt(s: string, pat: string, i: nat)
    requires !Contains(s, pat)
    ensures !Occurs(s, pat, i)
  {
  }

  /** The largest index below `bound` at which `pat` occurs in `s`, if any. */
  function LastBefore(s: string, pat: string, bound: nat): (r: Option<nat>)
    ensures r.Some? ==> r.value < bound && Occurs(s, pat, r.value)
    ensures r.Some? ==> NoneBetween(s, pat, r.value + 1, bound)
    ensures r.None? ==> NoneBetween(s, pat, 0, bound)
    decreases bound
  {
    if bound == 0 then None
    else if Occurs(s, pat, bound - 1) then Some(bound - 1)
    else LastBefore(s, pat, bound - 1)
  }

  /** Python's `sep.join(parts)`. */
  function Join(parts: seq<string>, sep: string): string
  {
    if |parts| == 0 then []
    else if |parts| == 1 then parts[0]
    else parts[0] + sep + Join(parts[1..], sep)
  }

  /**
   Python's `s.split(sep)` for a non-empty separator: the pieces between the
   non-overlapping occurrences of `sep`, found left to right. There is always
   at least one piece, and joining the pieces gives `s` back.
   */
  function Split(s: string, sep: string): (r: seq<string>)
    requires |sep| > 0
    ensures |r| >= 1
    ensures Join(r, sep) == s
    ensures |r[0]| <= |s| && r[0] == s[..|r[0]|]
    decreases |s|
  {
    if |s| < |sep| then [s]
    else if s[..|sep|] == sep then
      var rest := Split(s[|sep|..], sep);
      SplitAtSep(s, sep, rest);
      [[]] + rest
    else
      var rest := Split(s[1..], sep);
      SplitAtChar(s, sep, rest);
      [[s[0]] + rest[0]] + rest[1..]
  }

  /** The pieces of a text starting with the separator: an empty piece, then those of the rest. */
  lemma SplitAtSep(s: string, sep: string, rest: seq<string>)
    requires |sep| <= |s| && s[..|sep|] == sep
    requires |rest| >= 1 && Join(rest, sep) == s[|sep|..]
    ensures Join([[]] + rest, sep) == s
  {
    JoinEmptyFirst(rest, sep);
    assert sep + s[|sep|..] == s;
  }

  /** An empty first part contributes only the separator. */
  lemma JoinEmptyFirst(rest: seq<string>, sep: string)
    requires |rest| >= 1
    ensures Join([[]] + rest, sep) == sep + Join(rest, sep)
  {
    var e: string := [];
    JoinCons(e, rest, sep);
    assert e + sep == sep;
  }

  /** The pieces of a text not starting with the separator: its first character joins the first piece of its tail. */
  lemma SplitAtChar(s: string, sep: string, rest: seq<string>)
    requires |s| > 0
    requires |rest| >= 1 && Join(rest, sep) == s[1..]
    requires |rest[0]| <= |s[1..]| && rest[0] == s[1..][..|rest[0]|]
    ensures Join([[s[0]] + rest[0]] + rest[1..], sep) == s
    ensures [s[0]] + rest[0] == s[..|rest[0]| + 1]
  {
    JoinPrependChar(s[0], rest, sep);
    assert s == [s[0]] + s[1..];
    PrependPrefix(s, rest[0]);
  }

  /** Python's `s.replace(pat, rep)` for a non-empty `pat`. */
  function ReplaceAll(s: string, pat: string, rep: string): string
    requires |pat| > 0
    decreases |s|
  {
    if |s| < |pat| then s
    else if s[..|pat|] == pat then rep + ReplaceAll(s[|pat|..], pat, rep)
    else [s[0]] + ReplaceAll(s[1..], pat, rep)
  }

  /** Python's `s.lstrip(cs)`: drops the longest prefix made of characters in `cs`. */
  function StripLeft(s: string, cs: set<char>): (r: string)
    ensures |r| <= |s| && r == s[|s| - |r|..]
    ensures AllIn(s[..|s| - |r|], cs)
    ensures r == [] || r[0] !in cs
    decreases |s|
  {
    if |s| > 0 && s[0] in cs then
      var r := StripLeft(s[1..], cs);
      assert s[..|s| - |r|] == [s[0]] + s[1..][..|s| - 1 - |r|];
      r
    else s
  }

  /** Python's `s.rstrip(cs)`: drops the longest suffix made of characters in `cs`. */
  function StripRight(s: string, cs: set<char>): (r: string)
    ensures |r| <= |s| && r == s[..|r|]
    ensures AllIn(s[|r|..], cs)
    ensures r == [] || r[|r| - 1] !in cs
    decreases |s|
  {
    if |s| > 0 && s[|s| - 1] in cs then
      var r := StripRight(s[..|s| - 1], cs);
      assert s[|r|..] == s[..|s| - 1][|r|..] + [s[|s| - 1]];
      r
    else s
  }

  /** A prefix `r` of a suffix `l` of `s` is the slice of `s` between the two cuts. */
  lemma TrimSlice(s: string, l: string, r: string, cs: set<char>)
    requires |l| <= |s| && l == s[|s| - |l|..] && AllIn(s[..|s| - |l|], cs)
    requires |r| <= |l| && r == l[..|r|] && AllIn(l[|r|..], cs)
    ensures exists i: nat :: i + |r| <= |s| && r == s[i..i + |r|] && AllIn(s[..i], cs) && AllIn(s[i + |r|..], cs)
  {
    var i := |s| - |l|;
    assert s[i + |r|..] == l[|r|..];
    assert i + |r| <= |s| && r == s[i..i + |r|] && AllIn(s[..i], cs) && AllIn(s[i + |r|..], cs);
  }

  /** A prefix of a string that does not start with a `cs` character does not either. */
  lemma PrefixStart(l: string, r: string, cs: set<char>)
    requires |r| <= |l| && r == l[..|r|] && (l == [] || l[0] !in cs)
    ensures r == [] || r[0] !in cs
  {
    if r != [] {
      assert r[0] == l[0];
    }
  }

  /**
   Python's `s.strip(cs)`: the part of `s` left after removing every leading
   and every trailing character in `cs`, however many there are.
   */
  function Strip(s: string, cs: set<char>): (r: string)
    ensures |r| <= |s|
    ensures r == [] || (r[0] !in cs && r[|r| - 1] !in cs)
    ensures exists i: nat :: i + |r| <= |s| && r == s[i..i + |r|] && AllIn(s[..i], cs) && AllIn(s[i + |r|..], cs)
  {
    var l := StripLeft(s, cs);
    var r := StripRight(l, cs);
    TrimSlice(s, l, r, cs);
    PrefixStart(l, r, cs);
    r
  }

  /** Python's `s.partition('\n')[0]`: the text before the first newline. */
  function FirstLine(s: string): (r: string)
    ensures '\n' !in r
    ensures |r| <= |s| && r == s[..|r|]
    ensures |r| < |s| ==> s[|r|] == '\n'
    decreases |s|
  {
    if s == [] || s[0] == '\n' then []
    else [s[0]] + FirstLine(s[1..])
  }

  // ---------------------------------------------------------------------------
  // Occurrences in slices

  /** An occurrence inside a slice `a` of `s` is an occurrence in `s`. */
  lemma SliceOccurs(s: string, lo: nat, a: string, pat: string, i: nat)
    requires lo + |a| <= |s| && s[lo..lo + |a|] == a && Occurs(a, pat, i)
    ensures Occurs(s, pat, lo + i)
  {
    forall k | 0 <= k < |pat|
      ensures s[lo + i + k] == pat[k]
    {
      OccursChar(a, pat, i, k);
      assert s[lo..lo + |a|][i + k] == s[lo + i + k];
    }
    assert s[lo + i..lo + i + |pat|] == pat;
  }

  // ---------------------------------------------------------------------------
  // split and join

  /** Every piece `split` returns contains only text of `s`: what `s` lacks, no piece has. */
  lemma SplitPieceInside(s: string, sep: string, piece: string, pat: string)
    requires |sep| > 0 && piece in Split(s, sep) && Contains(piece, pat)
    ensures Contains(s, pat)
  {
    var i: nat :| Occurs(piece, pat, i);
    var lo := SplitPieceSlice(s, sep, piece);
    SliceOccurs(s, lo, piece, pat, i);
  }

  /** Every piece of `s.split(sep)` is a slice of `s`. */
  lemma SplitPieceSlice(s: string, sep: string, piece: string) returns (lo: nat)
    requires |sep| > 0 && piece in Split(s, sep)
    ensures lo + |piece| <= |s| && s[lo..lo + |piece|] == piece
  {
    var k :| 0 <= k < |Split(s, sep)| && Split(s, sep)[k] == piece;
    lo := SplitPieceAt(s, sep, k);
  }

  /** A slice of a suffix is a slice of the whole string. */
  lemma SliceShift(s: string, k: nat, lo: nat, n: nat)
    requires k + lo + n <= |s|
    ensures s[k..][lo..lo + n] == s[k + lo..k + lo + n]
  {
  }

  /** A prefix of `s[1..]`, with `s[0]` put back in front, is a prefix of `s`. */
  lemma PrependPrefix(s: string, x: string)
    requires |s| > 0 && |x| <= |s| - 1 && x == s[1..][..|x|]
    ensures [s[0]] + x == s[..|x| + 1]
  {
  }

  /** The `k`-th piece of `s.split(sep)` is the slice of `s` starting at `lo`. */
  ghost predicate PieceAt(s: string, sep: string, k: nat, lo: nat)
    requires |sep| > 0
  {
    k < |Split(s, sep)| && lo + |Split(s, sep)[k]| <= |s| && s[lo..lo + |Split(s, sep)[k]|] == Split(s, sep)[k]
  }

  /** The first piece starts the text; a text shorter than the separator is its only piece. */
  lemma PieceAtFirst(s: string, sep: string, k: nat)
    requires |sep| > 0 && k < |Split(s, sep)| && (k == 0 || |s| < |sep|)
    ensures PieceAt(s, sep, k, 0)
  {
  }

  /** A later piece of a text starting with the separator is a piece of the rest. */
  lemma PieceAtAfterSep(s: string, sep: string, k: nat, lo: nat)
    requires |sep| > 0 && |sep| <= |s| && s[..|sep|] == sep && k > 0
    requires PieceAt(s[|sep|..], sep, k - 1, lo)
    ensures PieceAt(s, sep, k, lo + |sep|)
  {
    var rs := Split(s[|sep|..], sep);
    var piece := rs[k - 1];
    assert Split(s, sep) == [[]] + rs;
    assert Split(s, sep)[k] == piece;
    SliceShift(s, |sep|, lo, |piece|);
  }

  /** A later piece of a text not starting with the separator is a piece of its tail. */
  lemma PieceAtAfterChar(s: string, sep: string, k: nat, lo: nat)
    requires |sep| > 0 && |sep| <= |s| && s[..|sep|] != sep && k > 0
    requires PieceAt(s[1..], sep, k, lo)
    ensures PieceAt(s, sep, k, lo + 1)
  {
    var rs := Split(s[1..], sep);
    var piece := rs[k];
    assert Split(s, sep) == [[s[0]] + rs[0]] + rs[1..];
    assert Split(s, sep)[k] == piece;
    SliceShift(s, 1, lo, |piece|);
  }

  /** Every piece of `s.split(sep)` is a slice of `s`; `lo` is where the `k`-th one starts. */
  lemma {:induction false} SplitPieceAt(s: string, sep: string, k: nat) returns (lo: nat)
    requires |sep| > 0 && k < |Split(s, sep)|
    ensures PieceAt(s, sep, k, lo)
    decreases |s|
  {
    if k == 0 || |s| < |sep| {
      PieceAtFirst(s, sep, k);
      lo := 0;
    } else if s[..|sep|] == sep {
      var lo' := SplitPieceAt(s[|sep|..], sep, k - 1);
      PieceAtAfterSep(s, sep, k, lo');
      lo := lo' + |sep|;
    } else {
      var lo' := SplitPieceAt(s[1..], sep, k);
      PieceAtAfterChar(s, sep, k, lo');
      lo := lo' + 1;
    }
  }

  /** No piece of `s.split(c)` contains the separator character `c`. */
  lemma {:induction false} SplitPiecesFree(s: string, c: char)
    ensures forall piece :: piece in Split(s, [c]) ==> c !in piece
    decreases |s|
  {
    if |s| < 1 {
    } else if s[..1] == [c] {
      SplitPiecesFree(s[1..], c);
    } else {
      SplitPiecesFree(s[1..], c);
      assert s[0] != c by { assert s[..1] == [s[0]]; }
    }
  }

  /** A character before a text without `pat` adds no occurrence, unless `pat` starts there. */
  lemma ConsLacks(c: char, x: string, pat: string)
    requires !Contains(x, pat) && !Occurs([c] + x, pat, 0)
    ensures !Contains([c] + x, pat)
  {
    var y := [c] + x;
    assert y[1..] == x;
    ContainsStep(y, pat);
  }

  /** No piece of a split holds the separator: every occurrence was a cut. */
  lemma {:induction false} SplitPiecesLackSep(s: string, sep: string)
    requires |sep| > 0
    ensures forall piece :: piece in Split(s, sep) ==> !Contains(piece, sep)
    decreases |s|
  {
    if |s| < |sep| {
    } else if s[..|sep|] == sep {
      SplitPiecesLackSep(s[|sep|..], sep);
      var e: string := [];
      assert !Contains(e, sep);
    } else {
      var rest := Split(s[1..], sep);
      SplitPiecesLackSep(s[1..], sep);
      assert rest[0] in rest;
      var p0 := [s[0]] + rest[0];
      assert p0 == s[..|rest[0]| + 1];
      assert s == p0 + s[|p0|..];
      OccursExtend(p0, s[|p0|..], sep);
      ConsLacks(s[0], rest[0], sep);
      assert Split(s, sep) == [p0] + rest[1..];
      forall piece | piece in rest[1..]
        ensures piece in rest
      {
      }
    }
  }

  /** A string without `c` splits into itself alone. */
  lemma {:induction false} SplitAbsent(s: string, c: char)
    requires c !in s
    ensures Split(s, [c]) == [s]
    decreases |s|
  {
    if |s| >= 1 {
      assert s[..1] == [s[0]];
      SplitAbsent(s[1..], c);
      assert [s[0]] + s[1..] == s;
    }
  }

  /** Splitting at the first `c` of `x + [c] + y` peels off `x`. */
  lemma {:induction false} SplitFirstPiece(x: string, c: char, y: string)
    requires c !in x
    ensures Split(x + [c] + y, [c]) == [x] + Split(y, [c])
    decreases |x|
  {
    var s := x + [c] + y;
    if x == [] {
      assert s[..1] == [c];
      assert s[1..] == y;
    } else {
      assert s[..1] == [x[0]];
      assert s[1..] == x[1..] + [c] + y;
      SplitFirstPiece(x[1..], c, y);
      assert [x[0]] + x[1..] == x;
    }
  }

  /** `split` undoes `join` when no part contains the separator character. */
  lemma {:induction false} SplitJoin(parts: seq<string>, c: char)
    requires |parts| >= 1
    requires forall p :: p in parts ==> c !in p
    ensures Split(Join(parts, [c]), [c]) == parts
    decreases |parts|
  {
    if |parts| == 1 {
      SplitAbsent(parts[0], c);
    } else {
      SplitJoin(parts[1..], c);
      SplitFirstPiece(parts[0], c, Join(parts[1..], [c]));
      assert [parts[0]] + parts[1..] == parts;
    }
  }

  /** `join` of a list with at least two parts. */
  lemma JoinCons(x: string, rest: seq<string>, sep: string)
    requires |rest| >= 1
    ensures Join([x] + rest, sep) == x + sep + Join(rest, sep)
  {
    assert ([x] + rest)[1..] == rest;
  }

  /** `join` of a non-empty list starts with its first part. */
  lemma JoinStartsWith(parts: seq<string>, sep: string)
    requires |parts| >= 1
    ensures |Join(parts, sep)| >= |parts[0]| && Join(parts, sep)[..|parts[0]|] == parts[0]
  {
  }

  /** Prepending a character to the first part prepends it to the join. */
  lemma JoinPrependChar(ch: char, parts: seq<string>, sep: string)
    requires |parts| >= 1
    ensures Join([[ch] + parts[0]] + parts[1..], sep) == [ch] + Join(parts, sep)
  {
    if |parts| > 1 {
      JoinCons([ch] + parts[0], parts[1..], sep);
      JoinCons(parts[0], parts[1..], sep);
      assert [parts[0]] + parts[1..] == parts;
    }
  }

  /** A character found neither in the separator nor in any part is not in the join. */
  lemma {:induction false} JoinFree(parts: seq<string>, sep: string, ch: char)
    requires ch !in sep && forall p :: p in parts ==> ch !in p
    ensures ch !in Join(parts, sep)
    decreases |parts|
  {
    if |parts| > 1 {
      JoinFree(parts[1..], sep, ch);
    }
  }

  /** A character absent from `s` is absent from every piece of `s.split(sep)`. */
  lemma {:induction false} SplitFree(s: string, sep: string, ch: char)
    requires |sep| > 0 && ch !in s
    ensures forall p :: p in Split(s, sep) ==> ch !in p
    decreases |s|
  {
    if |s| < |sep| {
    } else if s[..|sep|] == sep {
      SplitFree(s[|sep|..], sep, ch);
    } else {
      SplitFree(s[1..], sep, ch);
    }
  }

  // ---------------------------------------------------------------------------
  // replace

  /**
   `s.replace(pat, rep)` equals `rep.join(s.split(pat))`: both cut `s` at the
   same non-overlapping occurrences of `pat`, found left to right.
   */
  lemma {:induction false} ReplaceAllIsSplitJoin(s: string, pat: string, rep: string)
    requires |pat| > 0
    ensures ReplaceAll(s, pat, rep) == Join(Split(s, pat), rep)
    decreases |s|
  {
    if |s| < |pat| {
    } else if s[..|pat|] == pat {
      ReplaceAllIsSplitJoin(s[|pat|..], pat, rep);
      JoinCons([], Split(s[|pat|..], pat), rep);
    } else {
      ReplaceAllIsSplitJoin(s[1..], pat, rep);
      JoinPrependChar(s[0], Split(s[1..], pat), rep);
    }
  }

  /** A text without the pattern comes back unchanged. */
  lemma {:induction false} ReplaceAllAbsent(s: string, pat: string, rep: string)
    requires |pat| > 0 && !Contains(s, pat)
    ensures ReplaceAll(s, pat, rep) == s
    decreases |s|
  {
    if |s| >= |pat| {
      assert !Occurs(s, pat, 0);
      OccursShift(s, pat);
      ReplaceAllAbsent(s[1..], pat, rep);
      assert [s[0]] + s[1..] == s;
    }
  }

  /** A prefix in which no occurrence of the pattern starts is copied unchanged. */
  lemma {:induction false} ReplaceAllSkip(a: string, b: string, pat: string, rep: string)
    requires |pat| > 0
    requires NoneBetween(a + b, pat, 0, |a|)
    ensures ReplaceAll(a + b, pat, rep) == a + ReplaceAll(b, pat, rep)
    decreases |a|
  {
    var s := a + b;
    if a != [] && |s| >= |pat| {
      assert !Occurs(s, pat, 0);
      assert s[1..] == a[1..] + b;
      OccursShift(s, pat);
      ReplaceAllSkip(a[1..], b, pat, rep);
      assert [a[0]] + a[1..] == a;
    } else if a != [] {
      ReplaceAllAbsent(s, pat, rep);
      ReplaceAllAbsent(b, pat, rep);
    } else if a == [] {
      assert a + b == b;
    }
  }

  /** An occurrence at the very start is replaced, and the scan resumes after it. */
  lemma ReplaceAllPrefix(pat: string, v: string, rep: string)
    requires |pat| > 0
    ensures ReplaceAll(pat + v, pat, rep) == rep + ReplaceAll(v, pat, rep)
  {
    assert (pat + v)[..|pat|] == pat;
    assert (pat + v)[|pat|..] == v;
  }

  /** A text that is exactly the pattern becomes exactly the replacement. */
  lemma ReplaceAllWhole(pat: string, rep: string)
    requires |pat| > 0
    ensures ReplaceAll(pat, pat, rep) == rep
  {
    assert pat[..|pat|] == pat;
    assert rep + [] == rep;
  }

  /** A text that is the pattern twice becomes the replacement twice. */
  lemma ReplaceAllTwice(pat: string, rep: string)
    requires |pat| > 0
    ensures ReplaceAll(pat + pat, pat, rep) == rep + rep
  {
    ReplaceAllPrefix(pat, pat, rep);
    ReplaceAllPrefix(pat, [], rep);
    assert pat + [] == pat;
    assert rep + [] == rep;
  }

  /** A text holding the pattern exactly once, at `|u|`, gets exactly that occurrence replaced. */
  lemma ReplaceAllOnce(u: string, pat: string, v: string, rep: string)
    requires |pat| > 0
    requires NoneBetween(u + pat + v, pat, 0, |u|)
    requires !Contains(v, pat)
    ensures ReplaceAll(u + pat + v, pat, rep) == u + rep + v
  {
    var w := pat + v;
    assert u + pat + v == u + w;
    ReplaceAllSkip(u, w, pat, rep);
    ReplaceAllPrefix(pat, v, rep);
    ReplaceAllAbsent(v, pat, rep);
    assert u + (rep + v) == u + rep + v;
  }

  /** Where the pattern does not start at index 0, the first character is copied. */
  lemma ReplaceAllStep(s: string, pat: string, rep: string)
    requires |pat| > 0 && |s| > 0 && !Occurs(s, pat, 0)
    ensures ReplaceAll(s, pat, rep) == [s[0]] + ReplaceAll(s[1..], pat, rep)
  {
    if |s| < |pat| {
      assert [s[0]] + s[1..] == s;
    }
  }

  /** A newline-free pattern found at the start of `x + "\n" + y` lies within `x`. */
  lemma NewlineBound(x: string, y: string, pat: string)
    requires '\n' !in pat
    ensures Occurs(x + "\n" + y, pat, 0) ==> |pat| <= |x|
  {
    var s := x + "\n" + y;
    if |x| < |pat| <= |s| {
      assert s[|x|] == '\n';
      assert s[..|pat|][|x|] == '\n';
    }
  }

  /** An occurrence at the start of `x` is one at the start of `x + z`. */
  lemma OccursExtend(x: string, z: string, pat: string)
    ensures Occurs(x, pat, 0) ==> Occurs(x + z, pat, 0)
  {
    if |pat| <= |x| {
      assert (x + z)[..|pat|] == x[..|pat|];
    }
  }

  /** Concatenation regroups. */
  lemma Regroup(a: string, b: string, c: string)
    ensures a + (b + c) == (a + b) + c
  {
  }

  /** The head and tail of a concatenation whose left part is non-empty. */
  lemma ConsTail(x: string, z: string)
    requires |x| > 0
    ensures (x + z)[0] == x[0] && (x + z)[1..] == x[1..] + z
  {
  }

  /** Dropping a prefix of the left part of a concatenation. */
  lemma DropLeft(x: string, z: string, n: nat)
    requires n <= |x|
    ensures (x + z)[..n] == x[..n] && (x + z)[n..] == x[n..] + z
  {
  }

  /** The case of `ReplaceAllAcross` where the pattern starts the text and lies within `x`. */
  lemma AcrossHit(x: string, z: string, pat: string, rep: string, w: string)
    requires |pat| > 0 && |pat| <= |x| && Occurs(x + z, pat, 0)
    requires ReplaceAll(x[|pat|..] + z, pat, rep) == ReplaceAll(x[|pat|..], pat, rep) + w
    ensures ReplaceAll(x + z, pat, rep) == ReplaceAll(x, pat, rep) + w
  {
    DropLeft(x, z, |pat|);
    Regroup(rep, ReplaceAll(x[|pat|..], pat, rep), w);
  }

  /** The case of `ReplaceAllAcross` where the text starts with the newline. */
  lemma AcrossNewline(y: string, pat: string, rep: string)
    requires |pat| > 0 && '\n' !in pat
    ensures ReplaceAll("\n" + y, pat, rep) == ReplaceAll([], pat, rep) + "\n" + ReplaceAll(y, pat, rep)
  {
    var e: string := [];
    NewlineBound(e, y, pat);
    assert e + "\n" + y == "\n" + y;
    ReplaceAllStep("\n" + y, pat, rep);
    ConsTail("\n", y);
  }

  /** The case of `ReplaceAllAcross` where the first character of `x` is copied. */
  lemma AcrossChar(x: string, z: string, pat: string, rep: string, w: string)
    requires |pat| > 0 && |x| > 0 && !Occurs(x + z, pat, 0)
    requires ReplaceAll(x[1..] + z, pat, rep) == ReplaceAll(x[1..], pat, rep) + w
    ensures ReplaceAll(x + z, pat, rep) == ReplaceAll(x, pat, rep) + w
  {
    ConsTail(x, z);
    ReplaceAllStep(x + z, pat, rep);
    OccursExtend(x, z, pat);
    ReplaceAllStep(x, pat, rep);
    Regroup([x[0]], ReplaceAll(x[1..], pat, rep), w);
  }

  /**
   A pattern without a newline never spans one: replacing in
   `x + "\n" + y` replaces in `x` and in `y` separately.
   */
  lemma {:induction false} ReplaceAllAcross(x: string, y: string, pat: string, rep: string)
    requires |pat| > 0 && '\n' !in pat
    ensures ReplaceAll(x + "\n" + y, pat, rep) == ReplaceAll(x, pat, rep) + "\n" + ReplaceAll(y, pat, rep)
    decreases |x|
  {
    var ry := ReplaceAll(y, pat, rep);
    var z := "\n" + y;
    var w := "\n" + ry;
    Regroup(x, "\n", y);
    if Occurs(x + z, pat, 0) {
      NewlineBound(x, y, pat);
      var x' := x[|pat|..];
      ReplaceAllAcross(x', y, pat, rep);
      Regroup(x', "\n", y);
      Regroup(ReplaceAll(x', pat, rep), "\n", ry);
      AcrossHit(x, z, pat, rep, w);
    } else if x == [] {
      AcrossNewline(y, pat, rep);
    } else {
      var x' := x[1..];
      ReplaceAllAcross(x', y, pat, rep);
      Regroup(x', "\n", y);
      Regroup(ReplaceAll(x', pat, rep), "\n", ry);
      AcrossChar(x, z, pat, rep, w);
    }
    Regroup(ReplaceAll(x, pat, rep), "\n", ry);
  }

  /** Each line with the pattern replaced. */
  function MapReplace(lines: seq<string>, pat: string, rep: string): (r: seq<string>)
    requires |pat| > 0
    ensures |r| == |lines|
    ensures forall i :: 0 <= i < |lines| ==> r[i] == ReplaceAll(lines[i], pat, rep)
    decreases |lines|
  {
    if lines == [] then []
    else [ReplaceAll(lines[0], pat, rep)] + MapReplace(lines[1..], pat, rep)
  }

  /** Replacing a newline-free pattern in newline-joined lines is replacing it in each line. */
  lemma {:induction false} ReplaceAllLines(lines: seq<string>, pat: string, rep: string)
    requires |pat| > 0 && '\n' !in pat
    ensures ReplaceAll(Join(lines, "\n"), pat, rep) == Join(MapReplace(lines, pat, rep), "\n")
    decreases |lines|
  {
    if |lines| == 0 {
    } else if |lines| == 1 {
      assert lines[1..] == [];
    } else {
      var rest := lines[1..];
      assert lines == [lines[0]] + rest;
      JoinCons(lines[0], rest, "\n");
      ReplaceAllAcross(lines[0], Join(rest, "\n"), pat, rep);
      ReplaceAllLines(rest, pat, rep);
      JoinCons(ReplaceAll(lines[0], pat, rep), MapReplace(rest, pat, rep), "\n");
    }
  }

  /** Each pattern of `pats` replaced by the replacement at the same index, one after another. */
  function ReplaceSeq(s: string, pats: seq<string>, reps: seq<string>): string
    requires |pats| == |reps| && forall k :: 0 <= k < |pats| ==> |pats[k]| > 0
    decreases |pats|
  {
    if pats == [] then s else ReplaceSeq(ReplaceAll(s, pats[0], reps[0]), pats[1..], reps[1..])
  }

  /** Each line with the replacements applied to it alone. */
  function ReplaceSeqEach(lines: seq<string>, pats: seq<string>, reps: seq<string>): (r: seq<string>)
    requires |pats| == |reps| && forall k :: 0 <= k < |pats| ==> |pats[k]| > 0
    ensures |r| == |lines|
    ensures forall i :: 0 <= i < |lines| ==> r[i] == ReplaceSeq(lines[i], pats, reps)
    decreases |lines|
  {
    if lines == [] then []
    else [ReplaceSeq(lines[0], pats, reps)] + ReplaceSeqEach(lines[1..], pats, reps)
  }

  /** Line by line, the first replacement followed by the rest is the whole sequence. */
  lemma {:induction false} ReplaceSeqEachFirst(lines: seq<string>, pats: seq<string>, reps: seq<string>)
    requires |pats| == |reps| > 0 && forall k :: 0 <= k < |pats| ==> |pats[k]| > 0
    ensures ReplaceSeqEach(MapReplace(lines, pats[0], reps[0]), pats[1..], reps[1..]) == ReplaceSeqEach(lines, pats, reps)
    decreases |lines|
  {
    if lines != [] {
      var m := MapReplace(lines, pats[0], reps[0]);
      assert m[1..] == MapReplace(lines[1..], pats[0], reps[0]);
      ReplaceSeqEachFirst(lines[1..], pats, reps);
    }
  }

  /** Newline-free patterns are replaced in newline-joined lines one line at a time. */
  lemma {:induction false} ReplaceSeqLines(lines: seq<string>, pats: seq<string>, reps: seq<string>)
    requires |pats| == |reps| && forall k :: 0 <= k < |pats| ==> |pats[k]| > 0 && '\n' !in pats[k]
    ensures ReplaceSeq(Join(lines, "\n"), pats, reps) == Join(ReplaceSeqEach(lines, pats, reps), "\n")
    decreases |pats|
  {
    if pats == [] {
      assert ReplaceSeqEach(lines, pats, reps) == lines;
    } else {
      var m := MapReplace(lines, pats[0], reps[0]);
      ReplaceAllLines(lines, pats[0], reps[0]);
      ReplaceSeqLines(m, pats[1..], reps[1..]);
      ReplaceSeqEachFirst(lines, pats, reps);
    }
  }

  /** A text holding none of the patterns is left as it is. */
  lemma {:induction false} ReplaceSeqAbsent(s: string, pats: seq<string>, reps: seq<string>)
    requires |pats| == |reps| && forall k :: 0 <= k < |pats| ==> |pats[k]| > 0 && !Contains(s, pats[k])
    ensures ReplaceSeq(s, pats, reps) == s
    decreases |pats|
  {
    if pats != [] {
      ReplaceAllAbsent(s, pats[0], reps[0]);
      ReplaceSeqAbsent(s, pats[1..], reps[1..]);
    }
  }

  // ---------------------------------------------------------------------------
  // strip

  /** `lstrip` removes exactly a leading run of `cs` characters. */
  lemma {:induction false} StripLeftExact(a: string, t: string, cs: set<char>)
    requires AllIn(a, cs) && (t == [] || t[0] !in cs)
    ensures StripLeft(a + t, cs) == t
    decreases |a|
  {
    if a != [] {
      assert (a + t)[1..] == a[1..] + t;
      StripLeftExact(a[1..], t, cs);
    }
  }

  /** `rstrip` removes exactly a trailing run of `cs` characters. */
  lemma {:induction false} StripRightExact(t: string, b: string, cs: set<char>)
    requires AllIn(b, cs) && (t == [] || t[|t| - 1] !in cs)
    ensures StripRight(t + b, cs) == t
    decreases |b|
  {
    if b != [] {
      assert (t + b)[..|t + b| - 1] == t + b[..|b| - 1];
      StripRightExact(t, b[..|b| - 1], cs);
    }
  }

  /**
   `strip` removes every leading and trailing `cs` character and nothing else:
   with `strip`'s own guarantee, this pins its result down completely.
   */
  lemma StripExact(a: string, x: string, b: string, cs: set<char>)
    requires AllIn(a, cs) && AllIn(b, cs)
    requires x == [] || (x[0] !in cs && x[|x| - 1] !in cs)
    ensures Strip(a + x + b, cs) == x
  {
    if x == [] {
      assert a + x + b == (a + b) + [];
      StripLeftExact(a + b, [], cs);
    } else {
      assert a + x + b == a + (x + b);
      StripLeftExact(a, x + b, cs);
      StripRightExact(x, b, cs);
    }
  }
}
