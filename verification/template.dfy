/**
 `find_cats`: recognising a Cats template on one line of a wiki page.

 The source matches `(.*)(\{\{Cats\|(.*)\}\})(.*)` with Python's `re.match`.
 Rather than a regular-expression engine, this module states what that one
 pattern matches. Every `.*` is greedy and `re.match` tries the longest
 first group first, so the match begins at the rightmost `{{Cats|` that
 still has a `}}` at or after the end of the `{{Cats|`, and (for that start)
 ends at the last `}}` of the line. `.` matches any character except a
 newline, so only the text before the first newline can take part.
 */
module Template {
  import opened Wrappers
  import opened Text

  /** The literal opening of the template, `{{Cats|`. */
  const Open: string := "{{Cats|"

  /** The literal closing of the template, `}}`. */
  const Close: string := "}}"

  /** The text of a Cats template whose argument run is `args`: `{{Cats|args}}`. */
  function Invocation(args: string): (t: string)
    ensures |t| == |Open| + |args| + |Close|
    ensures t[..|Open|] == Open && t[|Open|..|Open| + |args|] == args && t[|Open| + |args|..] == Close
  {
    Open + args + Close
  }

  /** A template whose argument run has no newline has none. */
  lemma InvocationNoNewline(args: string)
    requires '\n' !in args
    ensures '\n' !in Invocation(args)
  {
    assert '\n' !in Open && '\n' !in Close;
  }

  /** A template starts with `{` and ends with `}`. */
  lemma InvocationEnds(args: string)
    ensures Invocation(args)[0] == '{' && Invocation(args)[|Invocation(args)| - 1] == '}'
  {
    var t := Invocation(args);
    assert t[0] == t[..|Open|][0];
    assert t[|t| - 1] == t[|Open| + |args|..][1];
  }

  /** Some `{{Cats|` of `line` has a `}}` starting at or after its end. */
  ghost predicate HasTemplate(line: string) {
    exists p: nat, q: nat :: Occurs(line, Open, p) && Occurs(line, Close, q) && p + |Open| <= q
  }

  /**
   `{{Cats|` at `p` and `}}` at `q` are the pair the greedy pattern picks:
   `}}` at `q` is the last one of the line, and no later `{{Cats|` has a
   `}}` at or after its end.
   */
  ghost predicate IsGreedyMatch(line: string, p: nat, q: nat) {
    && Occurs(line, Open, p)
    && Occurs(line, Close, q)
    && p + |Open| <= q
    && (forall q': nat :: q < q' ==> !Occurs(line, Close, q'))
    && (forall p': nat, q': nat :: p < p' && Occurs(line, Open, p') && Occurs(line, Close, q') ==> q' < p' + |Open|)
  }

  /** The start of the matched `{{Cats|` and of the matched `}}`, found by two backward scans. */
  function MatchBounds(line: string): (r: Option<(nat, nat)>)
    ensures r.Some? ==> Occurs(line, Open, r.value.0) && Occurs(line, Close, r.value.1) && r.value.0 + |Open| <= r.value.1
  {
    match LastBefore(line, Close, |line|)
    case None => None
    case Some(q) =>
      if q < |Open| then None
      else
        match LastBefore(line, Open, q - |Open| + 1)
        case None => None
        case Some(p) => Some((p, q))
  }

  /** The backward scans find the greedy pair, and find one exactly when the line holds a template. */
  lemma MatchBoundsSpec(line: string)
    ensures MatchBounds(line).Some? ==> IsGreedyMatch(line, MatchBounds(line).value.0, MatchBounds(line).value.1)
    ensures MatchBounds(line).None? <==> !HasTemplate(line)
  {
  }

  /** The text between a greedy pair is a template occurring in `s`. */
  lemma MatchedText(s: string, p: nat, q: nat)
    requires Occurs(FirstLine(s), Open, p) && Occurs(FirstLine(s), Close, q) && p + |Open| <= q
    ensures var t := FirstLine(s)[p..q + |Close|];
      && |t| >= |Open| + |Close|
      && t[..|Open|] == Open && t[|t| - |Close|..] == Close
      && Occurs(s, t, p)
  {
    var line := FirstLine(s);
    var t := line[p..q + |Close|];
    forall k | 0 <= k < |Open|
      ensures t[k] == Open[k]
    {
      OccursChar(line, Open, p, k);
    }
    assert t[..|Open|] == Open;
    assert t[|t| - |Close|..] == line[q..q + |Close|];
    assert s[p..q + |Close|] == t;
  }

  /** Python's `find_cats(s)`: the matched `{{Cats|...}}` text, or `None`. */
  function FindCats(s: string): (r: Option<string>)
    ensures r.Some? ==> |r.value| >= |Open| + |Close|
    ensures r.Some? ==> r.value[..|Open|] == Open && r.value[|r.value| - |Close|..] == Close
  {
    var b := MatchBounds(FirstLine(s));
    if b.None? then None
    else
      MatchedText(s, b.value.0, b.value.1);
      Some(FirstLine(s)[b.value.0..b.value.1 + |Close|])
  }

  /**
   `find_cats` finds nothing exactly when the first line holds no template,
   and what it finds is a piece of its input.
   */
  lemma FindCatsSpec(s: string)
    ensures FindCats(s).None? <==> !HasTemplate(FirstLine(s))
    ensures FindCats(s).Some? ==> exists i: nat :: Occurs(s, FindCats(s).value, i)
  {
    var b := MatchBounds(FirstLine(s));
    MatchBoundsSpec(FirstLine(s));
    if b.Some? {
      var p, q := b.value.0, b.value.1;
      FindCatsOfBounds(s, p, q);
      MatchedText(s, p, q);
      assert Occurs(s, FindCats(s).value, p);
    }
  }

  /** At most one pair of positions is the greedy match. */
  lemma GreedyUnique(line: string, p: nat, q: nat, p': nat, q': nat)
    requires IsGreedyMatch(line, p, q) && IsGreedyMatch(line, p', q')
    ensures p == p' && q == q'
  {
  }

  /** A line with a template has a greedy match. */
  lemma HasGreedyMatch(line: string)
    requires HasTemplate(line)
    ensures exists p: nat, q: nat :: IsGreedyMatch(line, p, q)
  {
    MatchBoundsSpec(line);
    var r := MatchBounds(line);
    assert IsGreedyMatch(line, r.value.0, r.value.1);
  }

  /** A greedy pair is a template on the line. */
  lemma GreedyHasTemplate(line: string, p: nat, q: nat)
    requires IsGreedyMatch(line, p, q)
    ensures HasTemplate(line)
  {
  }

  /** The backward scans find exactly the greedy pair. */
  lemma MatchBoundsGreedy(line: string, p: nat, q: nat)
    requires IsGreedyMatch(line, p, q)
    ensures MatchBounds(line) == Some((p, q))
  {
    GreedyHasTemplate(line, p, q);
    MatchBoundsSpec(line);
    var r := MatchBounds(line);
    GreedyUnique(line, p, q, r.value.0, r.value.1);
  }

  /** `find_cats` in terms of the scanned bounds of the first line. */
  lemma FindCatsOfBounds(s: string, p: nat, q: nat)
    requires MatchBounds(FirstLine(s)) == Some((p, q))
    ensures FindCats(s).Some? && FindCats(s).value == FirstLine(s)[p..q + |Close|]
  {
  }

  /** `find_cats` returns exactly the text between the greedy pair, delimiters included. */
  lemma FindCatsGreedy(s: string, p: nat, q: nat)
    requires IsGreedyMatch(FirstLine(s), p, q)
    ensures FindCats(s) == Some(FirstLine(s)[p..q + |Close|])
  {
    MatchBoundsGreedy(FirstLine(s), p, q);
    FindCatsOfBounds(s, p, q);
  }

  /** A line without a newline is its own first line. */
  lemma FirstLineWhole(s: string)
    requires '\n' !in s
    ensures FirstLine(s) == s
  {
    if |FirstLine(s)| < |s| {
      assert s[|FirstLine(s)|] == '\n';
    }
  }

  /**
   The prefilter `"Cats" in line` never skips a line `find_cats` would match:
   every match contains `Cats`.
   */
  lemma MatchHasMarker(s: string)
    requires FindCats(s).Some?
    ensures Contains(s, "Cats")
  {
    var t := FindCats(s).value;
    FindCatsSpec(s);
    var i: nat :| Occurs(s, t, i);
    assert t[..|Open|] == Open;
    assert t[2..6] == "Cats" by {
      assert t[2..6] == t[..|Open|][2..6];
    }
    assert Occurs(t, "Cats", 2);
    assert s[i..i + |t|] == t;
    SliceOccurs(s, i, t, "Cats", 2);
  }

  /** A template `find_cats` returns lies on one line. */
  lemma FindCatsNoNewline(s: string)
    ensures FindCats(s).Some? ==> '\n' !in FindCats(s).value
  {
    var line := FirstLine(s);
    var b := MatchBounds(line);
    if b.Some? {
      var (p, q) := b.value;
      FindCatsOfBounds(s, p, q);
      var t := line[p..q + |Close|];
      forall k | 0 <= k < |t|
        ensures t[k] != '\n'
      {
        assert t[k] == line[p + k];
      }
    }
  }

  /** What `find_cats` returns: one line, opened by `{{Cats|` and closed by `}}`. */
  predicate TemplateText(t: string) {
    && |t| >= |Open| + |Close|
    && t[..|Open|] == Open
    && t[|t| - |Close|..] == Close
    && '\n' !in t
  }

  /** Every result of `find_cats` is a template text. */
  lemma FindCatsTemplateText(s: string)
    ensures FindCats(s).Some? ==> TemplateText(FindCats(s).value)
  {
    FindCatsNoNewline(s);
  }

  /** A newline-free line that contains a whole template text has a match of its own. */
  lemma TemplateInLine(line: string, t: string)
    requires '\n' !in line && Contains(line, t) && TemplateText(t)
    ensures FindCats(line).Some?
  {
    var i: nat :| Occurs(line, t, i);
    SliceOfSlice(line, i, t, 0, |Open|);
    SliceOfSlice(line, i, t, |t| - |Close|, |Close|);
    assert Occurs(line, Open, i);
    assert Occurs(line, Close, i + |t| - |Close|);
    assert HasTemplate(line);
    FirstLineWhole(line);
    FindCatsSpec(line);
  }

  /** A newline-free line without a match contains no template text. */
  lemma UnmatchedLacksTemplate(line: string, t: string)
    requires '\n' !in line && TemplateText(t)
    ensures FindCats(line).None? ==> !Contains(line, t)
  {
    if Contains(line, t) {
      TemplateInLine(line, t);
    }
  }

  /** A run without a pipe holds no `{{Cats|`. */
  lemma NoOpenWithoutPipe(a: string)
    requires '|' !in a
    ensures !Contains(a, Open)
  {
    forall i: nat
      ensures !Occurs(a, Open, i)
    {
      if i + |Open| <= |a| {
        assert a[i + 6] in a;
        assert a[i..i + |Open|][6] == a[i + 6];
      }
    }
  }

  /** With no `}` after the `}}` at `q`, no `}}` starts after `q`. */
  lemma NoLaterClose(s: string, q: nat, q': nat)
    requires q + |Close| <= |s| && '}' !in s[q + |Close|..]
    requires q < q'
    ensures !Occurs(s, Close, q')
  {
    if q' + |Close| <= |s| {
      assert s[q + |Close|..][q' + 1 - q - |Close|] == s[q' + 1];
      assert s[q'..q' + |Close|][1] == s[q' + 1];
    }
  }

  /** A slice of a slice, re-expressed on the outer string. */
  lemma SliceOfSlice(s: string, lo: nat, a: string, j: nat, n: nat)
    requires lo + |a| <= |s| && s[lo..lo + |a|] == a && j + n <= |a|
    ensures s[lo + j..lo + j + n] == a[j..j + n]
  {
    forall k | j <= k < j + n
      ensures s[lo + k] == a[k]
    {
      assert s[lo..lo + |a|][k] == s[lo + k];
    }
    assert s[lo + j..lo + j + n] == a[j..j + n];
  }

  /** Inside a slice equal to `a`, occurrences in `s` are occurrences in `a`. */
  lemma OccursInSlice(s: string, lo: nat, a: string, i: nat, pat: string)
    requires lo + |a| <= |s| && s[lo..lo + |a|] == a && lo <= i && i + |pat| <= lo + |a|
    ensures Occurs(s, pat, i) <==> Occurs(a, pat, i - lo)
  {
    SliceOfSlice(s, lo, a, i - lo, |pat|);
  }

  /** No `{{Cats|` starts inside the `{{Cats|` at `p`, except at `p` itself. */
  lemma NoOpenInsideOpen(s: string, p: nat, p': nat)
    requires p + |Open| <= |s| && s[p..p + |Open|] == Open
    requires p < p' < p + |Open|
    ensures !Occurs(s, Open, p')
  {
    if p' == p + 1 {
      assert s[p + 2] == s[p..p + |Open|][2];
      if p' + |Open| <= |s| {
        assert s[p'..p' + |Open|][1] == s[p + 2];
      }
    } else {
      assert s[p'] == s[p..p + |Open|][p' - p];
      assert Open[p' - p] in Open[2..];
      if p' + |Open| <= |s| {
        assert s[p'..p' + |Open|][0] == s[p'];
      }
    }
  }

  /**
   With `{{Cats|` at `p` followed by a run `a` holding no `{{Cats|`, no
   `{{Cats|` starts after `p` and ends within the run.
   */
  lemma NoLaterOpen(s: string, p: nat, a: string, p': nat)
    requires p + |Open| + |a| <= |s| && s[p..p + |Open|] == Open && s[p + |Open|..p + |Open| + |a|] == a
    requires !Contains(a, Open)
    requires p < p' && p' + |Open| <= p + |Open| + |a|
    ensures !Occurs(s, Open, p')
  {
    if p' < p + |Open| {
      NoOpenInsideOpen(s, p, p');
    } else {
      var lo := p + |Open|;
      OccursInSlice(s, lo, a, p', Open);
      NotContainsAt(a, Open, p' - lo);
    }
  }

  /**
   `{{Cats|` at `p`, then a run `a` without `{{Cats|`, then `}}` and no `}`
   after it: that `{{Cats|` and that `}}` are the greedy pair.
   */
  lemma GreedyAt(s: string, p: nat, a: string)
    requires p + |Invocation(a)| <= |s| && s[p..p + |Invocation(a)|] == Invocation(a)
    requires !Contains(a, Open) && '}' !in s[p + |Invocation(a)|..]
    ensures IsGreedyMatch(s, p, p + |Open| + |a|)
  {
    var t := Invocation(a);
    var q := p + |Open| + |a|;
    SliceOfSlice(s, p, t, 0, |Open|);
    SliceOfSlice(s, p, t, |Open|, |a|);
    SliceOfSlice(s, p, t, |Open| + |a|, |Close|);
    assert s[p..p + |Open|] == Open;
    assert s[p + |Open|..p + |Open| + |a|] == a;
    assert s[q..q + |Close|] == Close;
    forall q': nat | q < q'
      ensures !Occurs(s, Close, q')
    {
      NoLaterClose(s, q, q');
    }
    forall p': nat, q': nat | p < p' && Occurs(s, Open, p') && Occurs(s, Close, q')
      ensures q' < p' + |Open|
    {
      if p' + |Open| <= q' {
        NoLaterOpen(s, p, a, p');
      }
    }
  }

  /** `GreedyAt` on a line without a newline: `find_cats` returns that template. */
  lemma GreedyOnLine(s: string, p: nat, a: string)
    requires '\n' !in s
    requires p + |Invocation(a)| <= |s| && s[p..p + |Invocation(a)|] == Invocation(a)
    requires !Contains(a, Open) && '}' !in s[p + |Invocation(a)|..]
    ensures FindCats(s) == Some(Invocation(a))
  {
    var q := p + |Open| + |a|;
    FirstLineWhole(s);
    GreedyAt(s, p, a);
    FindCatsGreedy(s, p, q);
  }

  /** A line that is exactly one template is matched as a whole. */
  lemma FindCatsWhole(a: string)
    requires '\n' !in a && !Contains(a, Open)
    ensures '\n' !in Invocation(a)
    ensures FindCats(Invocation(a)) == Some(Invocation(a))
  {
    var t := Invocation(a);
    InvocationNoNewline(a);
    assert t[0..|t|] == t;
    assert t[|t|..] == [];
    GreedyOnLine(t, 0, a);
  }

  /**
   The greedy choice on a line `u + "{{Cats|" + a + "}}" + v`: when `a` holds
   no further `{{Cats|` and `v` no `}`, the match is that template, whatever
   `u` holds. In particular, of two templates on one line only the last one
   is returned, and the argument run may contain braces.
   */
  lemma GreedyPick(u: string, a: string, v: string)
    requires '\n' !in u && '\n' !in a && '\n' !in v
    requires !Contains(a, Open)
    requires '}' !in v
    ensures FindCats(u + Invocation(a) + v) == Some(Invocation(a))
  {
    var t := Invocation(a);
    assert (u + t + v)[|u|..|u| + |t|] == t;
    assert (u + t + v)[|u| + |t|..] == v;
    InvocationNoNewline(a);
    assert '\n' !in u + t + v;
    GreedyOnLine(u + t + v, |u|, a);
  }
}
