/**
 `break_category_templates`: the text rewrite of one page.

 The page text is split on newlines once, before any change. Each of those
 original lines is tested in order: a line holding `Cats` whose
 `find_cats` result is a template `t` causes every occurrence of `t` in the
 page's CURRENT text to be replaced by `get_cats(t)`, and the page is saved
 once. The outcome of a page is its final text and the number of saves.
 */
module Rewriter {
  import opened Wrappers
  import opened Text
  import opened Template
  import opened Categories

  /** The text of a page after the scan and the number of times it was saved. */
  datatype Outcome = Outcome(text: string, saves: nat)

  /** The cheap test run before `find_cats`: the line holds `Cats`. */
  const Marker: string := "Cats"

  /** Skipping lines without `Cats` never hides a template. */
  lemma PrefilterSound(line: string)
    ensures !Contains(line, Marker) ==> FindCats(line).None?
  {
    if FindCats(line).Some? {
      MatchHasMarker(line);
    }
  }

  /** The template a line yields: `find_cats` behind the `Cats` prefilter. */
  function LineTemplate(line: string): (r: Option<string>)
    ensures r == FindCats(line)
  {
    PrefilterSound(line);
    if Contains(line, Marker) then FindCats(line) else None
  }

  /** The replacement a template gets: `page.text.replace(t, get_cats(t))`. */
  function Replace(text: string, t: string): string
    requires |t| > 0
  {
    ReplaceAll(text, t, GetCats(t))
  }

  /** One iteration of the loop over lines. */
  function Step(o: Outcome, line: string): (r: Outcome)
    ensures FindCats(line).None? ==> r == o
    ensures FindCats(line).Some? ==> r.saves == o.saves + 1
    ensures FindCats(line).Some? ==> r.text == Join(Split(o.text, FindCats(line).value), GetCats(FindCats(line).value))
  {
    match LineTemplate(line)
    case None => o
    case Some(t) =>
      ReplaceAllIsSplitJoin(o.text, t, GetCats(t));
      Outcome(Replace(o.text, t), o.saves + 1)
  }

  /**
   A matching line swaps EVERY occurrence of its template in the current
   text: cut at the occurrences, the text falls into pieces none of which
   holds the template; the old text joins them with the template, the new
   one with its links.
   */
  lemma StepReplacesEveryOccurrence(o: Outcome, line: string)
    requires FindCats(line).Some?
    ensures var t := FindCats(line).value;
      var pieces := Split(o.text, t);
      && Join(pieces, t) == o.text
      && Step(o, line).text == Join(pieces, GetCats(t))
      && (forall p :: p in pieces ==> !Contains(p, t))
  {
    SplitPiecesLackSep(o.text, FindCats(line).value);
  }

  /** The loop over `lines`, each tested against the text as it stands. */
  function RewriteLines(o: Outcome, lines: seq<string>): (r: Outcome)
    decreases |lines|
  {
    if lines == [] then o else RewriteLines(Step(o, lines[0]), lines[1..])
  }

  /** No line of `lines` holds a template. */
  predicate NoLineMatches(lines: seq<string>) {
    forall i :: 0 <= i < |lines| ==> FindCats(lines[i]).None?
  }

  /** No line matches when the first does not and no later line does. */
  lemma NoLineMatchesCons(lines: seq<string>)
    requires |lines| > 0
    ensures NoLineMatches(lines) <==> FindCats(lines[0]).None? && NoLineMatches(lines[1..])
  {
    assert forall i :: 1 <= i < |lines| ==> lines[i] == lines[1..][i - 1];
  }

  /** The templates found on `lines`, one per matching line, in line order. */
  function Templates(lines: seq<string>): (ts: seq<string>)
    ensures |ts| <= |lines|
    ensures forall k :: 0 <= k < |ts| ==> |ts[k]| >= |Open| + |Close| && ts[k][..|Open|] == Open
    ensures ts == [] <==> NoLineMatches(lines)
    decreases |lines|
  {
    if lines == [] then []
    else
      var rest := Templates(lines[1..]);
      NoLineMatchesCons(lines);
      match FindCats(lines[0])
      case None => rest
      case Some(t) => [t] + rest
  }

  /** Every collected template is a template text. */
  lemma {:induction false} TemplatesAreTemplateText(lines: seq<string>)
    ensures forall k :: 0 <= k < |Templates(lines)| ==> TemplateText(Templates(lines)[k])
    decreases |lines|
  {
    if lines != [] {
      TemplatesAreTemplateText(lines[1..]);
      FindCatsTemplateText(lines[0]);
      var rest := Templates(lines[1..]);
      match FindCats(lines[0])
      case None =>
        assert Templates(lines) == rest;
      case Some(t) =>
        assert Templates(lines) == [t] + rest;
    }
  }

  /** The replacements of `ts`, applied one after another to `text`. */
  function ApplyAll(text: string, ts: seq<string>): string
    requires forall k :: 0 <= k < |ts| ==> |ts[k]| > 0
    decreases |ts|
  {
    if ts == [] then text else ApplyAll(Replace(text, ts[0]), ts[1..])
  }

  /** Applying `[t] + rest` is replacing `t`, then applying `rest`. */
  lemma ApplyFirst(text: string, t: string, rest: seq<string>)
    requires |t| > 0 && forall k :: 0 <= k < |rest| ==> |rest[k]| > 0
    ensures ApplyAll(text, [t] + rest) == ApplyAll(Replace(text, t), rest)
  {
    assert ([t] + rest)[0] == t && ([t] + rest)[1..] == rest;
  }

  /**
   The loop is the two-phase rewrite: the templates are collected from the
   given lines alone, and their replacements are applied in order; each
   applied replacement is one save.
   */
  lemma {:induction false} RewriteLinesTwoPhase(o: Outcome, lines: seq<string>)
    ensures RewriteLines(o, lines) == Outcome(ApplyAll(o.text, Templates(lines)), o.saves + |Templates(lines)|)
    decreases |lines|
  {
    if lines != [] {
      var o' := Step(o, lines[0]);
      var rest := Templates(lines[1..]);
      RewriteLinesTwoPhase(o', lines[1..]);
      assert RewriteLines(o, lines) == RewriteLines(o', lines[1..]);
      match FindCats(lines[0])
      case None =>
        assert Templates(lines) == rest;
      case Some(t) =>
        assert Templates(lines) == [t] + rest;
        ApplyFirst(o.text, t, rest);
    }
  }

  /** Python's `break_category_templates` on the text of a page. */
  function Rewrite(text: string): (r: Outcome)
    ensures r.saves == |Templates(Split(text, "\n"))|
    ensures r.text == ApplyAll(text, Templates(Split(text, "\n")))
  {
    RewriteLinesTwoPhase(Outcome(text, 0), Split(text, "\n"));
    RewriteLines(Outcome(text, 0), Split(text, "\n"))
  }

  /** The replacement of each template. */
  function Reps(ts: seq<string>): (r: seq<string>)
    ensures |r| == |ts|
    decreases |ts|
  {
    if ts == [] then [] else [GetCats(ts[0])] + Reps(ts[1..])
  }

  /** Applying the templates is replacing each by its `get_cats`. */
  lemma {:induction false} ApplyAllIsReplaceSeq(text: string, ts: seq<string>)
    requires forall k :: 0 <= k < |ts| ==> |ts[k]| > 0
    ensures ApplyAll(text, ts) == ReplaceSeq(text, ts, Reps(ts))
    decreases |ts|
  {
    if ts != [] {
      ApplyAllIsReplaceSeq(Replace(text, ts[0]), ts[1..]);
      var r := Reps(ts);
      assert r[0] == GetCats(ts[0]);
      assert r[1..] == Reps(ts[1..]);
    }
  }

  /** Each line with every replacement of `ts` applied to it alone. */
  function ApplyEach(lines: seq<string>, ts: seq<string>): seq<string>
    requires forall k :: 0 <= k < |ts| ==> |ts[k]| > 0
  {
    ReplaceSeqEach(lines, ts, Reps(ts))
  }

  /** A newline-free line without a match of its own survives every replacement. */
  lemma ApplyAllUnmatched(line: string, ts: seq<string>)
    requires '\n' !in line && FindCats(line).None?
    requires forall k :: 0 <= k < |ts| ==> |ts[k]| > 0 && TemplateText(ts[k])
    ensures ApplyAll(line, ts) == line
  {
    forall k | 0 <= k < |ts|
      ensures !Contains(line, ts[k])
    {
      UnmatchedLacksTemplate(line, ts[k]);
    }
    ReplaceSeqAbsent(line, ts, Reps(ts));
    ApplyAllIsReplaceSeq(line, ts);
  }

  /**
   The rewrite works line by line: the final text is the original lines,
   each with every replacement applied, joined by newlines; an original line
   without a template comes out unchanged.
   */
  lemma RewriteByLines(text: string)
    ensures var lines := Split(text, "\n");
      var blocks := ApplyEach(lines, Templates(lines));
      && Rewrite(text).text == Join(blocks, "\n")
      && |blocks| == |lines|
      && (forall i :: 0 <= i < |lines| ==> blocks[i] == ApplyAll(lines[i], Templates(lines)))
      && (forall i :: 0 <= i < |lines| && FindCats(lines[i]).None? ==> blocks[i] == lines[i])
  {
    var lines := Split(text, "\n");
    var ts := Templates(lines);
    TemplatesAreTemplateText(lines);
    ReplaceSeqLines(lines, ts, Reps(ts));
    ApplyAllIsReplaceSeq(text, ts);
    assert "\n" == ['\n'];
    SplitPiecesFree(text, '\n');
    forall i | 0 <= i < |lines|
      ensures ApplyEach(lines, ts)[i] == ApplyAll(lines[i], ts)
      ensures FindCats(lines[i]).None? ==> ApplyEach(lines, ts)[i] == lines[i]
    {
      ApplyAllIsReplaceSeq(lines[i], ts);
      if FindCats(lines[i]).None? {
        assert lines[i] in lines;
        ApplyAllUnmatched(lines[i], ts);
      }
    }
  }

  /** The page is saved exactly when some original line holds a template, and an unsaved page is unchanged. */
  lemma RewriteSavesIff(text: string)
    ensures Rewrite(text).saves == 0 <==> NoLineMatches(Split(text, "\n"))
    ensures Rewrite(text).saves == 0 ==> Rewrite(text).text == text
  {
    var ts := Templates(Split(text, "\n"));
    assert Rewrite(text).saves == |ts|;
    if ts == [] {
      assert ApplyAll(text, ts) == text;
    }
  }

  /** A page without `Cats` anywhere is left alone and never saved. */
  lemma NoMarkerUnchanged(text: string)
    requires !Contains(text, Marker)
    ensures Rewrite(text) == Outcome(text, 0)
  {
    var lines := Split(text, "\n");
    forall i | 0 <= i < |lines|
      ensures FindCats(lines[i]).None?
    {
      if Contains(lines[i], Marker) {
        SplitPieceInside(text, "\n", lines[i], Marker);
      }
      PrefilterSound(lines[i]);
    }
    RewriteSavesIff(text);
  }

  /** A line without a newline is the only line of its text. */
  lemma SingleLine(s: string)
    requires '\n' !in s
    ensures Split(s, "\n") == [s]
  {
    assert "\n" == ['\n'];
    SplitAbsent(s, '\n');
  }

  /** The two-phase rewrite of a one-line text whose line holds the template `t`. */
  lemma RewriteOneLine(s: string, t: string)
    requires '\n' !in s && FindCats(s) == Some(t)
    ensures Rewrite(s) == Outcome(Replace(s, t), 1)
  {
    SingleLine(s);
    assert Templates([s]) == [t];
    assert ApplyAll(s, [t]) == ApplyAll(Replace(s, t), []);
  }

  /** No template starts inside a prefix without `{`. */
  lemma NoTemplateBefore(u: string, t: string, v: string)
    requires '{' !in u && |t| > 0 && t[0] == '{'
    ensures NoneBetween(u + t + v, t, 0, |u|)
  {
    forall i: nat | i < |u|
      ensures !Occurs(u + t + v, t, i)
    {
      assert (u + t + v)[i] == u[i];
      if i + |t| <= |u + t + v| {
        assert (u + t + v)[i..i + |t|][0] == u[i];
      }
    }
  }

  /** A text without `}` holds no template. */
  lemma NoTemplateWithoutClose(v: string, t: string)
    requires '}' !in v && |t| > 0 && t[|t| - 1] == '}'
    ensures !Contains(v, t)
  {
    forall i: nat
      ensures !Occurs(v, t, i)
    {
      if i + |t| <= |v| {
        assert v[i + |t| - 1] in v;
        assert v[i..i + |t|][|t| - 1] == v[i + |t| - 1];
      }
    }
  }

  /**
   A template inside a line is replaced in place: the text before it and the
   text after it stay as they are, and the page is saved once.
   */
  lemma RewriteInline(u: string, a: string, v: string)
    requires '\n' !in u && '\n' !in a && '\n' !in v
    requires '{' !in u && '}' !in v && !Contains(a, Open)
    ensures Rewrite(u + Invocation(a) + v) == Outcome(u + GetCats(Invocation(a)) + v, 1)
  {
    var t := Invocation(a);
    var s := u + t + v;
    GreedyPick(u, a, v);
    InvocationNoNewline(a);
    assert '\n' !in s;
    RewriteOneLine(s, t);
    InvocationEnds(a);
    NoTemplateBefore(u, t, v);
    NoTemplateWithoutClose(v, t);
    ReplaceAllOnce(u, t, v, GetCats(t));
  }

  /** Of two equal templates on a line, `find_cats` returns the text of one. */
  lemma FindCatsRepeated(a: string)
    requires '\n' !in a && !Contains(a, Open)
    ensures '\n' !in Invocation(a) + Invocation(a)
    ensures FindCats(Invocation(a) + Invocation(a)) == Some(Invocation(a))
  {
    var t := Invocation(a);
    InvocationNoNewline(a);
    GreedyPick(t, a, []);
    assert t + t + [] == t + t;
  }

  /**
   Every occurrence of the template is replaced, not only the one found: a
   line holding the same template twice gets two copies of its links.
   */
  lemma RewriteRepeatedTemplate(a: string)
    requires '\n' !in a && !Contains(a, Open)
    ensures Rewrite(Invocation(a) + Invocation(a)) == Outcome(GetCats(Invocation(a)) + GetCats(Invocation(a)), 1)
  {
    var t := Invocation(a);
    FindCatsRepeated(a);
    RewriteOneLine(t + t, t);
    ReplaceAllTwice(t, GetCats(t));
  }

  /** A line that is exactly one template becomes its links. */
  lemma RewriteWholeLine(a: string)
    requires '\n' !in a && !Contains(a, Open)
    ensures Rewrite(Invocation(a)) == Outcome(GetCats(Invocation(a)), 1)
  {
    var t := Invocation(a);
    FindCatsWhole(a);
    RewriteOneLine(t, t);
    ReplaceAllWhole(t, GetCats(t));
  }

  /** The spellings of the line `{{Cats|a}} {{x}}` and of its link. */
  lemma SwallowedText(a: string, x: string)
    ensures "{{Cats|" + a + "}} {{" + x + "}}" == Invocation(a + "}} {{" + x)
    ensures Invocation(a + "}} {{" + x) == "{{" + "Cats|" + (a + "}} {{" + x) + "}}"
    ensures Link(a + "}} {{" + x) == "[[Category:" + a + "}} {{" + x + "]]"
  {
  }

  /** The argument run `a}} {{x` of the line `{{Cats|a}} {{x}}`. */
  lemma SwallowedArgument(a: string, x: string)
    requires Plain(a) && Plain(x) && '\n' !in a && '\n' !in x && |x| > 0
    ensures var y := a + "}} {{" + x;
      && '|' !in y && '\n' !in y && |y| > 1 && y[|y| - 1] !in Braces && !Contains(y, Open)
  {
    var y := a + "}} {{" + x;
    assert '|' !in y && '\n' !in y;
    assert y[|y| - 1] == x[|x| - 1] && x[|x| - 1] in x;
    NoOpenWithoutPipe(y);
  }

  /**
   A template followed on its line by another template is matched up to
   the last `}}`: `{{Cats|a}} {{x}}` is replaced as a whole by the single
   link `[[Category:a}} {{x]]`, and the following template is lost.
   */
  lemma RewriteSwallowsFollowingTemplate(a: string, x: string)
    requires Plain(a) && Plain(x) && '\n' !in a && '\n' !in x && |x| > 0
    ensures Rewrite("{{Cats|" + a + "}} {{" + x + "}}") == Outcome("[[Category:" + a + "}} {{" + x + "]]", 1)
  {
    var y := a + "}} {{" + x;
    SwallowedText(a, x);
    SwallowedArgument(a, x);
    RewriteWholeLine(y);
    DoubleBraces();
    GetCatsSingleArgument("{{", y, "}}");
  }
}
