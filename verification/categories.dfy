/**
 `get_cats`: turning the text of a Cats template into category links.

 The text is stripped of every leading and trailing `{` and `}`, split on
 `|`, and its first segment (the template name) dropped; each remaining
 segment longer than one character becomes a line `[[Category:<segment>]]`,
 and the lines are joined with newlines. Segments are neither trimmed nor
 deduplicated.
 */
module Categories {
  import opened Wrappers
  import opened Text

  /** The characters stripped from both ends of the template text. */
  const Braces: set<char> := {'{', '}'}

  /** The text before a category name in a link. */
  const LinkOpen: string := "[[Category:"

  /** The text after a category name in a link. */
  const LinkClose: string := "]]"

  /** The link `[[Category:<name>]]` for one category name. */
  function Link(name: string): string {
    LinkOpen + name + LinkClose
  }

  /** The category name a link line carries, or `None` for a line that is not a link. */
  function LinkName(line: string): Option<string> {
    if |line| >= |LinkOpen| + |LinkClose|
       && line[..|LinkOpen|] == LinkOpen
       && line[|line| - |LinkClose|..] == LinkClose
    then Some(line[|LinkOpen|..|line| - |LinkClose|])
    else None
  }

  /** The links of a list of names, appended one by one in the same order. */
  function Links(names: seq<string>): (links: seq<string>)
    ensures |links| == |names|
    ensures forall i :: 0 <= i < |names| ==> links[i] == Link(names[i])
    decreases |names|
  {
    if names == [] then [] else [Link(names[0])] + Links(names[1..])
  }

  /**
   The segments the loop of `get_cats` keeps: those longer than one
   character (the test is `> 1`, so one-character names are dropped with the
   empty ones), in their original order, duplicates included.
   */
  function KeepNames(segments: seq<string>): (names: seq<string>)
    ensures |names| <= |segments|
    ensures forall n :: n in names ==> n in segments && |n| > 1
    ensures forall n :: n in segments && |n| > 1 ==> n in names
    decreases |segments|
  {
    if segments == [] then []
    else if |segments[0]| > 1 then [segments[0]] + KeepNames(segments[1..])
    else KeepNames(segments[1..])
  }

  /** The category names of a template text: the kept segments after the first of the brace-stripped text. */
  function Names(t: string): (names: seq<string>)
    ensures forall n :: n in names ==> |n| > 1 && '|' !in n
  {
    var segments := Split(Strip(t, Braces), "|");
    SplitPiecesFree(Strip(t, Braces), '|');
    KeepNames(segments[1..])
  }

  /** Python's `get_cats(t)`: the links of the names, one per line; empty when no name survives. */
  function GetCats(t: string): (r: string)
    ensures r == [] <==> Names(t) == []
  {
    var links := Links(Names(t));
    if links == [] then Join(links, "\n")
    else
      JoinStartsWith(links, "\n");
      Join(links, "\n")
  }

  /** Reading a link back gives the name it was made from. */
  lemma LinkRoundTrip(name: string)
    ensures LinkName(Link(name)) == Some(name)
  {
    var line := Link(name);
    assert line[..|LinkOpen|] == LinkOpen;
    assert line[|line| - |LinkClose|..] == LinkClose;
    assert line[|LinkOpen|..|line| - |LinkClose|] == name;
  }

  /** A link holds a character only if its name or the fixed link text does. */
  lemma LinkFree(name: string, ch: char)
    requires ch !in name && ch !in LinkOpen && ch !in LinkClose
    ensures ch !in Link(name)
  {
  }

  /** Different names give different links. */
  lemma LinkInjective(a: string, b: string)
    requires Link(a) == Link(b)
    ensures a == b
  {
    LinkRoundTrip(a);
    LinkRoundTrip(b);
  }

  /**
   Keeping segments distributes over concatenation: the kept names of a list
   are those of its first part followed by those of the rest, so order and
   repetitions are preserved.
   */
  lemma {:induction false} KeepNamesAppend(a: seq<string>, b: seq<string>)
    ensures KeepNames(a + b) == KeepNames(a) + KeepNames(b)
    decreases |a|
  {
    if a == [] {
      assert a + b == b;
    } else {
      assert (a + b)[0] == a[0];
      assert (a + b)[1..] == a[1..] + b;
      KeepNamesAppend(a[1..], b);
    }
  }

  /** A single segment is kept exactly when it is longer than one character. */
  lemma KeepNamesSingle(x: string)
    ensures KeepNames([x]) == (if |x| > 1 then [x] else [])
  {
    assert [x][1..] == [];
  }

  /** The doubled braces around a template text are all braces. */
  lemma DoubleBraces()
    ensures AllIn("{{", Braces) && AllIn("}}", Braces)
  {
  }

  /**
   For a template text `{{<name>|<arg>|...|<arg>}}` whose name and arguments
   hold no pipe or brace, the names are exactly the arguments longer than one
   character, in order.
   */
  lemma NamesOfTemplate(name: string, args: seq<string>)
    requires |args| >= 1
    requires '|' !in name && '{' !in name && '}' !in name
    requires forall a :: a in args ==> '|' !in a && '{' !in a && '}' !in a
    ensures Names("{{" + (name + "|" + Join(args, "|")) + "}}") == KeepNames(args)
  {
    var j := Join(args, "|");
    var x := name + "|" + j;
    JoinFree(args, "|", '{');
    JoinFree(args, "|", '}');
    assert '{' !in x && '}' !in x;
    assert x[0] in x && x[|x| - 1] in x;
    DoubleBraces();
    StripExact("{{", x, "}}", Braces);
    JoinCons(name, args, "|");
    assert "|" == ['|'];
    SplitJoin([name] + args, '|');
    assert ([name] + args)[1..] == args;
  }

  /** The two spellings of one template text. */
  lemma CatsTemplateText(j: string)
    ensures "{{Cats|" + j + "}}" == "{{" + ("Cats" + "|" + j) + "}}"
  {
  }

  /** With the template name `Cats`: `get_cats` of `{{Cats|a1|...|an}}` links the kept arguments. */
  lemma GetCatsOfInvocation(args: seq<string>)
    requires |args| >= 1
    requires forall a :: a in args ==> '|' !in a && '{' !in a && '}' !in a
    ensures GetCats("{{Cats|" + Join(args, "|") + "}}") == Join(Links(KeepNames(args)), "\n")
  {
    var j := Join(args, "|");
    CatsTemplateText(j);
    NamesOfTemplate("Cats", args);
  }

  /** Every character of a name comes from the template text. */
  lemma NamesFree(t: string, ch: char)
    requires ch !in t
    ensures forall n :: n in Names(t) ==> ch !in n
  {
    var st := Strip(t, Braces);
    var i: nat :| i + |st| <= |t| && st == t[i..i + |st|] && AllIn(t[..i], Braces) && AllIn(t[i + |st|..], Braces);
    assert ch !in st;
    SplitFree(st, "|", ch);
  }

  /** No link of names without `ch` holds `ch`, when the fixed link text lacks it too. */
  lemma LinksFree(names: seq<string>, ch: char)
    requires forall n :: n in names ==> ch !in n
    requires ch !in LinkOpen && ch !in LinkClose
    ensures forall l :: l in Links(names) ==> ch !in l
  {
    var links := Links(names);
    forall i | 0 <= i < |links|
      ensures ch !in links[i]
    {
      LinkFree(names[i], ch);
    }
  }

  /** The fixed text of a link holds no newline. */
  lemma NoNewlineInLinkText()
    ensures '\n' !in LinkOpen && '\n' !in LinkClose
  {
  }

  /** Lines without newlines, joined with newlines, split back into themselves. */
  lemma SplitJoinLines(lines: seq<string>)
    requires |lines| >= 1 && forall l :: l in lines ==> '\n' !in l
    ensures Split(Join(lines, "\n"), "\n") == lines
  {
    assert "\n" == ['\n'];
    SplitJoin(lines, '\n');
  }

  /**
   The output of `get_cats` for a text without newlines, when some name
   survives, splits back into exactly one link per name, in order.
   */
  lemma GetCatsLines(t: string)
    requires '\n' !in t
    ensures Names(t) != [] ==> Split(GetCats(t), "\n") == Links(Names(t))
  {
    if Names(t) == [] {
      return;
    }
    var links := Links(Names(t));
    NamesFree(t, '\n');
    NoNewlineInLinkText();
    LinksFree(Names(t), '\n');
    SplitJoinLines(links);
  }

  /** When some name survives, reading back the lines of `get_cats` yields the names, in order. */
  lemma GetCatsNamesRecovered(t: string)
    requires '\n' !in t
    ensures Names(t) != [] ==> |Split(GetCats(t), "\n")| == |Names(t)|
    ensures Names(t) != [] ==>
      forall i :: 0 <= i < |Names(t)| ==> LinkName(Split(GetCats(t), "\n")[i]) == Some(Names(t)[i])
  {
    if Names(t) == [] {
      return;
    }
    GetCatsLines(t);
    var names := Names(t);
    forall i | 0 <= i < |names|
      ensures LinkName(Links(names)[i]) == Some(names[i])
    {
      LinkRoundTrip(names[i]);
    }
  }

  /** The text of a two-argument template. */
  lemma TwoArgumentText(a: string, b: string)
    ensures "{{Cats|" + Join([a, b], "|") + "}}" == "{{Cats|" + a + "|" + b + "}}"
  {
    assert Join([a, b], "|") == a + "|" + b;
  }

  /** Keeping segments of a two-segment list. */
  lemma KeepNamesTwo(a: string, b: string)
    ensures KeepNames([a, b]) == (if |a| > 1 then [a] else []) + (if |b| > 1 then [b] else [])
  {
    assert [a, b] == [a] + [b];
    KeepNamesAppend([a], [b]);
    KeepNamesSingle(a);
    KeepNamesSingle(b);
  }

  /** The joined links of one name. */
  lemma JoinOneLink(a: string)
    ensures Join(Links([a]), "\n") == Link(a)
  {
    assert Links([a]) == [Link(a)];
  }

  /** The joined links of two names. */
  lemma JoinTwoLinks(a: string, b: string)
    ensures Join(Links([a, b]), "\n") == Link(a) + "\n" + Link(b)
  {
    assert Links([a, b]) == [Link(a), Link(b)];
    assert [Link(a), Link(b)][1..] == [Link(b)];
  }

  /** The text of two links on two lines. */
  lemma TwoLinksText(a: string, b: string)
    ensures Link(a) + "\n" + Link(b) == "[[Category:" + a + "]]\n[[Category:" + b + "]]"
  {
  }

  /** A name usable in the examples below: no pipe and no brace. */
  predicate Plain(name: string) {
    '|' !in name && '{' !in name && '}' !in name
  }

  /**
   Two names longer than one character give two links on two lines, in
   order: `{{Cats|Alpha|Beta}}` gives `[[Category:Alpha]]` and
   `[[Category:Beta]]`.
   */
  lemma GetCatsTwoNames(a: string, b: string)
    requires Plain(a) && Plain(b) && |a| > 1 && |b| > 1
    ensures GetCats("{{Cats|" + a + "|" + b + "}}") == "[[Category:" + a + "]]\n[[Category:" + b + "]]"
  {
    GetCatsOfInvocation([a, b]);
    TwoArgumentText(a, b);
    KeepNamesTwo(a, b);
    JoinTwoLinks(a, b);
    TwoLinksText(a, b);
  }

  /** A repeated name is not deduplicated: it yields its link twice. */
  lemma GetCatsKeepsDuplicates(a: string)
    requires Plain(a) && |a| > 1
    ensures GetCats("{{Cats|" + a + "|" + a + "}}") == "[[Category:" + a + "]]\n[[Category:" + a + "]]"
  {
    GetCatsTwoNames(a, a);
  }

  /** A name of one character (or none) is dropped like an empty one. */
  lemma GetCatsDropsShortName(a: string, b: string)
    requires Plain(a) && Plain(b) && |a| <= 1 && |b| > 1
    ensures GetCats("{{Cats|" + a + "|" + b + "}}") == "[[Category:" + b + "]]"
  {
    GetCatsOfInvocation([a, b]);
    TwoArgumentText(a, b);
    KeepNamesTwo(a, b);
    JoinOneLink(b);
  }

  /** With no name longer than one character, `{{Cats|}}` and `{{Cats|X}}` give the empty string. */
  lemma GetCatsNoName(a: string)
    requires Plain(a) && |a| <= 1
    ensures GetCats("{{Cats|" + a + "}}") == ""
  {
    GetCatsOfInvocation([a]);
    assert Join([a], "|") == a;
    KeepNamesSingle(a);
  }

  /** Stripping braces from `l + "Cats|" + a + r` leaves `Cats|` and `a`, when `a` does not end in a brace. */
  lemma StripAroundArgument(l: string, a: string, r: string)
    requires AllIn(l, Braces) && AllIn(r, Braces)
    requires |a| > 0 && a[|a| - 1] !in Braces
    ensures Strip(l + "Cats|" + a + r, Braces) == "Cats|" + a
  {
    var x := "Cats|" + a;
    assert x[0] == 'C' && x[|x| - 1] == a[|a| - 1];
    assert l + "Cats|" + a + r == l + x + r;
    StripExact(l, x, r, Braces);
  }

  /** `Cats|` and a name without a pipe split into the two. */
  lemma SplitName(a: string)
    requires '|' !in a
    ensures Split("Cats|" + a, "|") == ["Cats", a]
  {
    assert Join(["Cats", a], "|") == "Cats|" + a;
    SplitJoin(["Cats", a], '|');
  }

  /**
   A single argument without a pipe, longer than one character and not
   ending in a brace, becomes one link, however many braces surround the
   text and whatever braces the argument holds inside.
   */
  lemma GetCatsSingleArgument(l: string, a: string, r: string)
    requires AllIn(l, Braces) && AllIn(r, Braces)
    requires '|' !in a && |a| > 1 && a[|a| - 1] !in Braces
    ensures GetCats(l + "Cats|" + a + r) == Link(a)
  {
    StripAroundArgument(l, a, r);
    SplitName(a);
    assert ["Cats", a][1..] == [a];
    KeepNamesSingle(a);
    JoinOneLink(a);
  }

  /** Any number of leading and trailing braces is stripped, not just two of each. */
  lemma GetCatsStripsAllBraces(l: string, a: string, r: string)
    requires AllIn(l, Braces) && AllIn(r, Braces)
    requires Plain(a) && |a| > 1
    ensures GetCats(l + "Cats|" + a + r) == "[[Category:" + a + "]]"
  {
    assert a[|a| - 1] in a;
    GetCatsSingleArgument(l, a, r);
  }
}
