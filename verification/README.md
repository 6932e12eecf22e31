# break-cats-temp in Dafny

A model of the text-rewriting core of `break_cats_temp.py`, a pywikibot
script that rewrites a MediaWiki `{{Cats|A|B|...}}` template into one
`[[Category:A]]`, `[[Category:B]]`, ... link per line. Three pieces are modelled:

- `find_cats` (module `Template`): whether a line holds a Cats template,
  and which text the fixed pattern `(.*)(\{\{Cats\|(.*)\}\})(.*)` picks
  under Python's greedy `re.match`. The pattern is stated declaratively
  (`HasTemplate`, `IsGreedyMatch`) instead of through a regex engine. It is
  computed by two backward scans (`MatchBounds`), and the two are proved to agree.
- `get_cats` (module `Categories`) works in five steps:
  1. strip every leading and trailing brace;
  2. split on `|`;
  3. drop the template name;
  4. keep the segments longer than one character;
  5. render each as a link and join the links with newlines.
- The text part of `break_category_templates` (module `Rewriter`) is a
  pure function `Rewrite(text)`. It returns an `Outcome` holding the final
  text and `saves`, the number of `page.save` calls.

Module `Text` holds the Python string operations the script uses:
- `in`;
- `split` and `join`;
- `replace`;
- `strip(chars)`;
- the part of a string before its first newline.

Strings are `seq<char>`.

Four behaviours of the code are easy to misread; the model keeps them as
written:
- The argument run of the template is `.*` (break_cats_temp.py:47). It is
  greedy and may contain braces, so on `{{Cats|a}} {{x}}` the match swallows `{{x}}`. See
  `RewriteSwallowsFollowingTemplate`.
- `strip("{}")` (break_cats_temp.py:62) removes every leading and trailing
  brace, however many there are, not just the two of each end. See `GetCatsStripsAllBraces`.
- A segment is kept only when it is longer than one character. The test is
  `> 1` (break_cats_temp.py:68), although the comment at
  break_cats_temp.py:67 speaks of empty strings only. So a
  one-character name is dropped, and `{{Cats|X}}` gives the empty string
  (see `GetCatsNoName`).
- `.` does not match a newline, so `find_cats` looks only at the text
  before the first newline (`FirstLine`). Lines produced by `split('\n')`
  have none.

## Model

| member | source | states |
|---|---|---|
| Text.Contains | break_cats_temp.py:81 | `pat in s` holds exactly when `pat` occurs in `s` at some index |
| Text.LastBefore | break_cats_temp.py:47-48 | finds the last occurrence of a pattern below a bound, with no later one below the bound; finds none only when there is none |
| Text.FirstLine | break_cats_temp.py:47-48 | the text `.` can reach is a newline-free prefix, ending at the first newline or at the end |
| Text.Split | break_cats_temp.py:77 | `split` returns at least one piece; joining the pieces with the separator gives the text back |
| Text.SplitPiecesLackSep | break_cats_temp.py:77 | no piece of `split` contains the separator: every occurrence was a cut |
| Text.SplitPieceInside | break_cats_temp.py:77-81 | whatever a piece of `split` contains, the whole text contains |
| Text.SplitJoin | break_cats_temp.py:63 | `split` undoes `join` when no part holds the separator |
| Text.SplitFree | break_cats_temp.py:63 | a character absent from the text is absent from every piece |
| Text.Strip | break_cats_temp.py:62 | `strip(cs)` returns a slice of the input whose cut-off ends are made of `cs` only and which neither starts nor ends with a character of `cs` |
| Text.StripExact | break_cats_temp.py:62 | stripping `a + x + b`, where `a` and `b` hold only stripped characters and `x` does not start or end with one, gives `x` |
| Text.ReplaceAllIsSplitJoin | break_cats_temp.py:87 | `s.replace(pat, rep)` equals `rep.join(s.split(pat))`: every occurrence is swapped and the text between them is kept |
| Text.ReplaceAllAbsent | break_cats_temp.py:87 | a text without the pattern is returned unchanged |
| Text.ReplaceAllSkip | break_cats_temp.py:87 | a prefix in which no occurrence starts is copied unchanged |
| Text.ReplaceAllOnce | break_cats_temp.py:87 | a text holding the pattern exactly once gets exactly that occurrence replaced |
| Text.ReplaceAllAcross | break_cats_temp.py:87 | a pattern without a newline is replaced on each side of a newline separately |
| Text.ReplaceAllLines | break_cats_temp.py:77-87 | replacing a newline-free pattern in newline-joined lines is replacing it in each line |
| Text.ReplaceSeqLines | break_cats_temp.py:78-87 | a sequence of newline-free replacements acts on newline-joined lines one line at a time |
| Text.ReplaceSeqAbsent | break_cats_temp.py:78-87 | a text holding none of the patterns survives a sequence of replacements unchanged |
| Template.MatchBounds | break_cats_temp.py:47-48 | the scanned bounds are a `{{Cats\|` and a `}}` starting at or after its end |
| Template.MatchBoundsSpec | break_cats_temp.py:47-55 | the scans return the greedy pair (rightmost usable `{{Cats\|`, last `}}`), and return nothing exactly when the line holds no template |
| Template.GreedyUnique | break_cats_temp.py:47-48 | at most one pair of positions is the greedy match |
| Template.HasGreedyMatch | break_cats_temp.py:47-50 | a line with a template has a greedy match |
| Template.MatchBoundsGreedy | break_cats_temp.py:47-48 | the scans find exactly the greedy pair |
| Template.FindCats | break_cats_temp.py:47-52 | a result is at least `{{Cats\|}}` long, starts with `{{Cats\|` and ends with `}}` |
| Template.FindCatsSpec | break_cats_temp.py:47-55 | `find_cats` returns `None` exactly when the first line holds no `{{Cats\|` with a `}}` at or after its end; a result occurs in the input |
| Template.FindCatsGreedy | break_cats_temp.py:47-52 | the result is exactly the text from the greedy `{{Cats\|` to the end of the last `}}` |
| Template.MatchedText | break_cats_temp.py:47-52 | the text between a matched pair is a template text occurring in the input |
| Template.FindCatsNoNewline | break_cats_temp.py:47-52 | a result lies on one line |
| Template.MatchHasMarker | break_cats_temp.py:47-52 | every result contains `Cats` |
| Template.TemplateInLine | break_cats_temp.py:47-55 | a newline-free line containing a whole template text has a match of its own |
| Template.UnmatchedLacksTemplate | break_cats_temp.py:47-55 | a newline-free line without a match contains no template text |
| Template.GreedyAt | break_cats_temp.py:47-48 | a template whose argument run has no `{{Cats\|` and after which no `}` follows is the greedy pair |
| Template.GreedyOnLine | break_cats_temp.py:47-52 | on a newline-free line, such a template is what `find_cats` returns |
| Template.GreedyPick | break_cats_temp.py:47-52 | `find_cats(u + {{Cats\|a}} + v)` is `{{Cats\|a}}` when `v` has no `}` and `a` no `{{Cats\|` |
| Template.FindCatsWhole | break_cats_temp.py:47-52 | a line that is exactly one template is matched as a whole |
| Categories.Links | break_cats_temp.py:66-69 | built by appending one link per name: one `[[Category:<name>]]` per name, in the names' order, duplicates kept |
| Categories.KeepNames | break_cats_temp.py:66-69 | the kept segments are exactly the segments longer than one character |
| Categories.KeepNamesAppend | break_cats_temp.py:66-69 | keeping works segment by segment: order is kept and nothing is deduplicated |
| Categories.KeepNamesSingle | break_cats_temp.py:68-69 | a segment is kept exactly when it is longer than one character |
| Categories.Names | break_cats_temp.py:62-69 | every emitted name is longer than one character and holds no `\|` |
| Categories.GetCats | break_cats_temp.py:71 | the output is empty exactly when no name survives |
| Categories.LinkRoundTrip | break_cats_temp.py:69 | reading a link back gives the name it was made from |
| Categories.LinkInjective | break_cats_temp.py:69 | different names give different links |
| Categories.NamesOfTemplate | break_cats_temp.py:62-63 | the names of `{{name\|a1\|...\|an}}` are the kept arguments, for pipe- and brace-free parts |
| Categories.GetCatsOfInvocation | break_cats_temp.py:57-71 | `get_cats({{Cats\|a1\|...\|an}})` is the newline-join of the links of the kept arguments |
| Categories.NamesFree | break_cats_temp.py:62-63 | a character absent from the template text is absent from every name |
| Categories.GetCatsLines | break_cats_temp.py:71 | for a newline-free text with some name kept, the output split on newlines is the list of links |
| Categories.GetCatsNamesRecovered | break_cats_temp.py:69-71 | for a newline-free text with some name kept, reading back the output lines gives the names, in order |
| Categories.GetCatsTwoNames | break_cats_temp.py:57-71 | `{{Cats\|a\|b}}` gives `[[Category:a]]` and `[[Category:b]]` on two lines |
| Categories.GetCatsKeepsDuplicates | break_cats_temp.py:66-71 | a repeated name yields its link twice |
| Categories.GetCatsDropsShortName | break_cats_temp.py:68 | a name of at most one character is dropped |
| Categories.GetCatsNoName | break_cats_temp.py:66-71 | `{{Cats\|}}` and `{{Cats\|X}}` give the empty string |
| Categories.StripAroundArgument | break_cats_temp.py:62 | any number of braces around `Cats\|a` is stripped |
| Categories.GetCatsSingleArgument | break_cats_temp.py:62-71 | one argument behind any braces gives its single link |
| Categories.GetCatsStripsAllBraces | break_cats_temp.py:62 | `{{{Cats\|a}}}}` and the like give `[[Category:a]]`: all outer braces go, not two of each |
| Rewriter.PrefilterSound | break_cats_temp.py:81-82 | a line without `Cats` never has a match, so the prefilter skips no matching line |
| Rewriter.LineTemplate | break_cats_temp.py:81-84 | the prefiltered lookup gives the same template as `find_cats` alone |
| Rewriter.Step | break_cats_temp.py:81-88 | a line without a match changes nothing; a matching line adds one save and cuts the text at its template, joining with `get_cats` of it |
| Rewriter.StepReplacesEveryOccurrence | break_cats_temp.py:85-87 | cut at the template's occurrences, the text falls into template-free pieces that the old text joins with the template and the new one with its links |
| Rewriter.Templates | break_cats_temp.py:77-84 | at most one template per line, each at least `{{Cats\|}}` long and opening with `{{Cats\|`, and none exactly when no line matches |
| Rewriter.TemplatesAreTemplateText | break_cats_temp.py:77-84 | every collected template is newline-free, opens with `{{Cats\|` and closes with `}}` |
| Rewriter.RewriteLinesTwoPhase | break_cats_temp.py:77-88 | the loop equals collecting the templates from the original lines, then applying their replacements in order, one save each |
| Rewriter.Rewrite | break_cats_temp.py:73-88 | the saves are the number of matching original lines; the text is the original with those replacements applied in line order |
| Rewriter.ApplyAllUnmatched | break_cats_temp.py:78-87 | a newline-free line without a match survives every replacement |
| Rewriter.RewriteByLines | break_cats_temp.py:77-87 | the rewrite works line by line: the final text is the original lines, each with every replacement applied, joined by newlines; a line without a match comes out unchanged |
| Rewriter.RewriteSavesIff | break_cats_temp.py:77-88 | the page is saved exactly when some original line matches; an unsaved page is unchanged |
| Rewriter.NoMarkerUnchanged | break_cats_temp.py:81 | a page without `Cats` anywhere is unchanged and never saved |
| Rewriter.RewriteOneLine | break_cats_temp.py:77-88 | a one-line page with a match is that replacement, saved once |
| Rewriter.RewriteInline | break_cats_temp.py:77-88 | `u{{Cats\|a}}v` becomes `u` + links + `v` with one save, when `u` has no `{` and `v` no `}` |
| Rewriter.RewriteRepeatedTemplate | break_cats_temp.py:87 | a template written twice on one line is replaced in both places with a single save |
| Rewriter.RewriteWholeLine | break_cats_temp.py:77-88 | a page that is one template becomes its links |
| Rewriter.RewriteSwallowsFollowingTemplate | break_cats_temp.py:47-88 | `{{Cats\|a}} {{x}}` becomes the single link `[[Category:a}} {{x]]`: the greedy run swallows the following template |

## Left out

- `build_api_url` and `pages_from` (break_cats_temp.py:10-38) are left out: HTTP requests through `requests` and pywikibot's site configuration.
- `run` (break_cats_temp.py:90-108) is left out: its loop is driven by MediaWiki `allpages` responses, which the code does not contain.
- pywikibot `Site` and `Page` are not modelled. The page text is an argument of `Rewrite`, and each `page.save` is counted in `saves`, not performed.
- After each `page.save` (break_cats_temp.py:88) the model takes `page.text` to be exactly the text assigned at break_cats_temp.py:87. pywikibot's save path is not part of this model; if it re-reads the stored revision, which MediaWiki may normalise (trailing whitespace, for example), the next `replace` would work on that text instead.
- `str.replace` is modelled for a non-empty pattern only. Its only caller passes a template text, which is at least nine characters long.
- `str.split` is modelled for a non-empty separator only. The code splits on `\n` and `|`.
- General regular-expression semantics are left out. Only the one fixed pattern of `find_cats` is described.
- Rewriter.Rewrite: the final text of a page whose matching lines interact is stated through the applied sequence of replacements (`Rewrite`, `RewriteByLines`), not as a closed formula. A closed form is given for single-template shapes (`RewriteInline`, `RewriteRepeatedTemplate`, `RewriteWholeLine`, `RewriteSwallowsFollowingTemplate`).
