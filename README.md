# Publication list parser and clean-up pass, modelled in Dafny

This project models the two scripts that build the lab website's
publication list:

- `scripts/parse_latex_publications.py` reads a LaTeX bibliography. It cuts
  out the text between the first `\begin{enumerate}` and the first
  `\end{enumerate}`, removes unescaped `%` comments and splits the list at
  `\item`. It then walks the items with a two-state section machine
  (journal papers, then books and chapters). For each item it finds the
  publication macro (`\mypub`, `\mybpub`, `\newpub` or `\pub`), reads three
  brace arguments with a depth-counting scanner and cleans them with
  `clean_tex`. Finally it takes the year, the DOI and the impact-factor note
  from the cleaned venue and from the rest of the item.
- `scripts/clean_publications.py` works on the resulting records. It forces
  the year 2025 on the paper whose title contains a fixed fragment
  (case-insensitively) and counts the changes, drops the records whose year
  is 0, and sorts the rest by year, newest first.

Modules, one per concern:

| module | file | what it holds |
|---|---|---|
| `Wrappers` | wrappers.dfy | `Option` |
| `Records` | records.dfy | the publication record |
| `Text` | text.dfy | the Python string operations the scripts use: `find`, `in`, `replace`, `re.split` on a literal, `strip`, `lower`, a leftmost `re.search` |
| `TexClean` | tex_clean.dfy | `clean_tex`, one function per substitution |
| `Fields` | fields.dfy | hand-written matchers for the year, DOI and impact-factor regular expressions |
| `BraceScan` | brace_scan.dfy | the argument scanner as a `while` loop, the function it is proved against, and an independent reading of balanced brace groups |
| `LatexParser` | latex_parser.dfy | block slicing, comment removal, item splitting, the section machine, macro dispatch and the item loop as a method |
| `CleanPublications` | clean_publications.dfy | the clean-up pass: the in-place update loop, the year-0 filter and an in-place stable sort on an array |

The parser is written the way the script works. The item loop and the
brace scanner are methods with loop invariants. Each is proved equal to a
function: `ParseItems` to `Gather(Outcomes(...))`, and `ScanArgs` to
`ScanFrom`. The properties are then proved about those functions.
`clean_tex` is a pure chain of functions. The clean-up pass is a set of
methods on an array, each proved against a function. The update loop is
proved against `ForcedAll` and `UpdateCount`, and the insertion sort against
`SortDesc`. Filtering, ordering, stability and permutation are proved about
those functions.

Two behaviours of the code that a reader might not expect are modelled as written:

- The DOI loses every trailing `}` (`rstrip('}')`, line 167), not just one.
- `clean_tex` is not idempotent. On `^\*`, the superscript rule (line 201)
  runs before the backslash is removed (line 202). One pass therefore gives
  `^*`, and a second pass deletes it. `TexClean.CleanTexNotIdempotent`
  proves this. Only the fixed-point property on text that is already clean
  holds, and it is proved.

Three behaviours of the code are kept as written:

- An item that is blank after stripping is skipped by the `continue` at
  line 68. This comes before the state update at line 186, so a blank item
  that carried the books heading does not switch the section.
- A `}` at depth 0 makes the scanner's depth negative and is collected into
  the argument being built. `BraceScan.ScanFrom` keeps this behaviour.
  `BraceScan.GroupsAgree` proves agreement with the balanced-group reading
  only where that reading exists.
- A malformed item (fewer than three arguments) still moves the section
  state (line 120).

## Model

| member | source | states |
|---|---|---|
| Text.Find | scripts/parse_latex_publications.py:16-19 | `str.find`: the leftmost occurrence, and `None` exactly when the pattern occurs nowhere |
| Text.FindFrom | scripts/parse_latex_publications.py:16-17 | the leftmost occurrence at or after a start index; no occurrence before it; `None` exactly when there is none |
| Text.SplitOn | scripts/parse_latex_publications.py:29 | `re.split` on `\item`: at least one part, and no part contains the separator |
| Text.JoinSplit | scripts/parse_latex_publications.py:29 | joining the parts back with the separator gives the original text: the split loses nothing |
| Text.ReplaceAll | scripts/parse_latex_publications.py:57-60 | `replace`: every character of the result comes from the text or from the replacement |
| Text.ReplaceAllSkip | scripts/parse_latex_publications.py:196-198 | a prefix in which no occurrence starts passes through unchanged, and replacement goes on after it |
| Text.ReplaceFirst | scripts/parse_latex_publications.py:196-198 | the first occurrence is replaced and replacement goes on after it; the text before it is kept |
| Text.ReplaceAllAbsent | scripts/parse_latex_publications.py:57-60 | `replace` of a pattern that does not occur leaves the text unchanged |
| Text.Trim | scripts/parse_latex_publications.py:66 | `strip()`: a slice of the input with no whitespace at either end; empty exactly when the input is all whitespace; unchanged exactly when there is nothing to strip |
| Text.Lower | scripts/clean_publications.py:14 | `lower()`: same length, each character ASCII-folded |
| Text.LowerTwice | scripts/clean_publications.py:14 | lowercasing twice is lowercasing once |
| Text.FirstFrom | scripts/parse_latex_publications.py:84 | leftmost-match search: the index found matches and none before it does; `None` exactly when nothing matches |
| Text.FirstFromLeftmost | scripts/parse_latex_publications.py:84 | a match with none before it is exactly what the search finds |
| LatexParser.Slice | scripts/parse_latex_publications.py:23 | Python slicing `content[a:b]`: the slice when in range, empty when the end comes before the start |
| LatexParser.LineLen | scripts/parse_latex_publications.py:26 | `.*` runs to the first line break and no further |
| LatexParser.StripComments | scripts/parse_latex_publications.py:26 | every `%` left in the text directly follows a backslash (at the start only when a backslash came just before the text); the result is no longer than the input; text without `%` is unchanged |
| LatexParser.StripKeepsLineBreaks | scripts/parse_latex_publications.py:26 | no line break is removed: `.*` stops before it |
| LatexParser.StripSkip | scripts/parse_latex_publications.py:26 | a stretch without an unescaped `%` is kept as it is, and removal goes on after it |
| LatexParser.CommentLine | scripts/parse_latex_publications.py:26 | an unescaped `%` and the rest of its line are removed, and the line break after it is kept |
| LatexParser.CommentDropped | scripts/parse_latex_publications.py:26 | text before the first unescaped `%` is kept, the comment up to the end of its line is removed, and removal goes on after it |
| LatexParser.ListBlock | scripts/parse_latex_publications.py:16-26 | there is a list block exactly when both `\begin{enumerate}` and `\end{enumerate}` occur |
| LatexParser.Items | scripts/parse_latex_publications.py:29 | no raw item contains `\item` |
| LatexParser.PrepareShape | scripts/parse_latex_publications.py:55-66 | an item is flagged as carrying the heading exactly when it contains `Books \& Chapters`; other items are only stripped; no prepared item has a blank at either end |
| LatexParser.PrepareItem | scripts/parse_latex_publications.py:55-66 | the loop's replace-and-strip steps give exactly `Prepare` |
| LatexParser.MacroAt | scripts/parse_latex_publications.py:84 | the alternative found is spelled at the index; `None` exactly when no macro is spelled there |
| LatexParser.ItemHead | scripts/parse_latex_publications.py:80-93 | without any macro, scanning starts at 0; otherwise it starts just past the macro's name |
| LatexParser.ItemHeadLeftmost | scripts/parse_latex_publications.py:84-90 | the macro used is the leftmost match, chosen in the alternation's order, and scanning starts right after it |
| LatexParser.RecordFields | scripts/parse_latex_publications.py:124-145 | `\newpub` takes the authors from the first argument and the title from the second; the other macros the reverse; the venue always from the third |
| LatexParser.RecordExtras | scripts/parse_latex_publications.py:136-173 | the year comes from the cleaned venue and the tail, and the DOI and note from the tail |
| LatexParser.RecordShape | scripts/parse_latex_publications.py:139-183 | every record carries the section it is given; its year is in 0..9999; title, authors and venue are tidy; the DOI has no whitespace and no trailing `}`; the note is empty or starts `IF: ` |
| LatexParser.ParseItem | scripts/parse_latex_publications.py:118-121 | an item yields no record exactly when fewer than three arguments close |
| LatexParser.ParseItemText | scripts/parse_latex_publications.py:80-136 | macro lookup, scanning loop and record building give exactly `ParseItem` |
| LatexParser.ParseItemShape | scripts/parse_latex_publications.py:175-183 | a record from an item carries the item's section and satisfies the field invariants |
| LatexParser.ItemArguments | scripts/parse_latex_publications.py:95-136 | when the item has three balanced brace groups after its macro, the record is built from exactly those groups and the text after the third |
| LatexParser.ParseItem1 | scripts/parse_latex_publications.py:53-68 | one pass of the loop body: a blank item gives nothing and keeps the section; any other item gives its outcome, and the section turns to books after an item with the heading |
| LatexParser.ParseItems | scripts/parse_latex_publications.py:50-188 | the item loop returns the records of the items' outcomes, in file order, each in its item's section |
| LatexParser.Gather | scripts/parse_latex_publications.py:175-183 | at most one record per item |
| LatexParser.ParseLatexPublications | scripts/parse_latex_publications.py:16-29 | the parser returns `Publications(content)`, which is empty when either list marker is missing |
| LatexParser.KindAfter | scripts/parse_latex_publications.py:55-63 | one state update: books stays books |
| LatexParser.KindAtBook | scripts/parse_latex_publications.py:50-63 | an item is in the books section exactly when an earlier non-blank item carried the heading; the item with the heading keeps the section before it |
| LatexParser.KindAtStaysBook | scripts/parse_latex_publications.py:61-63 | once the section is books it never returns to journals |
| LatexParser.GatherKinds | scripts/parse_latex_publications.py:175-186 | records gathered from items in section order come out with every book after every journal paper |
| LatexParser.GatherWellFormed | scripts/parse_latex_publications.py:175-183 | every gathered record satisfies the field invariants |
| LatexParser.PublicationsShape | scripts/parse_latex_publications.py:50-188 | the parser's output lists all journal papers before all books, and every record satisfies the field invariants |
| BraceScan.ScanFrom | scripts/parse_latex_publications.py:95-116 | at most three arguments; the scan stops within the item |
| BraceScan.ScanShape | scripts/parse_latex_publications.py:95-116 | arguments are only added; with fewer than three the scan reaches the end; with three it stops just after the `}` closing the third |
| BraceScan.ScanArgs | scripts/parse_latex_publications.py:73-116 | the scanning loop computes `ScanFrom` and so has the same bounds and stopping point |
| BraceScan.CloseFrom | scripts/parse_latex_publications.py:98-112 | the index found holds the `}` that closes the group |
| BraceScan.InsideGroup | scripts/parse_latex_publications.py:98-114 | inside a group the scanner collects everything, nested braces included, up to the matching `}`, or runs to the end when there is none |
| BraceScan.OpenGroupUnclosed | scripts/parse_latex_publications.py:98-103 | a group that never closes adds no argument and ends the scan |
| BraceScan.OpenGroupClosed | scripts/parse_latex_publications.py:98-110 | a closed group adds its trimmed interior as the next argument, and the scan goes on after its `}` |
| BraceScan.GroupsAgree | scripts/parse_latex_publications.py:95-116 | where the text has a balanced-group reading, the scanner returns the trimmed interiors of the first three top-level groups, ignoring text between groups |
| BraceScan.ThreeGroups | scripts/parse_latex_publications.py:95-118 | three balanced groups are exactly the scanner's three arguments, and the tail starts after the third |
| Fields.YearValue | scripts/parse_latex_publications.py:150 | four digits give a year in 0..9999 |
| Fields.FirstYear | scripts/parse_latex_publications.py:148 | a year in 0..9999; `None` exactly when there is no `(dddd)` |
| Fields.FirstYearLeftmost | scripts/parse_latex_publications.py:148-150 | a `(dddd)` with none before it is the one whose year is read |
| Fields.Year | scripts/parse_latex_publications.py:146-160 | a non-zero year of the venue's first `(dddd)` is the year; without one in the venue, a non-zero year of the tail's first `(dddd)` is; when the year found is 0 (a `(0000)`, or no `(dddd)` at all) it becomes 2025 for an accepted or in-press venue and stays 0 otherwise; the year is in 0..9999 and is 0 exactly in that last case |
| Fields.ForthcomingIgnoresCase | scripts/parse_latex_publications.py:158 | the accepted/in-press test ignores case: lowercasing the venue first does not change it |
| Fields.TokenLen | scripts/parse_latex_publications.py:165 | `\S+`: the longest whitespace-free prefix |
| Fields.AfterSpaces | scripts/parse_latex_publications.py:165 | `\s*`: skips exactly the whitespace run |
| Fields.DoiToken | scripts/parse_latex_publications.py:165 | the matched DOI token is non-empty and has no whitespace |
| Fields.StripClosingBraces | scripts/parse_latex_publications.py:167 | `rstrip('}')`: a prefix of the token; only `}` removed; no `}` left at the end |
| Fields.Doi | scripts/parse_latex_publications.py:164-167 | the DOI has no whitespace and no trailing `}`, and is empty when there is no `doi:` match |
| Fields.DoiLeftmost | scripts/parse_latex_publications.py:165-167 | the DOI is the first match's token with its trailing braces removed |
| Fields.NumberLen | scripts/parse_latex_publications.py:171 | `[\d\.]+`: the longest run of digits and dots |
| Fields.ImpactValue | scripts/parse_latex_publications.py:171 | the matched number is non-empty and made of digits and dots |
| Fields.ImpactNote | scripts/parse_latex_publications.py:170-173 | the note is empty exactly when there is no `IF:` match, and otherwise is `IF: ` followed by digits and dots |
| Fields.ImpactLeftmost | scripts/parse_latex_publications.py:171-173 | the note is `IF: ` and the number of the first match |
| TexClean.DropStyle | scripts/parse_latex_publications.py:192-194 | text that cannot hold the macro is unchanged |
| TexClean.DropStyleAbsent | scripts/parse_latex_publications.py:192-194 | text lacking any one letter of the macro is unchanged |
| TexClean.DropStyleSkip | scripts/parse_latex_publications.py:192-194 | a prefix in which no match starts is kept, and removal goes on after it |
| TexClean.DropStyleMatch | scripts/parse_latex_publications.py:192-193 | a match, the macro with the whole whitespace run after it, is removed |
| TexClean.DropStyleRemoves | scripts/parse_latex_publications.py:192-193 | the first match is removed together with its whitespace run; the text before it is kept |
| TexClean.DropStyles | scripts/parse_latex_publications.py:192-194 | text without a backslash is unchanged by the style rules |
| TexClean.DropStylesAbsent | scripts/parse_latex_publications.py:192-194 | text without `b`, `i` or `t` cannot contain a style macro |
| TexClean.Daggers | scripts/parse_latex_publications.py:196-198 | text without a backslash is unchanged by the dagger rules |
| TexClean.DropCharsAppend | scripts/parse_latex_publications.py:199 | removing a character class works piecewise: every other character is kept, in order |
| TexClean.DropCharsOne | scripts/parse_latex_publications.py:199 | a single character is removed exactly when it is in the class |
| TexClean.DropChars | scripts/parse_latex_publications.py:199 | no character of the class is left; nothing is added; text without them is unchanged |
| TexClean.SupLen | scripts/parse_latex_publications.py:201 | there is a match exactly when `^` is followed by `*` or a digit; after `*` it is two characters long; after a digit it takes every digit that follows (greedy `\d+`) |
| TexClean.MathSupLen | scripts/parse_latex_publications.py:200 | a non-zero length is a match: `$`, a full superscript match, `$`; zero exactly when no length is a match |
| TexClean.MathSupMatchLen | scripts/parse_latex_publications.py:200 | any match's superscript is exactly the one `SupLen` finds, so the match length is unique |
| TexClean.SupLenExtend | scripts/parse_latex_publications.py:200-201 | a superscript match is not changed by what follows it, unless that is another digit |
| TexClean.DropMathSupsSkip | scripts/parse_latex_publications.py:200 | a prefix where no match can start is kept, and removal goes on after it |
| TexClean.DropMathSupsMatch | scripts/parse_latex_publications.py:200 | a `$`-enclosed superscript is removed |
| TexClean.DropMathSupsRemoves | scripts/parse_latex_publications.py:200 | the first `$`-enclosed superscript is removed; the text before it is kept |
| TexClean.DropMathSups | scripts/parse_latex_publications.py:200 | nothing is added; text without superscript markers is unchanged |
| TexClean.SupMarkerLen | scripts/parse_latex_publications.py:201 | `^*`, or `^` and digits not followed by another digit, is matched whole |
| TexClean.DropSupsSkip | scripts/parse_latex_publications.py:201 | a prefix where no match can start is kept, and removal goes on after it |
| TexClean.DropSupsMatch | scripts/parse_latex_publications.py:201 | a whole superscript marker is removed |
| TexClean.DropSupsRemoves | scripts/parse_latex_publications.py:201 | the first superscript marker is removed; the text before it is kept |
| TexClean.DropSups | scripts/parse_latex_publications.py:201 | nothing is added; text without superscript markers is unchanged |
| TexClean.DropMarkup | scripts/parse_latex_publications.py:199-202 | no brace or backslash survives; text free of them and of markers is unchanged |
| TexClean.CollapseSpace | scripts/parse_latex_publications.py:203 | whitespace runs become single plain spaces; no new characters other than spaces; single-spaced text is unchanged |
| TexClean.NonSpace | scripts/parse_latex_publications.py:203-204 | the non-whitespace characters of a text, in order |
| TexClean.NonSpaceAppend | scripts/parse_latex_publications.py:203-204 | taking the non-whitespace characters works piecewise |
| TexClean.CollapseRun | scripts/parse_latex_publications.py:203 | a whitespace run becomes one space |
| TexClean.CollapseKeepsNonSpace | scripts/parse_latex_publications.py:203 | collapsing whitespace keeps every other character, in order |
| TexClean.TrimKeepsNonSpace | scripts/parse_latex_publications.py:204 | `strip()` keeps every non-whitespace character, in order |
| TexClean.TrimTidy | scripts/parse_latex_publications.py:203-204 | stripping single-spaced text without braces or backslashes leaves it tidy |
| TexClean.Normalize | scripts/parse_latex_publications.py:203-204 | the result is tidy; already-normal text is unchanged |
| TexClean.CleanTex | scripts/parse_latex_publications.py:190-204 | the output has no brace or backslash, no whitespace at either end, only single plain spaces |
| TexClean.NormalizeKeepsNonSpace | scripts/parse_latex_publications.py:203-204 | whitespace normalisation keeps every non-whitespace character, in order |
| TexClean.CleanTexWords | scripts/parse_latex_publications.py:190-204 | on text without backslashes or carets, cleaning keeps every character other than braces and whitespace, in order |
| TexClean.CleanTexKeepsCleanText | scripts/parse_latex_publications.py:190-204 | text with no TeX syntax, no superscript marker and normal spacing is returned unchanged |
| TexClean.MathDagger | scripts/parse_latex_publications.py:196 | `$^\dagger$` becomes `†` |
| TexClean.CaretDagger | scripts/parse_latex_publications.py:197 | `^\dagger` becomes `†` |
| TexClean.BareDagger | scripts/parse_latex_publications.py:198 | `\dagger` becomes `†` |
| TexClean.MathDaggerIn | scripts/parse_latex_publications.py:196-198 | `$^\dagger$` inside text without other backslashes becomes `†`, and the text around it is kept |
| TexClean.CaretDaggerIn | scripts/parse_latex_publications.py:196-198 | `^\dagger` not after `$`, inside text without other backslashes, becomes `†`, and the text around it is kept |
| TexClean.BareDaggerIn | scripts/parse_latex_publications.py:196-198 | `\dagger` not after `^`, inside text without other backslashes, becomes `†`, and the text around it is kept |
| TexClean.DaggerSpellings | scripts/parse_latex_publications.py:196-198 | each of the three dagger spellings becomes a single `†` |
| TexClean.FirstPass | scripts/parse_latex_publications.py:200-202 | `^\*` comes out as `^*` |
| TexClean.SecondPass | scripts/parse_latex_publications.py:200-202 | `^*` comes out empty |
| TexClean.CleanTexNotIdempotent | scripts/parse_latex_publications.py:200-202 | cleaning twice differs from cleaning once on `^\*` |
| CleanPublications.Forced | scripts/clean_publications.py:14-17 | a matching record gets year 2025; nothing else about it changes; it is left as it was exactly when it does not need an update |
| CleanPublications.ForcedAll | scripts/clean_publications.py:13-17 | every record is updated on its own, in place |
| CleanPublications.ForceAt | scripts/clean_publications.py:14-18 | the loop body updates one record and reports whether it changed it; the other records are untouched |
| CleanPublications.ForceYear | scripts/clean_publications.py:12-18 | the update loop leaves `ForcedAll` of the input in the array and counts exactly the records it changed |
| CleanPublications.UpdateCount | scripts/clean_publications.py:13-18 | at most one per record; zero exactly when no record needs the update |
| CleanPublications.UpdateCountStep | scripts/clean_publications.py:15-18 | the count grows by one exactly for a record that needs the update |
| CleanPublications.UpdateCountZero | scripts/clean_publications.py:20-21 | the count is zero exactly when the update loop changes nothing |
| CleanPublications.Keep | scripts/clean_publications.py:24 | one record is kept exactly when it passes the test |
| CleanPublications.Filter | scripts/clean_publications.py:24 | the comprehension keeps only records passing the test, never more than it was given |
| CleanPublications.DropUnknownYear | scripts/clean_publications.py:24 | every kept record has a non-zero year; never more records than given (every record of a non-zero year is kept: `YearOfKept`) |
| CleanPublications.FilterMembers | scripts/clean_publications.py:24 | a record is kept exactly when it is in the input and passes |
| CleanPublications.FilterAppend | scripts/clean_publications.py:24 | filtering keeps the input order: filtering a concatenation concatenates the filtered parts |
| CleanPublications.FilterCount | scripts/clean_publications.py:24 | kept and dropped records add up to the input |
| CleanPublications.Insert | scripts/clean_publications.py:27 | one insertion step adds one record (its content, order and stability: the three lemmas below) |
| CleanPublications.InsertPermutes | scripts/clean_publications.py:27 | an insertion step adds exactly one record |
| CleanPublications.InsertSorted | scripts/clean_publications.py:27 | an insertion step keeps the sequence sorted newest first |
| CleanPublications.InsertStable | scripts/clean_publications.py:27 | an insertion step keeps the order within each year and puts the new record last among its year |
| CleanPublications.SortDesc | scripts/clean_publications.py:27 | the sort keeps the number of records (its order, content and stability: the three lemmas below) |
| CleanPublications.SortDescSorted | scripts/clean_publications.py:27 | the sort's output is non-increasing in year |
| CleanPublications.SortDescPermutes | scripts/clean_publications.py:27 | the sort's output is a permutation of its input |
| CleanPublications.SortDescStable | scripts/clean_publications.py:27 | the sort is stable: records of the same year keep their input order |
| CleanPublications.InsertShift | scripts/clean_publications.py:27 | moving past an older record is one step of the insertion |
| CleanPublications.InsertStop | scripts/clean_publications.py:27 | the insertion stops after the last record at least as new |
| CleanPublications.InsertAt | scripts/clean_publications.py:27 | the in-place step inserts the next record into the sorted prefix and leaves the rest of the array alone |
| CleanPublications.SortByYearDesc | scripts/clean_publications.py:27 | the in-place sort leaves exactly `SortDesc` of the input in the array |
| CleanPublications.CleanedRecords | scripts/clean_publications.py:13-24 | no record with year 0 survives, and every surviving matching record has year 2025 |
| CleanPublications.MatchSurvives | scripts/clean_publications.py:13-24 | a matching record survives with year 2025, even when its year was 0 |
| CleanPublications.YearOfKept | scripts/clean_publications.py:24 | dropping year-0 records keeps every record of any other year, in order |
| CleanPublications.CleanedShape | scripts/clean_publications.py:13-27 | the output is sorted newest first, is a permutation of the updated records with a year, and keeps the input order within each year |
| CleanPublications.RemovedCount | scripts/clean_publications.py:29-30 | the removed count is the number of updated records with year 0 |
| CleanPublications.CleanUp | scripts/clean_publications.py:11-30 | the whole pass: records updated in place, the count of updates, the cleaned and sorted output, and the removed count, which equals the number of year-0 records |

## Left out

- File input and output: `open`, `read`, `json.load`, `json.dump` and the
  file overwrite. The parser takes the file's contents as a string, and the
  clean-up pass takes and returns arrays of records.
- Console output: every `print`, including the "Skipping malformed item"
  and "Target paper not found" messages. `CleanPublications.UpdateCountZero`
  states the condition for the warning.
- The `__main__` block of `scripts/parse_latex_publications.py`
  (lines 206-218), which only wires the parser to the two files.
- `scripts/scrape_hchuang.py` is not part of this model. It consists of
  HTTP requests and HTML tree walking.
- Unicode character classes: `\d`, `lower()` and the case folding of
  `re.IGNORECASE` (the `doi:` match, line 165) are modelled on ASCII only.
  Whitespace (`\s`, `strip()`) is the full `str.isspace` set.
- The regular-expression engine itself. Each pattern the scripts use is a
  hand-written leftmost matcher over the string.
- JSON typing in the clean-up pass. Records have the parser's seven fields
  and an integer year; records with other keys or a non-integer year are not
  modelled.
- CleanPublications.SortByYearDesc: Python's `list.sort` is Timsort; the
  model uses a stable insertion sort. Any stable sort by year gives the same
  list, and `SortDescSorted`, `SortDescPermutes` and `SortDescStable` pin
  that list down.
- CleanPublications.CleanUp: the year-0 comprehension (line 24) builds a new
  list, so the pass returns a fresh array rather than rebinding a name.
- `clean_tex` in general is not idempotent, so no idempotence property is
  stated beyond `TexClean.CleanTexKeepsCleanText`.
- TexClean.DropStyle: its own contract states only when the text is
  unchanged; what a style rule removes and what it keeps is stated by
  `DropStyleSkip`, `DropStyleMatch` and `DropStyleRemoves`.
- TexClean.DropChars: its own contract states what is removed and that
  nothing is added; that every other character is kept, in order, is
  stated by `DropCharsAppend` with `DropCharsOne`.
- TexClean.DropStyles: its own contract states only that text without a
  backslash is unchanged; each of its three rules is `DropStyle`, whose
  lemmas state what is removed and kept.
- TexClean.Daggers: its own contract states only that text without a
  backslash is unchanged; `MathDaggerIn`, `CaretDaggerIn` and
  `BareDaggerIn` state the replacement of one dagger in context.
- TexClean.DropMathSups: its own contract states only that nothing is added
  and marker-free text is unchanged; `DropMathSupsSkip`,
  `DropMathSupsMatch` and `DropMathSupsRemoves` state what is removed and
  what kept.
- TexClean.DropSups: its own contract states only that nothing is added and
  marker-free text is unchanged; `DropSupsSkip`, `DropSupsMatch` and
  `DropSupsRemoves` state what is removed and what kept.
- TexClean.DropMarkup: its own contract states the shape of the result;
  that the rules keep every other character is stated rule by rule
  (`DropCharsAppend` and the superscript lemmas).
- TexClean.CollapseSpace: its own contract states the shape of the result;
  `CollapseKeepsNonSpace` and `CollapseRun` state what it keeps and what a
  whitespace run becomes.
- TexClean.Normalize: its own contract states the shape of the result;
  `NormalizeKeepsNonSpace` states that every non-whitespace character is
  kept, in order.
- TexClean.CleanTex: its own contract states the shape of the result; that
  every other character is kept, in order, is stated by `CleanTexWords`, on
  text without backslashes or carets only.
