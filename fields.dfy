/**
 * The three field extractors of the parser: the year, the DOI and the
 * impact-factor note, each a hand-written matcher for the regular expression
 * the parser uses, with `re.search`'s leftmost-match rule.
 */
module Fields {
  import opened Wrappers
  import opened Text

  /** The year given to accepted or in-press papers that carry no year. */
  const AcceptedYear := 2025

  /** `\((\d{4})\)` matches at `i`. */
  predicate YearAt(s: string, i: nat)
  {
    && i + 6 <= |s|
    && s[i] == '(' && s[i + 5] == ')'
    && IsDigit(s[i + 1]) && IsDigit(s[i + 2]) && IsDigit(s[i + 3]) && IsDigit(s[i + 4])
  }

  /** `int()` of the four digits matched at `i`. */
  function YearValue(s: string, i: nat): (y: int)
    requires YearAt(s, i)
    ensures 0 <= y <= 9999
  {
    1000 * DigitValue(s[i + 1]) + 100 * DigitValue(s[i + 2])
      + 10 * DigitValue(s[i + 3]) + DigitValue(s[i + 4])
  }

  /** The year of the first `(dddd)` in `s`, if any. */
  function FirstYear(s: string): (r: Option<int>)
    ensures r.Some? ==> 0 <= r.value <= 9999
    ensures r.None? <==> forall i: nat :: !YearAt(s, i)
  {
    match FirstFrom(s, YearAt, 0)
    case None => None
    case Some(i) => Some(YearValue(s, i))
  }

  /** A `(dddd)` with none before it is the one `FirstYear` reads. */
  lemma FirstYearLeftmost(s: string, i: nat)
    requires YearAt(s, i) && forall j: nat :: j < i ==> !YearAt(s, j)
    ensures FirstYear(s) == Some(YearValue(s, i))
  {
    FirstFromLeftmost(s, YearAt, i);
  }

  /** The venue says the paper is accepted or in press (case-insensitively). */
  predicate Forthcoming(venue: string)
  {
    Contains(Lower(venue), "accepted") || Contains(Lower(venue), "in press")
  }

  /** The test ignores case: lowercasing the venue first does not change it. */
  lemma ForthcomingIgnoresCase(venue: string)
    ensures Forthcoming(Lower(venue)) == Forthcoming(venue)
  {
    LowerTwice(venue);
  }

  /**
   * The year rule: the first `(dddd)` of the cleaned venue, else the first of
   * the raw tail, else 0; a result of 0 becomes `AcceptedYear` when the venue
   * is forthcoming.
   */
  function Year(venue: string, tail: string): (y: int)
    ensures 0 <= y <= 9999
    ensures FirstYear(venue).Some? && FirstYear(venue).value != 0 ==> y == FirstYear(venue).value
    ensures FirstYear(venue).None? && FirstYear(tail).Some? && FirstYear(tail).value != 0
            ==> y == FirstYear(tail).value
    ensures FirstYear(venue) == Some(0) || (FirstYear(venue).None? && FirstYear(tail) in {None, Some(0)})
            ==> y == (if Forthcoming(venue) then AcceptedYear else 0)
    ensures y == 0 <==>
      && !Forthcoming(venue)
      && (FirstYear(venue) == Some(0) || (FirstYear(venue).None? && FirstYear(tail) in {None, Some(0)}))
  {
    var found :=
      match FirstYear(venue)
      case Some(v) => v
      case None => (match FirstYear(tail) case Some(v) => v case None => 0);
    if Forthcoming(venue) && found == 0 then AcceptedYear else found
  }

  /** Length of the run of non-whitespace characters at the start of `s` (`\S+`). */
  function TokenLen(s: string): (n: nat)
    ensures n <= |s|
    ensures forall k :: 0 <= k < n ==> !IsSpace(s[k])
    ensures n < |s| ==> IsSpace(s[n])
  {
    if s == [] || IsSpace(s[0]) then 0 else 1 + TokenLen(s[1..])
  }

  /** Where the `\s*`-skipped token after a marker ending at `i` begins. */
  function AfterSpaces(s: string, i: nat): (j: nat)
    requires i <= |s|
    ensures i <= j <= |s|
    ensures forall k :: i <= k < j ==> IsSpace(s[k])
    ensures j < |s| ==> !IsSpace(s[j])
  {
    i + TrimStart(s[i..])
  }

  /** `doi:\s*(\S+)` matches at `i`, ignoring case. */
  predicate DoiAt(s: string, i: nat)
  {
    && i + 4 <= |s|
    && Lower(s[i..i + 4]) == "doi:"
    && AfterSpaces(s, i + 4) < |s|
  }

  /** The `(\S+)` group of a DOI match at `i`. */
  function DoiToken(s: string, i: nat): (t: string)
    requires DoiAt(s, i)
    ensures t != [] && forall k :: 0 <= k < |t| ==> !IsSpace(t[k])
  {
    var j := AfterSpaces(s, i + 4);
    s[j..j + TokenLen(s[j..])]
  }

  /** `t.rstrip('}')`. */
  function StripClosingBraces(t: string): (r: string)
    ensures |r| <= |t| && r == t[..|r|]
    ensures forall k :: |r| <= k < |t| ==> t[k] == '}'
    ensures r == [] || r[|r| - 1] != '}'
  {
    if t != [] && t[|t| - 1] == '}' then StripClosingBraces(t[..|t| - 1]) else t
  }

  /**
   * The DOI: the first whitespace-free token after a case-insensitive `doi:`,
   * with every trailing `}` removed; empty when there is no such token.
   */
  function Doi(tail: string): (d: string)
    ensures forall k :: 0 <= k < |d| ==> !IsSpace(d[k])
    ensures d == [] || d[|d| - 1] != '}'
    ensures (forall i: nat :: !DoiAt(tail, i)) ==> d == []
  {
    match FirstFrom(tail, DoiAt, 0)
    case None => ""
    case Some(i) => StripClosingBraces(DoiToken(tail, i))
  }

  /** A DOI match at `i` with none before it gives the DOI: its token with the trailing braces removed. */
  lemma DoiLeftmost(tail: string, i: nat)
    requires DoiAt(tail, i) && forall j: nat :: j < i ==> !DoiAt(tail, j)
    ensures Doi(tail) == StripClosingBraces(DoiToken(tail, i))
  {
    FirstFromLeftmost(tail, DoiAt, i);
  }

  predicate IsNumberChar(c: char)
  {
    IsDigit(c) || c == '.'
  }

  /** Length of the run of `[\d\.]` at the start of `s`. */
  function NumberLen(s: string): (n: nat)
    ensures n <= |s|
    ensures forall k :: 0 <= k < n ==> IsNumberChar(s[k])
    ensures n < |s| ==> !IsNumberChar(s[n])
  {
    if s == [] || !IsNumberChar(s[0]) then 0 else 1 + NumberLen(s[1..])
  }

  /** `IF:\s*([\d\.]+)` matches at `i` (case-sensitive). */
  predicate ImpactAt(s: string, i: nat)
  {
    && StartsAt(s, i, "IF:")
    && AfterSpaces(s, i + 3) < |s|
    && IsNumberChar(s[AfterSpaces(s, i + 3)])
  }

  /** The `([\d\.]+)` group of an impact-factor match at `i`. */
  function ImpactValue(s: string, i: nat): (v: string)
    requires ImpactAt(s, i)
    ensures v != [] && forall k :: 0 <= k < |v| ==> IsNumberChar(v[k])
  {
    var j := AfterSpaces(s, i + 3);
    s[j..j + NumberLen(s[j..])]
  }

  /** The note: `"IF: "` and the number after the first `IF:`, or empty. */
  function ImpactNote(tail: string): (n: string)
    ensures n == [] <==> forall i: nat :: !ImpactAt(tail, i)
    ensures n != [] ==> |n| > 4 && n[..4] == "IF: " && forall k :: 4 <= k < |n| ==> IsNumberChar(n[k])
  {
    match FirstFrom(tail, ImpactAt, 0)
    case None => ""
    case Some(i) => "IF: " + ImpactValue(tail, i)
  }

  /** An impact-factor match at `i` with none before it gives the note: `"IF: "` and its number. */
  lemma ImpactLeftmost(tail: string, i: nat)
    requires ImpactAt(tail, i) && forall j: nat :: j < i ==> !ImpactAt(tail, j)
    ensures ImpactNote(tail) == "IF: " + ImpactValue(tail, i)
  {
    FirstFromLeftmost(tail, ImpactAt, i);
  }
}
