/**
 * String primitives the scripts take from Python: character classes, `str.find`,
 * `in`, `str.replace`, `re.split` on a literal separator, `str.strip` and
 * `str.lower`, each written out over `seq<char>`.
 */
module Text {
  import opened Wrappers

  /** Python's `str.isspace` (also what `\s` and `str.strip()` use). */
  predicate IsSpace(c: char)
  {
    || c == ' ' || c == '\t' || c == '\n' || c == '\r'
    || c == '\U{B}' || c == '\U{C}'
    || ('\U{1C}' <= c <= '\U{1F}')
    || c == '\U{85}' || c == '\U{A0}' || c == '\U{1680}'
    || ('\U{2000}' <= c <= '\U{200A}')
    || c == '\U{2028}' || c == '\U{2029}' || c == '\U{202F}' || c == '\U{205F}' || c == '\U{3000}'
  }

  /** An ASCII decimal digit (`\d` restricted to ASCII). */
  predicate IsDigit(c: char)
  {
    '0' <= c <= '9'
  }

  function DigitValue(c: char): (d: nat)
    requires IsDigit(c)
    ensures d <= 9
  {
    c as int - '0' as int
  }

  /** ASCII case folding, as `str.lower` does on ASCII letters. */
  function LowerChar(c: char): (r: char)
    ensures 'A' <= c <= 'Z' ==> 'a' <= r <= 'z' && r as int == c as int + 32
    ensures !('A' <= c <= 'Z') ==> r == c
  {
    if 'A' <= c <= 'Z' then (c as int - 'A' as int + 'a' as int) as char else c
  }

  function Lower(s: string): (r: string)
    ensures |r| == |s|
    ensures forall i :: 0 <= i < |s| ==> r[i] == LowerChar(s[i])
  {
    seq(|s|, i requires 0 <= i < |s| => LowerChar(s[i]))
  }

  /** Lowercasing twice is lowercasing once. */
  lemma LowerTwice(s: string)
    ensures Lower(Lower(s)) == Lower(s)
  {
    assert forall i :: 0 <= i < |s| ==> Lower(Lower(s))[i] == Lower(s)[i];
  }

  /** `pat` occurs in `s` at index `i`. */
  predicate StartsAt(s: string, i: nat, pat: string)
  {
    i + |pat| <= |s| && s[i..i + |pat|] == pat
  }

  lemma StartsAtTail(s: string, i: nat, pat: string)
    requires |s| > 0
    ensures StartsAt(s[1..], i, pat) <==> StartsAt(s, i + 1, pat)
  {
    if i + |pat| <= |s| - 1 {
      assert s[1..][i..i + |pat|] == s[i + 1..i + 1 + |pat|];
    }
  }

  lemma StartsAtPrefix(s: string, n: nat, i: nat, pat: string)
    requires n <= |s|
    requires StartsAt(s[..n], i, pat)
    ensures StartsAt(s, i, pat)
  {
    assert s[..n][i..i + |pat|] == s[i..i + |pat|];
  }

  /** The leftmost occurrence of `pat` at or after `i` (`str.find` with a start). */
  function FindFrom(s: string, pat: string, i: nat): (r: Option<nat>)
    decreases |s| - i
    ensures r.Some? ==> i <= r.value && StartsAt(s, r.value, pat)
    ensures r.Some? ==> forall j :: i <= j < r.value ==> !StartsAt(s, j, pat)
    ensures r.None? <==> forall j :: i <= j ==> !StartsAt(s, j, pat)
  {
    if i + |pat| > |s| then None
    else if StartsAt(s, i, pat) then Some(i)
    else FindFrom(s, pat, i + 1)
  }

  /** `str.find`, with `None` for Python's -1. */
  function Find(s: string, pat: string): (r: Option<nat>)
    ensures r.Some? ==> StartsAt(s, r.value, pat) && forall j: nat :: j < r.value ==> !StartsAt(s, j, pat)
    ensures r.None? <==> forall j: nat :: !StartsAt(s, j, pat)
  {
    FindFrom(s, pat, 0)
  }

  /** Python's `pat in s`. */
  predicate Contains(s: string, pat: string)
  {
    Find(s, pat).Some?
  }

  lemma NotContainsChar(s: string, pat: string, k: nat)
    requires k < |pat| && pat[k] !in s
    ensures !Contains(s, pat)
  {
    forall j: nat | StartsAt(s, j, pat)
      ensures false
    {
    }
  }

  /** `s.replace(pat, rep)`: leftmost, non-overlapping, left to right. */
  function ReplaceAll(s: string, pat: string, rep: string): (r: string)
    requires |pat| > 0
    decreases |s|
    ensures forall c :: c in r ==> c in s || c in rep
  {
    if |s| < |pat| then s
    else if s[..|pat|] == pat then rep + ReplaceAll(s[|pat|..], pat, rep)
    else [s[0]] + ReplaceAll(s[1..], pat, rep)
  }

  /** Replacing a pattern that never occurs changes nothing. */
  lemma {:induction false} ReplaceAllAbsent(s: string, pat: string, rep: string)
    requires |pat| > 0 && !Contains(s, pat)
    ensures ReplaceAll(s, pat, rep) == s
  {
    if |s| >= |pat| {
      assert !StartsAt(s, 0, pat);
      forall j: nat ensures !StartsAt(s[1..], j, pat) {
        StartsAtTail(s, j, pat);
      }
      ReplaceAllAbsent(s[1..], pat, rep);
    }
  }

  /** Text before the first occurrence is copied as it is. */
  lemma {:induction false} ReplaceAllSkip(x: string, z: string, pat: string, rep: string)
    requires |pat| > 0
    requires forall j :: 0 <= j < |x| ==> !StartsAt(x + z, j, pat)
    ensures ReplaceAll(x + z, pat, rep) == x + ReplaceAll(z, pat, rep)
    decreases |x|
  {
    var s := x + z;
    if x == [] {
      assert s == z;
    } else if |s| < |pat| {
      ReplaceAllShort(z, pat, rep);
    } else {
      assert !StartsAt(s, 0, pat);
      assert s[1..] == x[1..] + z;
      forall j | 0 <= j < |x[1..]| ensures !StartsAt(x[1..] + z, j, pat) {
        StartsAtTail(s, j, pat);
      }
      ReplaceAllSkip(x[1..], z, pat, rep);
      assert ReplaceAll(s, pat, rep) == [s[0]] + ReplaceAll(s[1..], pat, rep);
      assert x == [x[0]] + x[1..];
    }
  }

  lemma ReplaceAllShort(z: string, pat: string, rep: string)
    requires 0 < |pat| && |z| < |pat|
    ensures ReplaceAll(z, pat, rep) == z
  {
  }

  /**
   * `replace` on text whose first occurrence of the pattern is right after
   * `x`: `x` is kept, that occurrence becomes the replacement, and the rest
   * is replaced in turn.
   */
  lemma ReplaceFirst(x: string, y: string, pat: string, rep: string)
    requires |pat| > 0
    requires forall j :: 0 <= j < |x| ==> !StartsAt(x + pat + y, j, pat)
    ensures ReplaceAll(x + pat + y, pat, rep) == x + rep + ReplaceAll(y, pat, rep)
  {
    assert x + pat + y == x + (pat + y);
    ReplaceAllSkip(x, pat + y, pat, rep);
    assert (pat + y)[..|pat|] == pat && (pat + y)[|pat|..] == y;
  }

  /** A pattern holding a character that occurs at most once in the text can only match where it covers that occurrence. */
  lemma OnlyMatchAt(s: string, pat: string, p: nat, b: nat)
    requires p < |pat| && b < |s| && s[b] == pat[p]
    requires forall k :: 0 <= k < |s| && s[k] == pat[p] ==> k == b
    ensures forall j: nat :: StartsAt(s, j, pat) ==> j + p == b && s[j] == pat[0]
  {
    forall j: nat | StartsAt(s, j, pat) ensures j + p == b && s[j] == pat[0] {
      assert s[j..j + |pat|][p] == s[j + p];
      assert s[j..j + |pat|][0] == s[j];
    }
  }

  /** The head and tail of a concatenation with a non-empty front. */
  lemma AppendTail<T>(x: seq<T>, z: seq<T>)
    requires x != []
    ensures (x + z)[0] == x[0] && (x + z)[1..] == x[1..] + z
  {
  }

  /** Putting the head back on the front of a concatenation. */
  lemma ConsAppend<T>(x: seq<T>, r: seq<T>)
    requires x != []
    ensures [x[0]] + (x[1..] + r) == x + r
  {
    assert x == [x[0]] + x[1..];
  }

  lemma Regroup<T>(x: seq<T>, a: seq<T>, b: seq<T>, c: seq<T>)
    ensures x + a + b + c == x + (a + b + c)
  {
  }

  /** A sequence is its three slices around `i` and `j` put together. */
  lemma ThreeSlices<T>(s: seq<T>, i: nat, j: nat)
    requires i <= j <= |s|
    ensures s == s[..i] + s[i..j] + s[j..]
  {
  }

  /**
   * A pattern whose anchor character occurs only once in the text, at `b`,
   * does not occur when the text disagrees with it at an earlier position `i`.
   */
  lemma NoMatchAnywhere(s: string, pat: string, p: nat, b: nat, i: nat)
    requires p < |pat| && b < |s| && s[b] == pat[p]
    requires forall k :: 0 <= k < |s| && s[k] == pat[p] ==> k == b
    requires i < p && (b < p || s[b - p + i] != pat[i])
    ensures !Contains(s, pat)
  {
    OnlyMatchAt(s, pat, p, b);
    assert forall j: nat :: StartsAt(s, j, pat) ==> s[j..j + |pat|][i] == s[j + i];
  }

  /** `re.split` on a literal, non-empty separator. */
  function SplitOn(s: string, sep: string): (parts: seq<string>)
    requires |sep| > 0
    decreases |s|
    ensures |parts| >= 1
    ensures forall k :: 0 <= k < |parts| ==> !Contains(parts[k], sep)
  {
    match Find(s, sep)
    case None => [s]
    case Some(i) =>
      var head := s[..i];
      assert !Contains(head, sep) by {
        forall j: nat | StartsAt(head, j, sep) ensures false {
          StartsAtPrefix(s, i, j, sep);
        }
      }
      [head] + SplitOn(s[i + |sep|..], sep)
  }

  /** The inverse of `SplitOn`: `sep.join(parts)`. */
  function Join(parts: seq<string>, sep: string): string
    requires |parts| >= 1
  {
    if |parts| == 1 then parts[0] else parts[0] + sep + Join(parts[1..], sep)
  }

  /** Splitting and joining back with the same separator loses nothing. */
  lemma {:induction false} JoinSplit(s: string, sep: string)
    requires |sep| > 0
    ensures Join(SplitOn(s, sep), sep) == s
  {
    match Find(s, sep)
    case None =>
    case Some(i) =>
      var head, tail := s[..i], s[i + |sep|..];
      var rest := SplitOn(tail, sep);
      assert SplitOn(s, sep) == [head] + rest;
      assert Join([head] + rest, sep) == head + sep + Join(rest, sep) by {
        assert ([head] + rest)[1..] == rest;
      }
      JoinSplit(tail, sep);
      assert s == head + sep + tail by {
        ThreeSlices(s, i, i + |sep|);
      }
  }

  /** Length of the run of whitespace at the start of `s`. */
  function TrimStart(s: string): (a: nat)
    ensures a <= |s|
    ensures forall k :: 0 <= k < a ==> IsSpace(s[k])
    ensures a < |s| ==> !IsSpace(s[a])
  {
    if s == [] || !IsSpace(s[0]) then 0 else 1 + TrimStart(s[1..])
  }

  /** Index where the run of whitespace at the end of `s` begins. */
  function TrimEnd(s: string): (e: nat)
    ensures e <= |s|
    ensures forall k :: e <= k < |s| ==> IsSpace(s[k])
    ensures e > 0 ==> !IsSpace(s[e - 1])
  {
    if s == [] || !IsSpace(s[|s| - 1]) then |s| else TrimEnd(s[..|s| - 1])
  }

  /** `s.strip()`. */
  function Trim(s: string): (r: string)
    ensures TrimStart(s) + |r| <= |s|
    ensures r == s[TrimStart(s)..TrimStart(s) + |r|]
    ensures r == [] <==> forall k :: 0 <= k < |s| ==> IsSpace(s[k])
    ensures r != [] ==> !IsSpace(r[0]) && !IsSpace(r[|r| - 1])
    ensures r == s <==> (s == [] || (!IsSpace(s[0]) && !IsSpace(s[|s| - 1])))
  {
    var a := TrimStart(s);
    if a == |s| then [] else s[a..TrimEnd(s)]
  }

  /** The leftmost index at or after `i` where `at` holds: a left-to-right `re.search`. */
  function FirstFrom(s: string, at: (string, nat) -> bool, i: nat): (r: Option<nat>)
    decreases |s| + 1 - i
    ensures r.Some? ==> i <= r.value <= |s| && at(s, r.value)
    ensures r.Some? ==> forall j: nat :: i <= j < r.value ==> !at(s, j)
    ensures r.None? <==> forall j: nat :: i <= j <= |s| ==> !at(s, j)
  {
    if i > |s| then None
    else if at(s, i) then Some(i)
    else FirstFrom(s, at, i + 1)
  }

  /** A match at `i` with none before it is what the search from 0 finds. */
  lemma FirstFromLeftmost(s: string, at: (string, nat) -> bool, i: nat)
    requires i <= |s| && at(s, i) && forall j: nat :: j < i ==> !at(s, j)
    ensures FirstFrom(s, at, 0) == Some(i)
  {
  }
}
