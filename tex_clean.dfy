/**
 * `clean_tex`: the fixed chain of substitutions that turns one macro argument
 * into display text. Each `re.sub` of the chain is one function here, applied
 * in the order `clean_tex` in `scripts/parse_latex_publications.py` runs them.
 */
module TexClean {
  import opened Text

  const Dagger: char := '\U{2020}'

  /** Every whitespace character is a plain space and no two are adjacent. */
  predicate SingleSpaced(t: string)
  {
    && (forall k :: 0 <= k < |t| && IsSpace(t[k]) ==> t[k] == ' ')
    && (forall j, k :: 0 <= j < |t| - 1 && k == j + 1 && IsSpace(t[j]) ==> !IsSpace(t[k]))
  }

  /** What `clean_tex` promises of its output: plain text without TeX syntax. */
  predicate Tidy(t: string)
  {
    && '{' !in t && '}' !in t && '\\' !in t
    && SingleSpaced(t)
    && (t != [] ==> !IsSpace(t[0]) && !IsSpace(t[|t| - 1]))
  }

  /** No `^` is followed by `*` or a digit: nothing for the superscript rules to delete. */
  predicate NoMarkers(t: string)
  {
    forall j, k :: 0 <= j < |t| - 1 && k == j + 1 && t[j] == '^' ==> t[k] != '*' && !IsDigit(t[k])
  }

  /** Text that `clean_tex` has nothing left to do to. */
  predicate IsClean(t: string)
  {
    Tidy(t) && NoMarkers(t)
  }

  /** `re.sub(r'\\bf\s+', '', s)` and the like: a style macro and the whitespace after it. */
  function DropStyle(s: string, macro: string): (r: string)
    requires |macro| > 0
    decreases |s|
    ensures macro[0] !in s ==> r == s
  {
    if s == [] then []
    else if StartsAt(s, 0, macro) && |s| > |macro| && IsSpace(s[|macro|]) then
      var rest := s[|macro|..];
      DropStyle(rest[TrimStart(rest)..], macro)
    else [s[0]] + DropStyle(s[1..], macro)
  }

  /** `re.sub(r'[\{\}]', '', s)` and `re.sub(r'\\', '', s)`: delete a class of characters. */
  function DropChars(s: string, cs: set<char>): (r: string)
    ensures forall k :: 0 <= k < |r| ==> r[k] !in cs
    ensures multiset(r) <= multiset(s)
    ensures (forall k :: 0 <= k < |s| ==> s[k] !in cs) ==> r == s
  {
    if s == [] then []
    else
      assert s == [s[0]] + s[1..];
      if s[0] in cs then DropChars(s[1..], cs)
      else [s[0]] + DropChars(s[1..], cs)
  }

  /** Length of the run of ASCII digits at the start of `s`. */
  function DigitRun(s: string): (n: nat)
    ensures n <= |s|
    ensures forall k :: 0 <= k < n ==> IsDigit(s[k])
    ensures n < |s| ==> !IsDigit(s[n])
  {
    if s == [] || !IsDigit(s[0]) then 0 else 1 + DigitRun(s[1..])
  }

  /** Length of a match of `\^(\*|\d+)` at the start of `s`, 0 when none. */
  function SupLen(s: string): (n: nat)
    ensures n <= |s|
    ensures n > 0 <==> |s| >= 2 && s[0] == '^' && (s[1] == '*' || IsDigit(s[1]))
    ensures n > 0 && s[1] == '*' ==> n == 2
    ensures n > 0 && IsDigit(s[1]) ==> (forall k :: 1 <= k < n ==> IsDigit(s[k])) && (n < |s| ==> !IsDigit(s[n]))
  {
    if |s| >= 2 && s[0] == '^' then
      if s[1] == '*' then 2
      else if IsDigit(s[1]) then 1 + DigitRun(s[1..])
      else 0
    else 0
  }

  /** The first `n` characters of `s` are `$`, a whole superscript marker, and `$`. */
  predicate MathSupMatch(s: string, n: nat)
  {
    4 <= n <= |s| && s[0] == '$' && s[n - 1] == '$' && SupLen(s[1..n - 1]) == n - 2
  }

  /** A superscript marker read in full stays the same marker when followed by anything but a digit. */
  lemma SupLenExtend(u: string, z: string)
    requires SupLen(u) == |u| > 0
    requires z == [] || !IsDigit(z[0])
    ensures SupLen(u + z) == |u|
  {
    var t := u + z;
    assert t[..2] == u[..2];
    if IsDigit(u[1]) {
      var n := SupLen(t);
      assert forall k :: 1 <= k < |u| ==> t[k] == u[k];
      assert |u| < |t| ==> t[|u|] == z[0];
    }
  }

  /** Whatever length of `s` matches the math pattern, the superscript read after the `$` has that length less two. */
  lemma MathSupMatchLen(s: string)
    ensures forall n: nat :: MathSupMatch(s, n) ==> |s| >= 1 && SupLen(s[1..]) == n - 2
  {
    forall n: nat | MathSupMatch(s, n) ensures |s| >= 1 && SupLen(s[1..]) == n - 2 {
      var u := s[1..n - 1];
      assert s[1..] == u + s[n - 1..];
      SupLenExtend(u, s[n - 1..]);
    }
  }

  /** Length of a match of `\$\^(\*|\d+)\$` at the start of `s`, 0 when none. */
  function MathSupLen(s: string): (n: nat)
    ensures n <= |s|
    ensures n > 0 ==> MathSupMatch(s, n)
    ensures n == 0 ==> forall m :: !MathSupMatch(s, m)
  {
    if |s| >= 1 && s[0] == '$' then
      var m := SupLen(s[1..]);
      if m > 0 && 1 + m < |s| && s[1 + m] == '$' then
        assert SupLen(s[1..1 + m]) == m by {
          var t := s[1..];
          assert s[1..1 + m] == t[..m];
          assert t == t[..m] + t[m..];
          if IsDigit(t[1]) {
            assert t[..m][..2] == t[..2];
          }
        }
        m + 2
      else
        MathSupMatchLen(s);
        0
    else 0
  }

  lemma MultisetSplit(s: string, n: nat)
    requires n <= |s|
    ensures multiset(s) == multiset(s[..n]) + multiset(s[n..])
  {
    assert s == s[..n] + s[n..];
  }

  /** `re.sub(r'\$\^(\*|\d+)\$', '', s)`. */
  function DropMathSups(s: string): (r: string)
    decreases |s|
    ensures multiset(r) <= multiset(s)
    ensures NoMarkers(s) ==> r == s
  {
    if s == [] then []
    else if MathSupLen(s) > 0 then
      var rest := s[MathSupLen(s)..];
      MultisetSplit(s, MathSupLen(s));
      DropMathSups(rest)
    else
      assert NoMarkers(s) ==> NoMarkers(s[1..]) by {
        if NoMarkers(s) {
          NoMarkersTail(s);
        }
      }
      assert s == [s[0]] + s[1..];
      [s[0]] + DropMathSups(s[1..])
  }

  /** `re.sub(r'\^(\*|\d+)', '', s)`. */
  function DropSups(s: string): (r: string)
    decreases |s|
    ensures multiset(r) <= multiset(s)
    ensures NoMarkers(s) ==> r == s
  {
    if s == [] then []
    else if SupLen(s) > 0 then
      var rest := s[SupLen(s)..];
      MultisetSplit(s, SupLen(s));
      DropSups(rest)
    else
      assert NoMarkers(s) ==> NoMarkers(s[1..]) by {
        if NoMarkers(s) {
          NoMarkersTail(s);
        }
      }
      assert s == [s[0]] + s[1..];
      [s[0]] + DropSups(s[1..])
  }

  /** `re.sub(r'\s+', ' ', s)`: every whitespace run becomes one space. */
  function CollapseSpace(s: string): (r: string)
    decreases |s|
    ensures s != [] ==> r != [] && r[0] == (if IsSpace(s[0]) then ' ' else s[0])
    ensures SingleSpaced(r)
    ensures forall c :: c in r ==> c == ' ' || c in s
    ensures SingleSpaced(s) ==> r == s
  {
    if s == [] then []
    else if IsSpace(s[0]) then
      var rest := s[TrimStart(s)..];
      assert SingleSpaced(s) ==> rest == s[1..] by {
        if SingleSpaced(s) && |s| > 1 {
          assert !IsSpace(s[1]);
        }
      }
      [' '] + CollapseSpace(rest)
    else
      [s[0]] + CollapseSpace(s[1..])
  }

  lemma SingleSpacedSlice(s: string, a: nat, b: nat)
    requires a <= b <= |s| && SingleSpaced(s)
    ensures SingleSpaced(s[a..b])
  {
    var t := s[a..b];
    forall j, k | 0 <= j < k < |t| && k == j + 1 && IsSpace(t[j]) ensures !IsSpace(t[k]) {
      assert t[j] == s[a + j] && t[k] == s[a + k];
    }
  }

  /** Steps 1 to 3: the style macros `\bf`, `\it` and `\textsl`. */
  function DropStyles(s: string): (r: string)
    ensures '\\' !in s ==> r == s
  {
    var r := ReplaceAll(DropStyle(DropStyle(s, "\\bf"), "\\it"), "\\textsl", "");
    assert '\\' !in s ==> r == s by {
      if '\\' !in s {
        NotContainsChar(s, "\\textsl", 0);
        ReplaceAllAbsent(s, "\\textsl", "");
      }
    }
    r
  }

  /** Steps 4 to 6: the three dagger spellings, most specific first. */
  function Daggers(s: string): (r: string)
    ensures '\\' !in s ==> r == s
  {
    var r := ReplaceAll(ReplaceAll(ReplaceAll(s, "$^\\dagger$", [Dagger]), "^\\dagger", [Dagger]), "\\dagger", [Dagger]);
    assert '\\' !in s ==> r == s by {
      if '\\' !in s {
        NotContainsChar(s, "$^\\dagger$", 2);
        ReplaceAllAbsent(s, "$^\\dagger$", [Dagger]);
        NotContainsChar(s, "^\\dagger", 1);
        ReplaceAllAbsent(s, "^\\dagger", [Dagger]);
        NotContainsChar(s, "\\dagger", 0);
        ReplaceAllAbsent(s, "\\dagger", [Dagger]);
      }
    }
    r
  }

  /** Steps 7 to 10: braces, superscript markers, then every backslash. */
  function DropMarkup(s: string): (r: string)
    ensures '{' !in r && '}' !in r && '\\' !in r
    ensures '{' !in s && '}' !in s && '\\' !in s && NoMarkers(s) ==> r == s
  {
    var s7 := DropChars(s, {'{', '}'});
    var s8 := DropMathSups(s7);
    var s9 := DropSups(s8);
    assert '{' !in s9 && '}' !in s9 by {
      assert multiset(s9) <= multiset(s8) <= multiset(s7);
      assert '{' !in multiset(s7) && '}' !in multiset(s7);
    }
    assert '{' !in s && '}' !in s && '\\' !in s && NoMarkers(s) ==> s9 == s by {
      if '{' !in s && '}' !in s && NoMarkers(s) {
        assert forall k :: 0 <= k < |s| ==> s[k] !in {'{', '}'};
        assert s7 == s;
      }
    }
    var r := DropChars(s9, {'\\'});
    assert '{' !in r && '}' !in r by {
      assert multiset(r) <= multiset(s9);
    }
    r
  }

  /** Stripping text with no braces or backslashes and single spaces leaves it tidy. */
  lemma TrimTidy(c: string)
    requires '{' !in c && '}' !in c && '\\' !in c && SingleSpaced(c)
    ensures Tidy(Trim(c))
  {
    var r := Trim(c);
    SingleSpacedSlice(c, TrimStart(c), TrimStart(c) + |r|);
    assert forall x :: x in r ==> x in c;
  }

  /** Steps 11 and 12: whitespace runs to one space, then `strip()`. */
  function Normalize(s: string): (r: string)
    requires '{' !in s && '}' !in s && '\\' !in s
    ensures Tidy(r)
    ensures SingleSpaced(s) && (s != [] ==> !IsSpace(s[0]) && !IsSpace(s[|s| - 1])) ==> r == s
  {
    var c := CollapseSpace(s);
    assert '{' !in c && '}' !in c && '\\' !in c;
    TrimTidy(c);
    Trim(c)
  }

  /** `clean_tex(text)`: the twelve substitutions, styles first and whitespace last. */
  function CleanTex(text: string): (r: string)
    ensures Tidy(r)
  {
    Normalize(DropMarkup(Daggers(DropStyles(text))))
  }

  /** Text already free of TeX syntax and extra whitespace passes through unchanged. */
  lemma CleanTexKeepsCleanText(t: string)
    requires IsClean(t)
    ensures CleanTex(t) == t
  {
  }

  lemma {:induction false} DropStyleAbsent(s: string, macro: string, k: nat)
    requires k < |macro| && macro[k] !in s
    ensures DropStyle(s, macro) == s
  {
    if s != [] {
      DropStyleAbsent(s[1..], macro, k);
    }
  }

  /** Text with no `b`, `i` or `t` cannot hold `\bf`, `\it` or `\textsl`. */
  lemma DropStylesAbsent(s: string)
    requires 'b' !in s && 'i' !in s && 't' !in s
    ensures DropStyles(s) == s
  {
    DropStyleAbsent(s, "\\bf", 1);
    DropStyleAbsent(s, "\\it", 1);
    NotContainsChar(s, "\\textsl", 1);
    ReplaceAllAbsent(s, "\\textsl", "");
  }

  lemma DaggerGlyphSurvives(d: string)
    requires d == [Dagger]
    ensures Normalize(DropMarkup(d)) == d
  {
    assert !IsSpace(Dagger);
    assert NoMarkers(d);
    assert SingleSpaced(d);
  }

  lemma OneDagger(t: string)
    requires 'b' !in t && 'i' !in t && 't' !in t && Daggers(t) == [Dagger]
    ensures CleanTex(t) == [Dagger]
  {
    DropStylesAbsent(t);
    DaggerGlyphSurvives(Daggers(t));
  }

  lemma MathDagger(t: string)
    requires t == "$^\\dagger$"
    ensures CleanTex(t) == [Dagger]
  {
    assert Daggers(t) == [Dagger] by {
      assert ReplaceAll(t, "$^\\dagger$", [Dagger]) == [Dagger];
    }
    OneDagger(t);
  }

  lemma CaretDagger(t: string)
    requires t == "^\\dagger"
    ensures CleanTex(t) == [Dagger]
  {
    assert Daggers(t) == [Dagger] by {
      NotContainsChar(t, "$^\\dagger$", 0);
      ReplaceAllAbsent(t, "$^\\dagger$", [Dagger]);
      assert ReplaceAll(t, "^\\dagger", [Dagger]) == [Dagger];
    }
    OneDagger(t);
  }

  lemma BareDagger(t: string)
    requires t == "\\dagger"
    ensures CleanTex(t) == [Dagger]
  {
    assert Daggers(t) == [Dagger] by {
      NotContainsChar(t, "$^\\dagger$", 0);
      ReplaceAllAbsent(t, "$^\\dagger$", [Dagger]);
      NotContainsChar(t, "^\\dagger", 0);
      ReplaceAllAbsent(t, "^\\dagger", [Dagger]);
      assert ReplaceAll(t, "\\dagger", [Dagger]) == [Dagger];
    }
    OneDagger(t);
  }

  /** Each of the three dagger spellings becomes one dagger glyph. */
  lemma DaggerSpellings(t: string)
    requires t == "$^\\dagger$" || t == "^\\dagger" || t == "\\dagger"
    ensures CleanTex(t) == [Dagger]
  {
    if t == "$^\\dagger$" {
      MathDagger(t);
    } else if t == "^\\dagger" {
      CaretDagger(t);
    } else {
      BareDagger(t);
    }
  }

  predicate IsCaretBackslashStar(t: string)
  {
    |t| == 3 && t[0] == '^' && t[1] == '\\' && t[2] == '*'
  }

  predicate IsCaretStar(t: string)
  {
    |t| == 2 && t[0] == '^' && t[1] == '*'
  }

  lemma NoStyleNoDagger(t: string)
    requires IsCaretBackslashStar(t) || IsCaretStar(t)
    ensures Daggers(DropStyles(t)) == t
  {
    DropStylesAbsent(t);
    NotContainsChar(t, "$^\\dagger$", 3);
    ReplaceAllAbsent(t, "$^\\dagger$", [Dagger]);
    NotContainsChar(t, "^\\dagger", 2);
    ReplaceAllAbsent(t, "^\\dagger", [Dagger]);
    NotContainsChar(t, "\\dagger", 1);
    ReplaceAllAbsent(t, "\\dagger", [Dagger]);
  }

  lemma NoBraces(t: string)
    requires IsCaretBackslashStar(t) || IsCaretStar(t)
    ensures DropChars(t, {'{', '}'}) == t
  {
    assert forall k :: 0 <= k < |t| ==> t[k] !in {'{', '}'};
  }

  lemma EscapedStarIsNoMarker(t: string)
    requires IsCaretBackslashStar(t)
    ensures DropSups(DropMathSups(t)) == t
  {
    assert NoMarkers(t);
  }

  lemma BackslashDropped(t: string, u: string)
    requires IsCaretBackslashStar(t) && IsCaretStar(u)
    ensures DropChars(t, {'\\'}) == u
  {
    assert DropChars(t[2..], {'\\'}) == [t[2]];
  }

  lemma StarMarkerDropped(u: string)
    requires IsCaretStar(u)
    ensures DropSups(DropMathSups(u)) == []
  {
    assert DropMathSups(u[1..]) == u[1..];
    assert DropMathSups(u) == u;
    assert SupLen(u) == 2;
  }

  lemma EscapedStarMarkup(t: string, u: string)
    requires IsCaretBackslashStar(t) && IsCaretStar(u)
    ensures DropMarkup(t) == u
  {
    NoBraces(t);
    EscapedStarIsNoMarker(t);
    BackslashDropped(t, u);
  }

  lemma CaretStarNormal(u: string)
    requires IsCaretStar(u)
    ensures Normalize(u) == u
  {
    assert !IsSpace(u[0]) && !IsSpace(u[1]);
    assert SingleSpaced(u);
  }

  lemma FirstPass(t: string, u: string)
    requires IsCaretBackslashStar(t) && IsCaretStar(u)
    ensures CleanTex(t) == u
  {
    NoStyleNoDagger(t);
    EscapedStarMarkup(t, u);
    CaretStarNormal(u);
  }

  lemma SecondPass(u: string)
    requires IsCaretStar(u)
    ensures CleanTex(u) == []
  {
    NoStyleNoDagger(u);
    NoBraces(u);
    StarMarkerDropped(u);
  }

  /**
   * `clean_tex` is not idempotent: on `^\*` the superscript rule runs before
   * the backslash is removed, so the first pass leaves `^*` and a second pass
   * deletes it.
   */
  lemma CleanTexNotIdempotent(t: string, u: string)
    requires IsCaretBackslashStar(t) && IsCaretStar(u)
    ensures CleanTex(t) == u
    ensures CleanTex(CleanTex(t)) == []
  {
    FirstPass(t, u);
    SecondPass(u);
  }

  /* What each rule keeps: everything outside its matches, in order. */

  /** Deleting a class of characters works piece by piece. */
  lemma {:induction false} DropCharsAppend(a: string, b: string, cs: set<char>)
    ensures DropChars(a + b, cs) == DropChars(a, cs) + DropChars(b, cs)
    decreases |a|
  {
    if a == [] {
      assert a + b == b;
    } else {
      assert (a + b)[0] == a[0] && (a + b)[1..] == a[1..] + b;
      DropCharsAppend(a[1..], b, cs);
    }
  }

  /** One character is removed exactly when it is in the class, and kept otherwise. */
  lemma DropCharsOne(c: char, cs: set<char>)
    ensures DropChars([c], cs) == if c in cs then [] else [c]
  {
    assert [c][1..] == [];
  }

  /** The characters of `s` that are not whitespace, in order. */
  function NonSpace(s: string): (r: string)
    ensures forall k :: 0 <= k < |r| ==> !IsSpace(r[k])
  {
    if s == [] then [] else (if IsSpace(s[0]) then [] else [s[0]]) + NonSpace(s[1..])
  }

  lemma {:induction false} NonSpaceAppend(a: string, b: string)
    ensures NonSpace(a + b) == NonSpace(a) + NonSpace(b)
    decreases |a|
  {
    if a == [] {
      assert a + b == b;
    } else {
      assert (a + b)[0] == a[0] && (a + b)[1..] == a[1..] + b;
      NonSpaceAppend(a[1..], b);
    }
  }

  lemma {:induction false} NonSpaceBlank(w: string)
    requires forall k :: 0 <= k < |w| ==> IsSpace(w[k])
    ensures NonSpace(w) == []
    decreases |w|
  {
    if w != [] {
      NonSpaceBlank(w[1..]);
    }
  }

  /** A whitespace run followed by a non-space character is skipped exactly. */
  lemma TrimStartRun(w: string, y: string)
    requires forall k :: 0 <= k < |w| ==> IsSpace(w[k])
    requires y == [] || !IsSpace(y[0])
    ensures TrimStart(w + y) == |w|
  {
    var s := w + y;
    assert forall k :: 0 <= k < |w| ==> s[k] == w[k];
    assert y != [] ==> s[|w|] == y[0];
  }

  /** Collapsing whitespace keeps every other character, in order. */
  lemma {:induction false} CollapseKeepsNonSpace(s: string)
    ensures NonSpace(CollapseSpace(s)) == NonSpace(s)
    decreases |s|
  {
    if s != [] {
      if IsSpace(s[0]) {
        var a := TrimStart(s);
        var rest := s[a..];
        assert s == s[..a] + rest;
        NonSpaceAppend(s[..a], rest);
        NonSpaceBlank(s[..a]);
        CollapseKeepsNonSpace(rest);
        NonSpaceAppend([' '], CollapseSpace(rest));
      } else {
        assert s == [s[0]] + s[1..];
        CollapseKeepsNonSpace(s[1..]);
        NonSpaceAppend([s[0]], CollapseSpace(s[1..]));
      }
    }
  }

  /** A whole whitespace run becomes exactly one space. */
  lemma CollapseRun(w: string, y: string)
    requires w != [] && forall k :: 0 <= k < |w| ==> IsSpace(w[k])
    requires y == [] || !IsSpace(y[0])
    ensures CollapseSpace(w + y) == " " + CollapseSpace(y)
  {
    TrimStartRun(w, y);
    assert (w + y)[|w|..] == y;
  }

  /** `strip()` cuts `s` into a blank prefix, its result and a blank suffix. */
  lemma TrimParts(c: string)
    ensures var a, r := TrimStart(c), Trim(c);
      && c == c[..a] + r + c[a + |r|..]
      && forall k :: a + |r| <= k < |c| ==> IsSpace(c[k])
  {
    var a, r := TrimStart(c), Trim(c);
    assert c == c[..a] + c[a..a + |r|] + c[a + |r|..];
  }

  /** `strip()` removes only whitespace. */
  lemma TrimKeepsNonSpace(c: string)
    ensures NonSpace(Trim(c)) == NonSpace(c)
  {
    var a := TrimStart(c);
    var r := Trim(c);
    var e := a + |r|;
    TrimParts(c);
    NonSpaceBlank(c[..a]);
    NonSpaceBlank(c[e..]);
    NonSpaceAppend(c[..a] + r, c[e..]);
    NonSpaceAppend(c[..a], r);
  }

  /** Steps 11 and 12 change only whitespace: every other character stays, in order. */
  lemma NormalizeKeepsNonSpace(s: string)
    requires '{' !in s && '}' !in s && '\\' !in s
    ensures NonSpace(Normalize(s)) == NonSpace(s)
  {
    CollapseKeepsNonSpace(s);
    TrimKeepsNonSpace(CollapseSpace(s));
  }

  /** The style rule for `macro` matches at `i`: the macro and at least one whitespace character. */
  predicate StyleAt(s: string, i: nat, macro: string)
  {
    StartsAt(s, i, macro) && i + |macro| < |s| && IsSpace(s[i + |macro|])
  }

  lemma StyleAtTail(s: string, j: nat, macro: string)
    requires |s| > 0
    ensures StyleAt(s[1..], j, macro) <==> StyleAt(s, j + 1, macro)
  {
    StartsAtTail(s, j, macro);
  }

  /** Where the style rule does not match, it copies one character. */
  lemma DropStyleStep(s: string, macro: string)
    requires |macro| > 0 && s != [] && !StyleAt(s, 0, macro)
    ensures DropStyle(s, macro) == [s[0]] + DropStyle(s[1..], macro)
  {
  }

  lemma {:induction false} DropStyleSkip(x: string, z: string, macro: string)
    requires |macro| > 0
    requires forall j :: 0 <= j < |x| ==> !StyleAt(x + z, j, macro)
    ensures DropStyle(x + z, macro) == x + DropStyle(z, macro)
    decreases |x|
  {
    if x == [] {
      assert x + z == z;
    } else {
      var s := x + z;
      AppendTail(x, z);
      DropStyleStep(s, macro);
      forall j | 0 <= j < |x[1..]| ensures !StyleAt(x[1..] + z, j, macro) {
        StyleAtTail(s, j, macro);
      }
      DropStyleSkip(x[1..], z, macro);
      ConsAppend(x, DropStyle(z, macro));
    }
  }

  /** Where the style rule matches, it drops the macro and the whitespace run after it. */
  lemma DropStyleAt(s: string, macro: string)
    requires |macro| > 0 && StyleAt(s, 0, macro)
    ensures var rest := s[|macro|..]; DropStyle(s, macro) == DropStyle(rest[TrimStart(rest)..], macro)
  {
  }

  lemma DropStyleMatch(w: string, y: string, macro: string)
    requires |macro| > 0
    requires w != [] && forall k :: 0 <= k < |w| ==> IsSpace(w[k])
    requires y == [] || !IsSpace(y[0])
    ensures DropStyle(macro + w + y, macro) == DropStyle(y, macro)
  {
    var rest := w + y;
    var s := macro + rest;
    assert macro + w + y == s;
    assert s[..|macro|] == macro && s[|macro|..] == rest && s[|macro|] == w[0];
    DropStyleAt(s, macro);
    TrimStartRun(w, y);
    assert rest[|w|..] == y;
  }

  /**
   * A style rule on text whose first match is right after `x`: `x` is kept,
   * the macro and the whole whitespace run after it are removed, and the
   * rule goes on after them.
   */
  lemma DropStyleRemoves(x: string, w: string, y: string, macro: string)
    requires |macro| > 0
    requires forall j :: 0 <= j < |x| ==> !StyleAt(x + macro + w + y, j, macro)
    requires w != [] && forall k :: 0 <= k < |w| ==> IsSpace(w[k])
    requires y == [] || !IsSpace(y[0])
    ensures DropStyle(x + macro + w + y, macro) == x + DropStyle(y, macro)
  {
    Regroup(x, macro, w, y);
    DropStyleSkip(x, macro + w + y, macro);
    DropStyleMatch(w, y, macro);
  }

  /** What the superscript rules delete: `^*`, or `^` and digits. */
  predicate IsSupMarker(m: string)
  {
    |m| >= 2 && m[0] == '^' && (m == "^*" || forall k :: 1 <= k < |m| ==> IsDigit(m[k]))
  }

  /** A marker not followed by a further digit is matched in full. */
  lemma SupMarkerLen(m: string, y: string)
    requires IsSupMarker(m)
    requires m == "^*" || y == [] || !IsDigit(y[0])
    ensures SupLen(m + y) == |m|
  {
    if m == "^*" {
      assert (m + y)[..2] == m;
    } else {
      assert IsDigit(m[1]);
      SupLenExtend(m, y);
    }
  }

  /** Where no marker starts, the superscript rule copies one character. */
  lemma DropSupsStep(s: string)
    requires s != [] && SupLen(s) == 0
    ensures DropSups(s) == [s[0]] + DropSups(s[1..])
  {
  }

  /** `NoMarkers` carries over to the tail. */
  lemma NoMarkersTail(s: string)
    requires s != [] && NoMarkers(s)
    ensures NoMarkers(s[1..])
  {
    forall j, k | 0 <= j < |s[1..]| - 1 && k == j + 1 && s[1..][j] == '^'
      ensures s[1..][k] != '*' && !IsDigit(s[1..][k])
    {
      assert s[j + 1] == '^' && s[1..][k] == s[k + 1];
    }
  }

  /** No marker starts inside `x` when `z` follows it. */
  predicate NoMarkerBefore(x: string, z: string)
  {
    NoMarkers(x) && (x != [] && x[|x| - 1] == '^' && z != [] ==> z[0] != '*' && !IsDigit(z[0]))
  }

  lemma {:induction false} DropSupsSkip(x: string, z: string)
    requires NoMarkerBefore(x, z)
    ensures DropSups(x + z) == x + DropSups(z)
    decreases |x|
  {
    if x == [] {
      assert x + z == z;
    } else {
      var s := x + z;
      assert |x| > 1 ==> s[1] == x[1];
      assert |x| == 1 && z != [] ==> s[1] == z[0];
      AppendTail(x, z);
      DropSupsStep(s);
      NoMarkersTail(x);
      DropSupsSkip(x[1..], z);
      ConsAppend(x, DropSups(z));
    }
  }

  /**
   * The superscript rule on text whose first marker is right after `x`: `x`
   * is kept, the marker is removed, and the rule goes on after it.
   */
  lemma DropSupsRemoves(x: string, m: string, y: string)
    requires NoMarkers(x) && IsSupMarker(m)
    requires m == "^*" || y == [] || !IsDigit(y[0])
    ensures DropSups(x + m + y) == x + DropSups(y)
  {
    assert x + m + y == x + (m + y);
    DropSupsSkip(x, m + y);
    DropSupsMatch(m, y);
  }

  /** A whole marker at the front is removed. */
  lemma DropSupsMatch(m: string, y: string)
    requires IsSupMarker(m)
    requires m == "^*" || y == [] || !IsDigit(y[0])
    ensures DropSups(m + y) == DropSups(y)
  {
    SupMarkerLen(m, y);
    assert (m + y)[|m|..] == y;
  }

  /** No `$` in `x` is followed by `^`: no math superscript starts inside `x`. */
  predicate NoMathOpen(x: string)
  {
    forall j, k :: 0 <= j < |x| - 1 && k == j + 1 && x[j] == '$' ==> x[k] != '^'
  }

  /** Where no math match starts, the math superscript rule copies one character. */
  lemma DropMathSupsStep(s: string)
    requires s != [] && MathSupLen(s) == 0
    ensures DropMathSups(s) == [s[0]] + DropMathSups(s[1..])
  {
  }

  /** A math match starts with `$^`. */
  lemma MathSupOpens(t: string)
    ensures MathSupLen(t) > 0 ==> t[0] == '$' && t[1] == '^'
  {
    var n := MathSupLen(t);
    if n > 0 {
      assert t[1..n - 1][0] == t[1];
    }
  }

  lemma NoMathOpenTail(s: string)
    requires s != [] && NoMathOpen(s)
    ensures NoMathOpen(s[1..])
  {
    forall j, k | 0 <= j < |s[1..]| - 1 && k == j + 1 && s[1..][j] == '$'
      ensures s[1..][k] != '^'
    {
      assert s[j + 1] == '$' && s[1..][k] == s[k + 1];
    }
  }

  /** No math match starts inside `x` when `z` follows it. */
  predicate NoMathOpenBefore(x: string, z: string)
  {
    NoMathOpen(x) && (x != [] && x[|x| - 1] == '$' && z != [] ==> z[0] != '^')
  }

  /** No math match starts at the front of `x + z`. */
  lemma NoMathAtStart(x: string, z: string)
    requires x != [] && NoMathOpenBefore(x, z)
    ensures MathSupLen(x + z) == 0
  {
    var s := x + z;
    assert |x| > 1 ==> s[1] == x[1];
    assert |x| == 1 && z != [] ==> s[1] == z[0];
    MathSupOpens(s);
  }

  lemma {:induction false} DropMathSupsSkip(x: string, z: string)
    requires NoMathOpenBefore(x, z)
    ensures DropMathSups(x + z) == x + DropMathSups(z)
    decreases |x|
  {
    if x == [] {
      assert x + z == z;
    } else {
      var s := x + z;
      AppendTail(x, z);
      NoMathAtStart(x, z);
      DropMathSupsStep(s);
      NoMathOpenTail(x);
      DropMathSupsSkip(x[1..], z);
      ConsAppend(x, DropMathSups(z));
    }
  }

  /**
   * The math superscript rule on text whose first match is right after `x`:
   * `x` is kept, `$`, the marker and `$` are removed, and the rule goes on
   * after them.
   */
  lemma DropMathSupsRemoves(x: string, m: string, y: string)
    requires NoMathOpen(x) && IsSupMarker(m)
    ensures DropMathSups(x + "$" + m + "$" + y) == x + DropMathSups(y)
  {
    var z := "$" + m + "$" + y;
    Regroup(x, "$", m, "$" + y);
    assert x + "$" + m + "$" + y == x + ("$" + m + ("$" + y));
    assert z == "$" + m + ("$" + y);
    DropMathSupsSkip(x, z);
    DropMathSupsMatch(m, y);
  }

  /** A whole math superscript at the front is removed. */
  lemma DropMathSupsMatch(m: string, y: string)
    requires IsSupMarker(m)
    ensures DropMathSups("$" + m + "$" + y) == DropMathSups(y)
  {
    var z := "$" + m + "$" + y;
    var n := |m| + 2;
    assert z[1..n - 1] == m && z[n - 1] == '$' && z[n..] == y;
    SupMarkerLen(m, []);
    assert m + [] == m;
    assert MathSupMatch(z, n);
    MathSupMatchLen(z);
  }

  /** Backslash-free text around one spelling: the spelling holds the only backslash. */
  lemma OneBackslash(x: string, sp: string, y: string, q: nat)
    requires '\\' !in x && '\\' !in y
    requires q < |sp| && sp[q] == '\\' && forall i :: 0 <= i < |sp| && sp[i] == '\\' ==> i == q
    ensures var s := x + sp + y; forall k :: 0 <= k < |s| && s[k] == '\\' ==> k == |x| + q
  {
    var s := x + sp + y;
    assert forall k :: 0 <= k < |x| ==> s[k] == x[k];
    assert forall k :: |x| <= k < |x| + |sp| ==> s[k] == sp[k - |x|];
    assert forall k :: |x| + |sp| <= k < |s| ==> s[k] == y[k - |x| - |sp|];
  }

  /** Rules 5 and 6 leave text without a backslash alone. */
  lemma LaterDaggersAbsent(s: string)
    requires '\\' !in s
    ensures ReplaceAll(ReplaceAll(s, "^\\dagger", [Dagger]), "\\dagger", [Dagger]) == s
  {
    NotContainsChar(s, "^\\dagger", 1);
    ReplaceAllAbsent(s, "^\\dagger", [Dagger]);
    NotContainsChar(s, "\\dagger", 0);
    ReplaceAllAbsent(s, "\\dagger", [Dagger]);
  }

  /** `$^\dagger$` between backslash-free text becomes one dagger; the text around it is kept. */
  lemma MathDaggerIn(x: string, y: string)
    requires '\\' !in x && '\\' !in y
    ensures Daggers(x + "$^\\dagger$" + y) == x + [Dagger] + y
  {
    var pat := "$^\\dagger$";
    var s := x + pat + y;
    assert ReplaceAll(s, pat, [Dagger]) == x + [Dagger] + y by {
      OneBackslash(x, pat, y, 2);
      OnlyMatchAt(s, pat, 2, |x| + 2);
      ReplaceFirst(x, y, pat, [Dagger]);
      NotContainsChar(y, pat, 2);
      ReplaceAllAbsent(y, pat, [Dagger]);
    }
    LaterDaggersAbsent(x + [Dagger] + y);
  }

  /** `^\dagger` between backslash-free text becomes one dagger, unless a `$` before it opens the math spelling. */
  lemma CaretDaggerIn(x: string, y: string)
    requires '\\' !in x && '\\' !in y
    requires x == [] || x[|x| - 1] != '$'
    ensures Daggers(x + "^\\dagger" + y) == x + [Dagger] + y
  {
    var math, pat := "$^\\dagger$", "^\\dagger";
    var s := x + pat + y;
    var s1 := x + [Dagger] + y;
    assert ReplaceAll(s, math, [Dagger]) == s by {
      OneBackslash(x, pat, y, 1);
      assert x != [] ==> s[|x| - 1] == x[|x| - 1];
      NoMatchAnywhere(s, math, 2, |x| + 1, 0);
      ReplaceAllAbsent(s, math, [Dagger]);
    }
    assert ReplaceAll(s, pat, [Dagger]) == s1 by {
      OneBackslash(x, pat, y, 1);
      OnlyMatchAt(s, pat, 1, |x| + 1);
      ReplaceFirst(x, y, pat, [Dagger]);
      NotContainsChar(y, pat, 1);
      ReplaceAllAbsent(y, pat, [Dagger]);
    }
    assert ReplaceAll(s1, "\\dagger", [Dagger]) == s1 by {
      NotContainsChar(s1, "\\dagger", 0);
      ReplaceAllAbsent(s1, "\\dagger", [Dagger]);
    }
  }

  /** `\dagger` between backslash-free text becomes one dagger, unless a `^` before it makes another spelling. */
  lemma BareDaggerIn(x: string, y: string)
    requires '\\' !in x && '\\' !in y
    requires x == [] || x[|x| - 1] != '^'
    ensures Daggers(x + "\\dagger" + y) == x + [Dagger] + y
  {
    BareNotMath(x, y);
    BareNotCaret(x, y);
    BareReplaced(x, y);
  }

  lemma BareNotMath(x: string, y: string)
    requires '\\' !in x && '\\' !in y
    requires x == [] || x[|x| - 1] != '^'
    ensures ReplaceAll(x + "\\dagger" + y, "$^\\dagger$", [Dagger]) == x + "\\dagger" + y
  {
    var s := x + "\\dagger" + y;
    OneBackslash(x, "\\dagger", y, 0);
    assert x != [] ==> s[|x| - 1] == x[|x| - 1];
    NoMatchAnywhere(s, "$^\\dagger$", 2, |x|, 1);
    ReplaceAllAbsent(s, "$^\\dagger$", [Dagger]);
  }

  lemma BareNotCaret(x: string, y: string)
    requires '\\' !in x && '\\' !in y
    requires x == [] || x[|x| - 1] != '^'
    ensures ReplaceAll(x + "\\dagger" + y, "^\\dagger", [Dagger]) == x + "\\dagger" + y
  {
    var s := x + "\\dagger" + y;
    OneBackslash(x, "\\dagger", y, 0);
    assert x != [] ==> s[|x| - 1] == x[|x| - 1];
    NoMatchAnywhere(s, "^\\dagger", 1, |x|, 0);
    ReplaceAllAbsent(s, "^\\dagger", [Dagger]);
  }

  lemma BareReplaced(x: string, y: string)
    requires '\\' !in x && '\\' !in y
    ensures ReplaceAll(x + "\\dagger" + y, "\\dagger", [Dagger]) == x + [Dagger] + y
  {
    var pat := "\\dagger";
    OneBackslash(x, pat, y, 0);
    OnlyMatchAt(x + pat + y, pat, 0, |x|);
    ReplaceFirst(x, y, pat, [Dagger]);
    NotContainsChar(y, pat, 0);
    ReplaceAllAbsent(y, pat, [Dagger]);
  }

  /**
   * On text without backslashes or carets, `clean_tex` keeps every
   * non-whitespace character except braces, in order.
   */
  lemma CleanTexWords(t: string)
    requires '\\' !in t && '^' !in t
    ensures NonSpace(CleanTex(t)) == NonSpace(DropChars(t, {'{', '}'}))
  {
    var s7 := DropChars(t, {'{', '}'});
    assert '^' !in s7 && '\\' !in s7 by {
      assert multiset(s7) <= multiset(t);
      assert '^' !in multiset(t) && '\\' !in multiset(t);
    }
    assert NoMarkers(s7);
    assert forall k :: 0 <= k < |s7| ==> s7[k] !in {'\\'};
    assert DropMarkup(t) == s7;
    NormalizeKeepsNonSpace(s7);
  }
}
