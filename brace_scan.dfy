/**
 * The brace scanner of the LaTeX parser: from a start index it walks the item
 * text counting brace depth and collects the trimmed contents of the first
 * three brace groups that close back to depth 0.
 */
module BraceScan {
  import opened Wrappers
  import opened Text

  /** The arguments collected and the index just past the last character read. */
  datatype Scan = Scan(args: seq<string>, next: nat)

  /**
   * What the scanner does from index `i` with brace depth `depth`, the
   * argument being collected `cur` and the arguments finished so far `args`.
   * An opening brace is kept unless it opens an argument; a closing brace that
   * brings the depth back to 0 finishes an argument and is otherwise kept;
   * any other character is kept inside an argument (depth at least 1).
   * Depth may go negative on a stray `}`.
   */
  function ScanFrom(s: string, i: nat, depth: int, cur: string, args: seq<string>): (r: Scan)
    requires i <= |s| && |args| <= 3
    decreases |s| - i
    ensures |r.args| <= 3 && i <= r.next <= |s|
  {
    if i == |s| || |args| == 3 then Scan(args, i)
    else if s[i] == '{' then
      ScanFrom(s, i + 1, depth + 1, if depth != 0 then cur + [s[i]] else cur, args)
    else if s[i] == '}' then
      if depth - 1 == 0 then ScanFrom(s, i + 1, 0, [], args + [Trim(cur)])
      else ScanFrom(s, i + 1, depth - 1, cur + [s[i]], args)
    else
      ScanFrom(s, i + 1, depth, if depth >= 1 then cur + [s[i]] else cur, args)
  }

  /**
   * The scan only adds arguments, and stops either at the end of the text or
   * just after the `}` that closes the third argument.
   */
  lemma {:induction false} ScanShape(s: string, i: nat, depth: int, cur: string, args: seq<string>)
    requires i <= |s| && |args| <= 3
    decreases |s| - i
    ensures var r := ScanFrom(s, i, depth, cur, args);
      && |args| <= |r.args| && r.args[..|args|] == args
      && (|r.args| < 3 ==> r.next == |s|)
      && (|args| < 3 && |r.args| == 3 ==> i < r.next && s[r.next - 1] == '}')
  {
    if i < |s| && |args| < 3 {
      if s[i] == '{' {
        ScanShape(s, i + 1, depth + 1, if depth != 0 then cur + [s[i]] else cur, args);
      } else if s[i] == '}' && depth - 1 == 0 {
        ScanShape(s, i + 1, 0, [], args + [Trim(cur)]);
        var r := ScanFrom(s, i + 1, 0, [], args + [Trim(cur)]);
        assert r.args[..|args|] == (r.args[..|args| + 1])[..|args|];
        if |args| + 1 == 3 && |r.args| == 3 {
          assert r.next == i + 1;
        }
      } else if s[i] == '}' {
        ScanShape(s, i + 1, depth - 1, cur + [s[i]], args);
      } else {
        ScanShape(s, i + 1, depth, if depth >= 1 then cur + [s[i]] else cur, args);
      }
    }
  }

  /**
   * The scanning loop: reads `s` from `start` until the end or until three
   * arguments are collected; `next` is where the unread rest begins.
   */
  method ScanArgs(s: string, start: nat) returns (args: seq<string>, next: nat)
    requires start <= |s|
    ensures Scan(args, next) == ScanFrom(s, start, 0, [], [])
    ensures |args| <= 3 && start <= next <= |s|
    ensures |args| < 3 ==> next == |s|
    ensures |args| == 3 ==> start < next && s[next - 1] == '}'
  {
    args := [];
    var depth := 0;
    var currentArg: string := [];
    var inArg := false;
    var argCount := 0;
    var scanIdx := start;
    while scanIdx < |s| && argCount < 3
      invariant start <= scanIdx <= |s|
      invariant argCount == |args| <= 3
      invariant inArg == (depth >= 1)
      invariant ScanFrom(s, scanIdx, depth, currentArg, args) == ScanFrom(s, start, 0, [], [])
      decreases |s| - scanIdx
    {
      var c := s[scanIdx];
      if c == '{' {
        if depth == 0 {
          inArg := true;
        } else {
          currentArg := currentArg + [c];
        }
        depth := depth + 1;
      } else if c == '}' {
        depth := depth - 1;
        if depth == 0 {
          inArg := false;
          args := args + [Trim(currentArg)];
          currentArg := [];
          argCount := argCount + 1;
        } else {
          currentArg := currentArg + [c];
        }
      } else if inArg {
        currentArg := currentArg + [c];
      }
      scanIdx := scanIdx + 1;
    }
    next := scanIdx;
    ScanShape(s, start, 0, [], []);
  }

  /** The index of the `}` that closes a group entered at depth `depth`, if any. */
  function CloseFrom(s: string, i: nat, depth: nat): (r: Option<nat>)
    requires i <= |s| && depth >= 1
    decreases |s| - i
    ensures r.Some? ==> i <= r.value < |s| && s[r.value] == '}'
  {
    if i == |s| then None
    else if s[i] == '{' then CloseFrom(s, i + 1, depth + 1)
    else if s[i] == '}' then (if depth == 1 then Some(i) else CloseFrom(s, i + 1, depth - 1))
    else CloseFrom(s, i + 1, depth)
  }

  /**
   * Reference reading of the arguments: the trimmed interiors of the first
   * three balanced top-level brace groups from `i`, text between groups
   * ignored. A group left open ends the scan; a top-level `}` has no reading.
   */
  function TopGroups(s: string, i: nat, args: seq<string>): (r: Option<Scan>)
    requires i <= |s| && |args| <= 3
    decreases |s| - i
  {
    if i == |s| || |args| == 3 then Some(Scan(args, i))
    else if s[i] == '}' then None
    else if s[i] == '{' then
      match CloseFrom(s, i + 1, 1)
      case None => Some(Scan(args, |s|))
      case Some(m) => TopGroups(s, m + 1, args + [Trim(s[i + 1..m])])
    else TopGroups(s, i + 1, args)
  }

  /** The scanner's result once a group's closing brace at `m` is read. */
  function AfterGroup(s: string, m: nat, cur: string, args: seq<string>): Scan
    requires m < |s| && |args| < 3
  {
    ScanFrom(s, m + 1, 0, [], args + [Trim(cur)])
  }

  /** Inside a group the scanner collects everything up to the matching `}`. */
  lemma {:induction false} InsideGroup(s: string, i: nat, depth: nat, cur: string, args: seq<string>)
    requires i <= |s| && depth >= 1 && |args| < 3
    decreases |s| - i
    ensures CloseFrom(s, i, depth).None? ==> ScanFrom(s, i, depth, cur, args) == Scan(args, |s|)
    ensures CloseFrom(s, i, depth).Some? ==>
      ScanFrom(s, i, depth, cur, args) == AfterGroup(s, CloseFrom(s, i, depth).value, cur + s[i..CloseFrom(s, i, depth).value], args)
  {
    if i < |s| {
      var c := s[i];
      if c == '}' && depth == 1 {
        assert CloseFrom(s, i, depth) == Some(i);
        assert cur + s[i..i] == cur;
      } else {
        var d: nat := if c == '{' then depth + 1 else if c == '}' then depth - 1 else depth;
        assert d >= 1;
        assert CloseFrom(s, i, depth) == CloseFrom(s, i + 1, d);
        assert ScanFrom(s, i, depth, cur, args) == ScanFrom(s, i + 1, d, cur + [c], args);
        InsideGroup(s, i + 1, d, cur + [c], args);
        GroupText(s, i, CloseFrom(s, i + 1, d), cur);
      }
    }
  }

  /** Collecting the character at `i` and then the rest of the group. */
  lemma GroupText(s: string, i: nat, close: Option<nat>, cur: string)
    requires i < |s|
    requires close.Some? ==> i < close.value <= |s|
    ensures close.Some? ==> cur + [s[i]] + s[i + 1..close.value] == cur + s[i..close.value]
  {
    if close.Some? {
      assert s[i..close.value] == [s[i]] + s[i + 1..close.value];
    }
  }

  /** An opening brace at depth 0 whose group never closes: the scan runs to the end. */
  lemma OpenGroupUnclosed(s: string, i: nat, args: seq<string>)
    requires i < |s| && |args| < 3 && s[i] == '{' && CloseFrom(s, i + 1, 1).None?
    ensures ScanFrom(s, i, 0, [], args) == Scan(args, |s|)
  {
    assert ScanFrom(s, i, 0, [], args) == ScanFrom(s, i + 1, 1, [], args);
    InsideGroup(s, i + 1, 1, [], args);
  }

  /** An opening brace at depth 0 whose group closes at `m`: one more argument, read on from `m + 1`. */
  lemma OpenGroupClosed(s: string, i: nat, args: seq<string>, m: nat)
    requires i < |s| && |args| < 3 && s[i] == '{' && CloseFrom(s, i + 1, 1) == Some(m)
    ensures i < m < |s|
    ensures ScanFrom(s, i, 0, [], args) == ScanFrom(s, m + 1, 0, [], args + [Trim(s[i + 1..m])])
  {
    assert ScanFrom(s, i, 0, [], args) == ScanFrom(s, i + 1, 1, [], args);
    InsideGroup(s, i + 1, 1, [], args);
    assert [] + s[i + 1..m] == s[i + 1..m];
  }

  /** Where the reference reading exists, the scanner agrees with it. */
  lemma {:induction false} GroupsAgree(s: string, i: nat, args: seq<string>)
    requires i <= |s| && |args| <= 3
    requires TopGroups(s, i, args).Some?
    decreases |s| - i
    ensures ScanFrom(s, i, 0, [], args) == TopGroups(s, i, args).value
  {
    if i < |s| && |args| < 3 {
      if s[i] == '{' {
        match CloseFrom(s, i + 1, 1)
        case None =>
          OpenGroupUnclosed(s, i, args);
        case Some(m) =>
          OpenGroupClosed(s, i, args, m);
          GroupsAgree(s, m + 1, args + [Trim(s[i + 1..m])]);
      } else {
        assert ScanFrom(s, i, 0, [], args) == ScanFrom(s, i + 1, 0, [], args);
        GroupsAgree(s, i + 1, args);
      }
    }
  }

  /** Three groups in the reference reading are exactly what the scanner collects. */
  lemma ThreeGroups(s: string, i: nat, a: string, b: string, c: string, n: nat)
    requires i <= |s| && TopGroups(s, i, []) == Some(Scan([a, b, c], n))
    ensures n <= |s| && ScanFrom(s, i, 0, [], []) == Scan([a, b, c], n)
  {
    GroupsAgree(s, i, []);
  }
}
