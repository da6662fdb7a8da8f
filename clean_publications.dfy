/**
 * The maintenance pass over the publication array: force the year of one
 * known paper, drop the records without a year, and sort by year, newest
 * first, keeping the input order among records of the same year.
 */
module CleanPublications {
  import opened Text
  import opened Records

  /** The title fragment, matched case-insensitively, of the paper whose year is forced. */
  const TargetTitleFragment := "Transcriptional dynamics of CD8+ T-cell exhaustion"
  const ForcedYear := 2025

  /** The record's lowercased title contains the lowercased fragment. */
  predicate TitleMatches(p: Publication)
  {
    Contains(Lower(p.title), Lower(TargetTitleFragment))
  }

  /** The update loop changes this record, and counts it. */
  predicate NeedsUpdate(p: Publication)
  {
    TitleMatches(p) && p.year != ForcedYear
  }

  /** One record after the update loop has passed over it. */
  function Forced(p: Publication): (r: Publication)
    ensures r.year == (if TitleMatches(p) then ForcedYear else p.year)
    ensures r.(year := p.year) == p
    ensures r == p <==> !NeedsUpdate(p)
  {
    if TitleMatches(p) && p.year != ForcedYear then p.(year := ForcedYear) else p
  }

  /** Every record after the update loop. */
  function ForcedAll(ps: seq<Publication>): (rs: seq<Publication>)
    ensures |rs| == |ps|
    ensures forall i :: 0 <= i < |ps| ==> rs[i] == Forced(ps[i])
  {
    seq(|ps|, i requires 0 <= i < |ps| => Forced(ps[i]))
  }

  /** The year tests the pass and its properties filter on. */
  datatype YearTest = Dated | Undated | DatedIn(year: int)

  predicate Passes(t: YearTest, p: Publication)
  {
    match t
    case Dated => p.year != 0
    case Undated => p.year == 0
    case DatedIn(y) => p.year == y
  }

  /** `[p]` when `p` passes `t`, otherwise nothing. */
  function Keep(p: Publication, t: YearTest): (rs: seq<Publication>)
    ensures rs == [] || rs == [p]
    ensures rs == [p] <==> Passes(t, p)
  {
    if Passes(t, p) then [p] else []
  }

  /** The records passing `t`, in their order (a list comprehension with a condition). */
  function Filter(ps: seq<Publication>, t: YearTest): (rs: seq<Publication>)
    ensures |rs| <= |ps|
    ensures forall i :: 0 <= i < |rs| ==> Passes(t, rs[i])
  {
    if ps == [] then [] else Filter(ps[..|ps| - 1], t) + Keep(ps[|ps| - 1], t)
  }

  /** `[p for p in pubs if p['year'] != 0]`. */
  function DropUnknownYear(ps: seq<Publication>): (rs: seq<Publication>)
    ensures |rs| <= |ps|
    ensures forall i :: 0 <= i < |rs| ==> rs[i].year != 0
  {
    Filter(ps, Dated)
  }

  /** The number of records the update loop changes. */
  function UpdateCount(ps: seq<Publication>): (n: nat)
    ensures n <= |ps|
    ensures n == 0 <==> forall i :: 0 <= i < |ps| ==> !NeedsUpdate(ps[i])
  {
    if ps == [] then 0
    else
      var init := ps[..|ps| - 1];
      assert forall i :: 0 <= i < |init| ==> init[i] == ps[i];
      UpdateCount(init) + (if NeedsUpdate(ps[|ps| - 1]) then 1 else 0)
  }

  /** Sorted by year, newest first. */
  predicate SortedDesc(ps: seq<Publication>)
  {
    forall i, j :: 0 <= i < j < |ps| ==> ps[i].year >= ps[j].year
  }

  /**
   * Places `x` after every record of `s` whose year is at least its own,
   * searching from the end: one step of a stable insertion sort.
   */
  function Insert(x: Publication, s: seq<Publication>): (r: seq<Publication>)
    ensures |r| == |s| + 1
  {
    if s == [] || s[|s| - 1].year >= x.year then s + [x]
    else Insert(x, s[..|s| - 1]) + [s[|s| - 1]]
  }

  /** `sort(key=year, reverse=True)` as a stable insertion sort. */
  function SortDesc(ps: seq<Publication>): (rs: seq<Publication>)
    ensures |rs| == |ps|
  {
    if ps == [] then [] else Insert(ps[|ps| - 1], SortDesc(ps[..|ps| - 1]))
  }

  /** What the whole pass leaves in the file, given what it read. */
  function Cleaned(ps: seq<Publication>): (rs: seq<Publication>)
  {
    SortDesc(DropUnknownYear(ForcedAll(ps)))
  }

  // Filtering

  /** Filtering a sequence with one more record at the end. */
  lemma FilterSnoc(ps: seq<Publication>, p: Publication, t: YearTest)
    ensures Filter(ps + [p], t) == Filter(ps, t) + Keep(p, t)
  {
    assert (ps + [p])[..|ps|] == ps;
  }

  lemma Associative<T>(x: seq<T>, y: seq<T>, z: seq<T>)
    ensures (x + y) + z == x + (y + z)
  {
  }

  /** Filtering distributes over concatenation. */
  lemma {:induction false} FilterAppend(a: seq<Publication>, b: seq<Publication>, t: YearTest)
    ensures Filter(a + b, t) == Filter(a, t) + Filter(b, t)
    decreases |b|
  {
    if b != [] {
      var init, last := b[..|b| - 1], b[|b| - 1];
      assert b == init + [last];
      assert a + b == (a + init) + [last];
      FilterSnoc(a + init, last, t);
      FilterAppend(a, init, t);
      FilterSnoc(init, last, t);
      Associative(Filter(a, t), Filter(init, t), Keep(last, t));
    } else {
      assert a + b == a;
    }
  }

  /** A record is kept exactly when it is among the input and satisfies `keep`. */
  lemma {:induction false} FilterMembers(ps: seq<Publication>, keep: YearTest, p: Publication)
    ensures p in Filter(ps, keep) <==> p in ps && Passes(keep, p)
  {
    if ps != [] {
      var init, last := ps[..|ps| - 1], ps[|ps| - 1];
      assert ps == init + [last];
      FilterMembers(init, keep, p);
    }
  }

  /** The records a filter keeps and the records it drops add up to the input. */
  lemma {:induction false} FilterCount(ps: seq<Publication>, keep: YearTest, drop: YearTest)
    requires forall p :: Passes(drop, p) == !Passes(keep, p)
    ensures |Filter(ps, keep)| + |Filter(ps, drop)| == |ps|
  {
    if ps != [] {
      FilterCount(ps[..|ps| - 1], keep, drop);
    }
  }

  // Sorting

  /** Inserting adds exactly the one record. */
  lemma {:induction false} InsertPermutes(x: Publication, s: seq<Publication>)
    ensures multiset(Insert(x, s)) == multiset(s) + multiset{x}
  {
    if s != [] && s[|s| - 1].year < x.year {
      var init, last := s[..|s| - 1], s[|s| - 1];
      assert s == init + [last];
      InsertPermutes(x, init);
    }
  }

  /** Inserting into a sorted sequence keeps it sorted. */
  lemma {:induction false} InsertSorted(x: Publication, s: seq<Publication>)
    requires SortedDesc(s)
    ensures SortedDesc(Insert(x, s))
  {
    if s != [] && s[|s| - 1].year < x.year {
      var init, last := s[..|s| - 1], s[|s| - 1];
      InsertSorted(x, init);
      var r := Insert(x, init);
      InsertPermutes(x, init);
      forall i | 0 <= i < |r| ensures r[i].year >= last.year {
        assert r[i] in multiset(init) + multiset{x};
        if r[i] != x {
          var k :| 0 <= k < |init| && init[k] == r[i];
          assert s[k] == init[k];
        }
      }
      assert Insert(x, s) == r + [last];
    }
  }

  /** Inserting leaves the records of every other year in place and puts `x` last among its own year. */
  lemma {:induction false} InsertStable(x: Publication, s: seq<Publication>, y: int)
    ensures Filter(Insert(x, s), DatedIn(y)) == Filter(s, DatedIn(y)) + Keep(x, DatedIn(y))
  {
    var t := DatedIn(y);
    if s == [] || s[|s| - 1].year >= x.year {
      FilterSnoc(s, x, t);
    } else {
      var init, last := s[..|s| - 1], s[|s| - 1];
      assert s == init + [last];
      var r := Insert(x, init);
      assert Insert(x, s) == r + [last];
      InsertStable(x, init, y);
      FilterSnoc(r, last, t);
      FilterSnoc(init, last, t);
      assert Keep(x, t) + Keep(last, t) == Keep(last, t) + Keep(x, t);
    }
  }

  /** The sort's output is ordered newest first. */
  lemma {:induction false} SortDescSorted(ps: seq<Publication>)
    ensures SortedDesc(SortDesc(ps))
  {
    if ps != [] {
      SortDescSorted(ps[..|ps| - 1]);
      InsertSorted(ps[|ps| - 1], SortDesc(ps[..|ps| - 1]));
    }
  }

  /** The sort's output holds exactly the input records. */
  lemma {:induction false} SortDescPermutes(ps: seq<Publication>)
    ensures multiset(SortDesc(ps)) == multiset(ps)
  {
    if ps != [] {
      var init, last := ps[..|ps| - 1], ps[|ps| - 1];
      assert ps == init + [last];
      SortDescPermutes(init);
      InsertPermutes(last, SortDesc(init));
    }
  }

  /** The sort is stable: the records of each year keep their input order. */
  lemma {:induction false} SortDescStable(ps: seq<Publication>, y: int)
    ensures Filter(SortDesc(ps), DatedIn(y)) == Filter(ps, DatedIn(y))
  {
    if ps != [] {
      var init, last := ps[..|ps| - 1], ps[|ps| - 1];
      assert ps == init + [last];
      SortDescStable(init, y);
      InsertStable(last, SortDesc(init), y);
      FilterSnoc(init, last, DatedIn(y));
    }
  }

  // The whole pass

  /** Every record the pass keeps has a year, and the matching paper carries the forced year. */
  lemma CleanedRecords(ps: seq<Publication>, p: Publication)
    requires p in Cleaned(ps)
    ensures p.year != 0
    ensures TitleMatches(p) ==> p.year == ForcedYear
  {
    var kept := DropUnknownYear(ForcedAll(ps));
    SortDescPermutes(kept);
    assert p in multiset(kept);
    FilterMembers(ForcedAll(ps), Dated, p);
    var i :| 0 <= i < |ps| && ForcedAll(ps)[i] == p;
  }

  /** A paper whose title matches survives the pass, with the forced year. */
  lemma MatchSurvives(ps: seq<Publication>, i: nat)
    requires i < |ps| && TitleMatches(ps[i])
    ensures ps[i].(year := ForcedYear) in Cleaned(ps)
  {
    var f := ForcedAll(ps);
    var kept := DropUnknownYear(f);
    assert f[i] == ps[i].(year := ForcedYear);
    FilterMembers(f, Dated, f[i]);
    SortDescPermutes(kept);
    assert f[i] in multiset(Cleaned(ps));
  }

  /**
   * The output is sorted newest first, holds exactly the updated records
   * with a year, and within each year keeps their input order.
   */
  lemma CleanedShape(ps: seq<Publication>, y: int)
    requires y != 0
    ensures SortedDesc(Cleaned(ps))
    ensures multiset(Cleaned(ps)) == multiset(DropUnknownYear(ForcedAll(ps)))
    ensures Filter(Cleaned(ps), DatedIn(y)) == Filter(ForcedAll(ps), DatedIn(y))
  {
    var f := ForcedAll(ps);
    SortDescSorted(DropUnknownYear(f));
    SortDescPermutes(DropUnknownYear(f));
    SortDescStable(DropUnknownYear(f), y);
    YearOfKept(f, y);
  }

  /** Keeping the records with a year keeps every record of a given non-zero year. */
  lemma {:induction false} YearOfKept(ps: seq<Publication>, y: int)
    requires y != 0
    ensures Filter(DropUnknownYear(ps), DatedIn(y)) == Filter(ps, DatedIn(y))
  {
    if ps != [] {
      var init, last := ps[..|ps| - 1], ps[|ps| - 1];
      assert ps == init + [last];
      var t := DatedIn(y);
      YearOfKept(init, y);
      FilterSnoc(init, last, Dated);
      FilterSnoc(init, last, t);
      var kept, e := DropUnknownYear(init), Keep(last, Dated);
      FilterAppend(kept, e, t);
      if last.year != 0 {
        FilterSnoc([], last, t);
        assert [] + [last] == [last];
      }
    }
  }

  /** The removed count is the number of updated records without a year. */
  lemma RemovedCount(ps: seq<Publication>)
    ensures |ps| - |Cleaned(ps)| == |Filter(ForcedAll(ps), Undated)|
  {
    FilterCount(ForcedAll(ps), Dated, Undated);
  }

  /** Updating a sequence with one more record at the end. */
  lemma ForcedAllSnoc(ps: seq<Publication>, p: Publication)
    ensures ForcedAll(ps + [p]) == ForcedAll(ps) + [Forced(p)]
  {
  }

  /** Two sequences of the same length with one more element each are equal exactly when both parts are. */
  lemma SnocEqual<T>(a: seq<T>, x: T, b: seq<T>, y: T)
    requires |a| == |b|
    ensures a + [x] == b + [y] <==> a == b && x == y
  {
    if a + [x] == b + [y] {
      assert a == (a + [x])[..|a|] && b == (b + [y])[..|b|];
      assert x == (a + [x])[|a|] && y == (b + [y])[|b|];
    }
  }

  /** The update count is zero exactly when the update loop changes nothing. */
  lemma {:induction false} UpdateCountZero(ps: seq<Publication>)
    ensures UpdateCount(ps) == 0 <==> ForcedAll(ps) == ps
  {
    if ps != [] {
      var init, last := ps[..|ps| - 1], ps[|ps| - 1];
      assert ps == init + [last];
      UpdateCountZero(init);
      ForcedAllSnoc(init, last);
      SnocEqual(ForcedAll(init), Forced(last), init, last);
    }
  }

  /** The update count over a prefix one record longer. */
  lemma UpdateCountStep(ps: seq<Publication>, i: nat)
    requires i < |ps|
    ensures UpdateCount(ps[..i + 1]) == UpdateCount(ps[..i]) + (if NeedsUpdate(ps[i]) then 1 else 0)
  {
    assert ps[..i + 1][..i] == ps[..i];
  }

  // The pass as the script runs it

  /**
   * The update loop: forces the year of every matching record in place and
   * returns how many records it changed.
   */
  method ForceYear(a: array<Publication>) returns (updated: nat)
    modifies a
    ensures a[..] == ForcedAll(old(a[..]))
    ensures updated == UpdateCount(old(a[..]))
  {
    ghost var orig := a[..];
    updated := 0;
    for i := 0 to a.Length
      invariant forall k :: 0 <= k < i ==> a[k] == Forced(orig[k])
      invariant forall k :: i <= k < a.Length ==> a[k] == orig[k]
      invariant updated == UpdateCount(orig[..i])
    {
      var changed := ForceAt(a, i);
      UpdateCountStep(orig, i);
      if changed {
        updated := updated + 1;
      }
    }
    assert orig[..a.Length] == orig;
  }

  /** The body of the update loop for the record at `i`; reports whether it changed it. */
  method ForceAt(a: array<Publication>, i: nat) returns (changed: bool)
    requires i < a.Length
    modifies a
    ensures a[i] == Forced(old(a[i])) && changed == NeedsUpdate(old(a[i]))
    ensures forall k :: 0 <= k < a.Length && k != i ==> a[k] == old(a[k])
  {
    var p := a[i];
    changed := false;
    if TitleMatches(p) {
      if p.year != ForcedYear {
        a[i] := p.(year := ForcedYear);
        changed := true;
      }
    }
  }

  /** The in-place sort: a stable insertion sort by year, newest first. */
  method SortByYearDesc(a: array<Publication>)
    modifies a
    ensures a[..] == SortDesc(old(a[..]))
  {
    ghost var orig := a[..];
    for i := 0 to a.Length
      invariant a[..i] == SortDesc(orig[..i])
      invariant a[i..] == orig[i..]
    {
      assert orig[..i + 1][..i] == orig[..i];
      InsertAt(a, i);
    }
    assert orig[..a.Length] == orig;
  }

  /** Moves `a[i]` left past the records of an older year before it. */
  method InsertAt(a: array<Publication>, i: nat)
    requires i < a.Length
    modifies a
    ensures a[..i + 1] == Insert(old(a[i]), old(a[..i]))
    ensures a[i + 1..] == old(a[i + 1..])
  {
    ghost var s := a[..i];
    var key := a[i];
    var j := i;
    while j > 0 && a[j - 1].year < key.year
      invariant 0 <= j <= i
      invariant a[..j] == s[..j]
      invariant a[j + 1..i + 1] == s[j..]
      invariant a[i + 1..] == old(a[i + 1..])
      invariant Insert(key, s) == Insert(key, s[..j]) + s[j..]
      decreases j
    {
      InsertShift(key, s, j);
      a[j] := a[j - 1];
      j := j - 1;
    }
    a[j] := key;
    InsertStop(key, s, j);
    assert a[..i + 1] == a[..j] + [a[j]] + a[j + 1..i + 1];
  }

  /** One step of the insertion loop: `x` moves left past an older record. */
  lemma InsertShift(x: Publication, s: seq<Publication>, j: nat)
    requires 0 < j <= |s| && s[j - 1].year < x.year
    ensures Insert(x, s[..j]) + s[j..] == Insert(x, s[..j - 1]) + s[j - 1..]
  {
    assert s[..j][..j - 1] == s[..j - 1];
    Associative(Insert(x, s[..j - 1]), [s[j - 1]], s[j..]);
    assert [s[j - 1]] + s[j..] == s[j - 1..];
  }

  /** Where the insertion loop stops, `x` goes right there. */
  lemma InsertStop(x: Publication, s: seq<Publication>, j: nat)
    requires j <= |s| && (j == 0 || s[j - 1].year >= x.year)
    ensures Insert(x, s[..j]) == s[..j] + [x]
  {
  }

  /**
   * The whole pass: updates the records of `a` in place, then returns the
   * records with a year, sorted, with the update and removal counts.
   */
  method CleanUp(a: array<Publication>) returns (clean: array<Publication>, updated: nat, removed: int)
    modifies a
    ensures a[..] == ForcedAll(old(a[..]))
    ensures updated == UpdateCount(old(a[..]))
    ensures fresh(clean) && clean[..] == Cleaned(old(a[..]))
    ensures removed == a.Length - clean.Length
    ensures removed == |Filter(ForcedAll(old(a[..])), Undated)|
  {
    ghost var orig := a[..];
    updated := ForceYear(a);
    var kept := DropUnknownYear(a[..]);
    clean := new Publication[|kept|](k requires 0 <= k < |kept| => kept[k]);
    assert clean[..] == kept;
    SortByYearDesc(clean);
    removed := a.Length - clean.Length;
    RemovedCount(orig);
  }
}
