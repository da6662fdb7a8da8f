/**
 * The LaTeX bibliography parser: it cuts the `enumerate` list out of the
 * file, strips comments, splits the list at `\item`, tracks whether the items
 * are journal papers or books and chapters, and turns each item whose macro
 * has three brace arguments into a publication record.
 */
module LatexParser {
  import opened Wrappers
  import opened Text
  import opened Records
  import opened TexClean
  import opened Fields
  import opened BraceScan

  const BeginList := "\\begin{enumerate}"
  const EndList := "\\end{enumerate}"
  const ItemMark := "\\item"
  /** The section title whose presence in an item switches later items to books. */
  const BooksTitle := "Books \\& Chapters"
  const BooksHeading := "{\\bf Books \\& Chapters:}"
  const VSpace := "\\vspace{24pt}"
  const HSpace := "\\hspace{-0.4in}"

  /** Python's `s[a:b]` for `0 <= a`, `0 <= b`. */
  function Slice(s: string, a: nat, b: nat): (r: string)
    ensures |r| <= |s|
    ensures a <= b <= |s| ==> r == s[a..b]
    ensures b <= a ==> r == []
  {
    if a >= b || a >= |s| then [] else s[a..if b <= |s| then b else |s|]
  }

  /** Length of the first line of `s`, without its `\n` (what `.*` matches). */
  function LineLen(s: string): (n: nat)
    ensures n <= |s|
    ensures forall k :: 0 <= k < n ==> s[k] != '\n'
    ensures n < |s| ==> s[n] == '\n'
  {
    if s == [] || s[0] == '\n' then 0 else 1 + LineLen(s[1..])
  }

  /**
   * `re.sub(r'(?<!\\)%.*', '', s)`: every `%` not preceded by a backslash is
   * removed with the rest of its line; `afterBackslash` says whether the
   * character before `s` is a backslash. The line break itself stays.
   */
  function StripComments(s: string, afterBackslash: bool): (r: string)
    decreases |s|
    ensures |r| <= |s|
    ensures '%' !in s ==> r == s
    ensures |r| > 0 && r[0] == '%' ==> afterBackslash
    ensures forall j, k :: 0 <= j < |r| - 1 && k == j + 1 && r[k] == '%' ==> r[j] == '\\'
  {
    if s == [] then []
    else if s[0] == '%' && !afterBackslash then
      var n := LineLen(s);
      assert s == s[..n] + s[n..];
      assert '\n' !in s[..n];
      StripComments(s[n..], false)
    else
      assert s == [s[0]] + s[1..];
      [s[0]] + StripComments(s[1..], s[0] == '\\')
  }

  /** Comment removal never removes a line break. */
  lemma {:induction false} StripKeepsLineBreaks(s: string, afterBackslash: bool)
    ensures multiset(StripComments(s, afterBackslash))['\n'] == multiset(s)['\n']
    decreases |s|
  {
    if s != [] {
      if s[0] == '%' && !afterBackslash {
        var n := LineLen(s);
        assert s == s[..n] + s[n..];
        assert '\n' !in s[..n];
        StripKeepsLineBreaks(s[n..], false);
      } else {
        assert s == [s[0]] + s[1..];
        StripKeepsLineBreaks(s[1..], s[0] == '\\');
      }
    }
  }

  /**
   * Every `%` in `x` is escaped: preceded by a backslash, or, for the first
   * character, by a backslash just before `x` when `afterBackslash` holds.
   */
  predicate PercentsEscaped(x: string, afterBackslash: bool)
  {
    && (x != [] && x[0] == '%' ==> afterBackslash)
    && forall j, k :: 0 <= j < |x| - 1 && k == j + 1 && x[k] == '%' ==> x[j] == '\\'
  }

  /** Whether the character just before the text following `x` is a backslash. */
  function EndsInBackslash(x: string, afterBackslash: bool): bool
  {
    if x == [] then afterBackslash else x[|x| - 1] == '\\'
  }

  /** Where no comment starts, comment removal copies one character. */
  lemma StripStep(s: string, afterBackslash: bool)
    requires s != [] && (s[0] == '%' ==> afterBackslash)
    ensures StripComments(s, afterBackslash) == [s[0]] + StripComments(s[1..], s[0] == '\\')
  {
  }

  lemma PercentsEscapedTail(x: string, afterBackslash: bool)
    requires x != [] && PercentsEscaped(x, afterBackslash)
    ensures PercentsEscaped(x[1..], x[0] == '\\')
  {
    var t := x[1..];
    forall j, k | 0 <= j < |t| - 1 && k == j + 1 && t[k] == '%'
      ensures t[j] == '\\'
    {
      assert x[k + 1] == '%' && t[j] == x[j + 1];
    }
    assert t != [] && t[0] == '%' ==> x[0] == '\\' by {
      if t != [] {
        assert t[0] == x[1];
      }
    }
  }

  /** Text holding only escaped `%` signs is kept verbatim, and stripping goes on after it. */
  lemma {:induction false} StripSkip(x: string, rest: string, afterBackslash: bool)
    requires PercentsEscaped(x, afterBackslash)
    ensures StripComments(x + rest, afterBackslash) == x + StripComments(rest, EndsInBackslash(x, afterBackslash))
    decreases |x|
  {
    if x == [] {
      assert x + rest == rest;
    } else {
      var b := EndsInBackslash(x, afterBackslash);
      assert StripComments(x + rest, afterBackslash) == [x[0]] + StripComments(x[1..] + rest, x[0] == '\\') by {
        AppendTail(x, rest);
        StripStep(x + rest, afterBackslash);
      }
      assert StripComments(x[1..] + rest, x[0] == '\\') == x[1..] + StripComments(rest, b) by {
        PercentsEscapedTail(x, afterBackslash);
        StripSkip(x[1..], rest, x[0] == '\\');
        assert EndsInBackslash(x[1..], x[0] == '\\') == b;
      }
      ConsAppend(x, StripComments(rest, b));
    }
  }

  /** An unescaped `%` removes itself and the rest of its line, and stripping goes on at the line break. */
  lemma CommentLine(c: string, z: string)
    requires '\n' !in c
    requires z == [] || z[0] == '\n'
    ensures StripComments("%" + c + z, false) == StripComments(z, false)
  {
    var s := "%" + c + z;
    var n := LineLen(s);
    assert forall k :: 1 <= k < 1 + |c| ==> s[k] == c[k - 1];
    assert z != [] ==> s[1 + |c|] == z[0];
    assert n == 1 + |c|;
    assert s[n..] == z;
  }

  /**
   * The comment rule on one line: the text before the first unescaped `%`
   * is kept as it is, the comment up to the line break is removed, and
   * stripping resumes at the line break.
   */
  lemma CommentDropped(x: string, c: string, z: string, afterBackslash: bool)
    requires PercentsEscaped(x, afterBackslash) && !EndsInBackslash(x, afterBackslash)
    requires '\n' !in c
    requires z == [] || z[0] == '\n'
    ensures StripComments(x + "%" + c + z, afterBackslash) == x + StripComments(z, false)
  {
    assert x + "%" + c + z == x + ("%" + c + z);
    StripSkip(x, "%" + c + z, afterBackslash);
    CommentLine(c, z);
  }

  /** The raw items: what follows each `\item` in the comment-free list. */
  function Items(block: string): (items: seq<string>)
    ensures forall k :: 0 <= k < |items| ==> !Contains(items[k], ItemMark)
  {
    SplitOn(block, ItemMark)[1..]
  }

  /**
   * The list with comments removed, from the first `\begin{enumerate}` up to
   * the first `\end{enumerate}`; `None` when either is missing.
   */
  function ListBlock(content: string): (r: Option<string>)
    ensures r.None? <==> !Contains(content, BeginList) || !Contains(content, EndList)
  {
    match (Find(content, BeginList), Find(content, EndList))
    case (Some(a), Some(b)) => Some(StripComments(Slice(content, a, b), false))
    case _ => None
  }

  /** An item made ready for parsing, and whether it carried the books heading. */
  datatype Prepared = Prepared(text: string, heading: bool)

  /**
   * An item holding the books title loses the heading and the spacing
   * commands around it; every item is then stripped of surrounding blanks.
   */
  function Prepare(raw: string): Prepared
  {
    if Contains(raw, BooksTitle) then
      var s := ReplaceAll(ReplaceAll(ReplaceAll(raw, BooksHeading, ""), VSpace, ""), HSpace, "");
      Prepared(Trim(s), true)
    else
      Prepared(Trim(raw), false)
  }

  /**
   * Preparation flags exactly the items holding the books title, leaves the
   * others as they were apart from surrounding blanks, and never leaves a
   * blank at either end.
   */
  lemma PrepareShape(raw: string)
    ensures Prepare(raw).heading <==> Contains(raw, BooksTitle)
    ensures !Prepare(raw).heading ==> Prepare(raw).text == Trim(raw)
    ensures var t := Prepare(raw).text;
      t == [] || (!IsSpace(t[0]) && !IsSpace(t[|t| - 1]))
  {
  }

  /** The publication macros, in the order the search pattern lists them. */
  datatype Macro = MyPub | MyBPub | NewPub | Pub

  /** The macro as written, with its backslash. */
  function Spelling(m: Macro): (w: string)
    ensures |w| >= 4 && w[0] == '\\'
  {
    match m
    case MyPub => "\\mypub"
    case MyBPub => "\\mybpub"
    case NewPub => "\\newpub"
    case Pub => "\\pub"
  }

  /** The alternative of `\\(mypub|mybpub|newpub|pub)` that matches at `i`. */
  function MacroAt(s: string, i: nat): (r: Option<Macro>)
    ensures r.Some? ==> StartsAt(s, i, Spelling(r.value))
    ensures r.None? <==> forall m :: !StartsAt(s, i, Spelling(m))
  {
    if StartsAt(s, i, Spelling(MyPub)) then Some(MyPub)
    else if StartsAt(s, i, Spelling(MyBPub)) then Some(MyBPub)
    else if StartsAt(s, i, Spelling(NewPub)) then Some(NewPub)
    else if StartsAt(s, i, Spelling(Pub)) then Some(Pub)
    else None
  }

  predicate IsMacroAt(s: string, i: nat)
  {
    MacroAt(s, i).Some?
  }

  /** The first macro of an item and where its arguments may begin. */
  datatype Head = Head(macro: Option<Macro>, start: nat)

  /**
   * The leftmost macro and the index just past its name; without one the
   * arguments are read from the start of the item in title-first order.
   */
  function ItemHead(text: string): (h: Head)
    ensures h.start <= |text|
    ensures h.macro.None? <==> forall i: nat :: !IsMacroAt(text, i)
    ensures h.macro.None? ==> h.start == 0
    ensures h.macro.Some? ==>
      && h.start >= |Spelling(h.macro.value)|
      && StartsAt(text, h.start - |Spelling(h.macro.value)|, Spelling(h.macro.value))
  {
    match FirstFrom(text, IsMacroAt, 0)
    case None => Head(None, 0)
    case Some(i) =>
      var m := MacroAt(text, i).value;
      Head(Some(m), i + |Spelling(m)|)
  }

  /**
   * The macro the item starts from is the leftmost match, and at that
   * position the first alternative of the pattern that matches.
   */
  lemma ItemHeadLeftmost(text: string, i: nat)
    requires IsMacroAt(text, i) && forall j: nat :: j < i ==> !IsMacroAt(text, j)
    ensures ItemHead(text) == Head(MacroAt(text, i), i + |Spelling(MacroAt(text, i).value)|)
  {
    FirstFromLeftmost(text, IsMacroAt, i);
  }

  /** `\newpub` lists authors before title; the other macros title first. */
  function TitleAndAuthors(macro: Option<Macro>, args: seq<string>): (ta: (string, string))
    requires |args| >= 2
    ensures macro == Some(NewPub) ==> ta == (args[1], args[0])
    ensures macro != Some(NewPub) ==> ta == (args[0], args[1])
  {
    if macro == Some(NewPub) then (args[1], args[0]) else (args[0], args[1])
  }

  /** The field invariants every emitted record satisfies. */
  predicate WellFormed(p: Publication)
  {
    && 0 <= p.year <= 9999
    && Tidy(p.title) && Tidy(p.authors) && Tidy(p.venue)
    && (forall k :: 0 <= k < |p.doi| ==> !IsSpace(p.doi[k]))
    && (p.doi == [] || p.doi[|p.doi| - 1] != '}')
    && (p.note == [] || (|p.note| > 4 && p.note[..4] == "IF: "))
  }

  /** The record an item yields once its three arguments and its tail are known. */
  function Record(macro: Option<Macro>, args: seq<string>, tail: string, kind: PubType): (p: Publication)
    requires |args| == 3
  {
    var (titleTex, authorsTex) := TitleAndAuthors(macro, args);
    var venue := CleanTex(args[2]);
    Publication(Year(venue, tail), CleanTex(titleTex), CleanTex(authorsTex), venue,
                Doi(tail), ImpactNote(tail), kind)
  }

  /** Every record satisfies the field invariants and carries the section it is given. */
  lemma RecordShape(macro: Option<Macro>, args: seq<string>, tail: string, kind: PubType)
    requires |args| == 3
    ensures Record(macro, args, tail, kind).kind == kind
    ensures WellFormed(Record(macro, args, tail, kind))
  {
  }

  /** One prepared item: a record, or `None` when fewer than three arguments close. */
  function ParseItem(text: string, kind: PubType): (r: Option<Publication>)
    ensures r.None? <==> |ScanFrom(text, ItemHead(text).start, 0, [], []).args| < 3
  {
    var head := ItemHead(text);
    var scan := ScanFrom(text, head.start, 0, [], []);
    if |scan.args| < 3 then None
    else Some(Record(head.macro, scan.args, text[scan.next..], kind))
  }

  /** Every raw item, prepared. */
  function PrepareAll(items: seq<string>): (ps: seq<Prepared>)
    ensures |ps| == |items|
    ensures forall k :: 0 <= k < |items| ==> ps[k] == Prepare(items[k])
  {
    seq(|items|, k requires 0 <= k < |items| => Prepare(items[k]))
  }

  /** The section after a prepared item: a non-blank item carrying the heading switches to books. */
  function KindAfter(p: Prepared, kind: PubType): (t: PubType)
    ensures kind == Book ==> t == Book
  {
    if p.text != [] && p.heading then Book else kind
  }

  /**
   * The section of the prepared item at index `k`: journals until a
   * non-blank item carrying the heading has been passed, books after it.
   */
  function KindAt(ps: seq<Prepared>, k: nat): (t: PubType)
    requires k <= |ps|
  {
    if k == 0 then Journal else KindAfter(ps[k - 1], KindAt(ps, k - 1))
  }

  /** A record an item yields carries the item's section and satisfies the field invariants. */
  lemma ParseItemShape(text: string, kind: PubType)
    ensures ParseItem(text, kind).Some? ==> ParseItem(text, kind).value.kind == kind
    ensures ParseItem(text, kind).Some? ==> WellFormed(ParseItem(text, kind).value)
  {
    var head := ItemHead(text);
    var scan := ScanFrom(text, head.start, 0, [], []);
    if |scan.args| == 3 {
      RecordShape(head.macro, scan.args, text[scan.next..], kind);
    }
  }

  /** What parsing one prepared item in section `kind` gives: nothing for a blank item, else its record or `None`. */
  function ItemOutcome(p: Prepared, kind: PubType): Option<Publication>
  {
    if p.text == [] then None else ParseItem(p.text, kind)
  }

  /** The outcome of the prepared item at `k`, in the section it falls in. */
  function Outcome(ps: seq<Prepared>, k: nat): Option<Publication>
    requires k < |ps|
  {
    ItemOutcome(ps[k], KindAt(ps, k))
  }

  /** The outcome of every prepared item, in order. */
  function Outcomes(ps: seq<Prepared>): (outs: seq<Option<Publication>>)
    ensures |outs| == |ps|
  {
    seq(|ps|, k requires 0 <= k < |ps| => Outcome(ps, k))
  }

  /** The record an outcome contributes, if any. */
  function Emit(o: Option<Publication>): (e: seq<Publication>)
    ensures |e| <= 1 && (e != [] <==> o.Some?)
    ensures o.Some? ==> e[0] == o.value
  {
    match o
    case None => []
    case Some(p) => [p]
  }

  /** The records among a sequence of outcomes, in order. */
  function Gather(outs: seq<Option<Publication>>): (pubs: seq<Publication>)
    ensures |pubs| <= |outs|
  {
    if outs == [] then [] else Gather(outs[..|outs| - 1]) + Emit(outs[|outs| - 1])
  }

  /** One more outcome adds its record, if any, at the end. */
  lemma GatherAppend(outs: seq<Option<Publication>>, o: Option<Publication>)
    ensures Gather(outs + [o]) == Gather(outs) + Emit(o)
  {
    assert (outs + [o])[..|outs|] == outs;
  }

  lemma PrefixStep<T>(xs: seq<T>, k: nat)
    requires k < |xs|
    ensures xs[..k + 1] == xs[..k] + [xs[k]]
  {
  }

  /** Everything the parser returns for a file's contents. */
  function Publications(content: string): (pubs: seq<Publication>)
  {
    match ListBlock(content)
    case None => []
    case Some(block) => Gather(Outcomes(PrepareAll(Items(block))))
  }

  /**
   * The body of the item loop after preparation: find the macro, scan its
   * three arguments and build the record, or give up on a malformed item.
   */
  method ParseItemText(text: string, kind: PubType) returns (r: Option<Publication>)
    ensures r == ParseItem(text, kind)
  {
    var head := ItemHead(text);
    var args, scanIdx := ScanArgs(text, head.start);
    if |args| < 3 {
      return None;
    }
    return Some(Record(head.macro, args, text[scanIdx..], kind));
  }

  /**
   * The first half of the item loop's body: an item holding the books title
   * loses the heading and its spacing commands, and is then stripped.
   */
  method PrepareItem(raw: string) returns (text: string, heading: bool)
    ensures Prepared(text, heading) == Prepare(raw)
  {
    text := raw;
    heading := false;
    if Contains(text, BooksTitle) {
      text := ReplaceAll(text, BooksHeading, "");
      text := ReplaceAll(text, VSpace, "");
      text := ReplaceAll(text, HSpace, "");
      heading := true;
    }
    text := Trim(text);
  }

  /**
   * The item loop: blank items are passed over, malformed items only move
   * the section state, well-formed ones add a record of the current section.
   */
  method ParseItems(rawItems: seq<string>) returns (pubs: seq<Publication>)
    ensures pubs == Gather(Outcomes(PrepareAll(rawItems)))
  {
    ghost var ps := PrepareAll(rawItems);
    ghost var outs: seq<Option<Publication>> := [];
    var currentType := Journal;
    pubs := [];
    for k := 0 to |rawItems|
      invariant currentType == KindAt(ps, k)
      invariant outs == Outcomes(ps)[..k]
      invariant pubs == Gather(outs)
    {
      var parsed, nextType := ParseItem1(rawItems[k], currentType);
      PrefixStep(Outcomes(ps), k);
      GatherAppend(outs, parsed);
      outs := outs + [parsed];
      if parsed.Some? {
        pubs := pubs + [parsed.value];
      }
      currentType := nextType;
    }
    assert Outcomes(ps)[..|rawItems|] == Outcomes(ps);
  }

  /**
   * The body of the item loop: prepare the item, pass over it when blank,
   * otherwise parse it; the section moves on past a non-blank heading item.
   */
  method ParseItem1(raw: string, currentType: PubType) returns (parsed: Option<Publication>, nextType: PubType)
    ensures parsed == ItemOutcome(Prepare(raw), currentType)
    ensures nextType == KindAfter(Prepare(raw), currentType)
  {
    var rawItem, heading := PrepareItem(raw);
    nextType := if heading then Book else currentType;
    if rawItem == [] {
      return None, currentType;
    }
    parsed := ParseItemText(rawItem, currentType);
  }

  /**
   * The parser over the file's contents: the list between the first
   * `\begin{enumerate}` and the first `\end{enumerate}`, without comments,
   * split at `\item`; no records when either marker is missing.
   */
  method ParseLatexPublications(content: string) returns (pubs: seq<Publication>)
    ensures pubs == Publications(content)
    ensures !Contains(content, BeginList) || !Contains(content, EndList) ==> pubs == []
  {
    var startIdx := Find(content, BeginList);
    var endIdx := Find(content, EndList);
    if startIdx.None? || endIdx.None? {
      return [];
    }
    var itemsBlock := Slice(content, startIdx.value, endIdx.value);
    itemsBlock := StripComments(itemsBlock, false);
    var rawItems := SplitOn(itemsBlock, ItemMark)[1..];
    pubs := ParseItems(rawItems);
  }

  /** An item belongs to the books section exactly when an earlier non-blank item carried the heading. */
  lemma {:induction false} KindAtBook(ps: seq<Prepared>, k: nat)
    requires k <= |ps|
    ensures KindAt(ps, k) == Book <==> exists j :: 0 <= j < k && ps[j].text != [] && ps[j].heading
  {
    if k > 0 {
      KindAtBook(ps, k - 1);
      if ps[k - 1].text != [] && ps[k - 1].heading {
        assert KindAt(ps, k) == Book;
      }
    }
  }

  /** In a sequence of records, every record after a book is a book too. */
  predicate BooksLast(pubs: seq<Publication>)
  {
    forall i, j :: 0 <= i < j < |pubs| && pubs[i].kind == Book ==> pubs[j].kind == Book
  }

  /** Once an item is in the books section, so is every later one. */
  lemma KindAtStaysBook(ps: seq<Prepared>, k: nat, n: nat)
    requires k <= n <= |ps| && KindAt(ps, k) == Book
    decreases n - k
    ensures KindAt(ps, n) == Book
  {
    if k < n {
      assert KindAt(ps, k + 1) == Book;
      KindAtStaysBook(ps, k + 1, n);
    }
  }

  /**
   * Appending at most one record of the current section keeps books last,
   * provided the section never goes back from books to journals.
   */
  lemma BooksLastAppend(prev: seq<Publication>, e: seq<Publication>, kind: PubType, next: PubType)
    requires BooksLast(prev)
    requires forall i :: 0 <= i < |prev| && prev[i].kind == Book ==> kind == Book
    requires |e| <= 1 && (e != [] ==> e[0].kind == kind)
    requires kind == Book ==> next == Book
    ensures BooksLast(prev + e)
    ensures forall i :: 0 <= i < |prev + e| && (prev + e)[i].kind == Book ==> next == Book
  {
    var c := prev + e;
    forall i, j | 0 <= i < j < |c| && c[i].kind == Book
      ensures c[j].kind == Book
    {
      if j < |prev| {
        assert prev[i].kind == Book;
      } else if i < |prev| {
        assert prev[i].kind == Book;
      }
    }
  }

  /** Every outcome's record carries the section of its item. */
  predicate KindsMatch(outs: seq<Option<Publication>>, ps: seq<Prepared>)
    requires |outs| <= |ps|
  {
    forall k :: 0 <= k < |outs| && outs[k].Some? ==> outs[k].value.kind == KindAt(ps, k)
  }

  /** Every outcome's record satisfies the field invariants. */
  predicate AllWellFormed(outs: seq<Option<Publication>>)
  {
    forall k :: 0 <= k < |outs| && outs[k].Some? ==> WellFormed(outs[k].value)
  }

  /** The outcomes of the items carry their sections and satisfy the field invariants. */
  lemma OutcomesShape(ps: seq<Prepared>)
    ensures KindsMatch(Outcomes(ps), ps)
    ensures AllWellFormed(Outcomes(ps))
  {
    forall k | 0 <= k < |ps|
      ensures Outcome(ps, k).Some? ==> Outcome(ps, k).value.kind == KindAt(ps, k) && WellFormed(Outcome(ps, k).value)
    {
      ParseItemShape(ps[k].text, KindAt(ps, k));
    }
  }

  /** Records gathered from outcomes that carry their items' sections: books come last. */
  lemma {:induction false} GatherKinds(outs: seq<Option<Publication>>, ps: seq<Prepared>)
    requires |outs| <= |ps| && KindsMatch(outs, ps)
    ensures BooksLast(Gather(outs))
    ensures forall i :: 0 <= i < |Gather(outs)| && Gather(outs)[i].kind == Book ==> KindAt(ps, |outs|) == Book
  {
    if outs != [] {
      var n := |outs|;
      var init := outs[..n - 1];
      assert KindsMatch(init, ps) by {
        forall k | 0 <= k < |init| && init[k].Some? ensures init[k].value.kind == KindAt(ps, k) {
          assert init[k] == outs[k];
        }
      }
      GatherKinds(init, ps);
      if KindAt(ps, n - 1) == Book {
        KindAtStaysBook(ps, n - 1, n);
      }
      BooksLastAppend(Gather(init), Emit(outs[n - 1]), KindAt(ps, n - 1), KindAt(ps, n));
    }
  }

  /** Records gathered from well-formed outcomes are well-formed. */
  lemma {:induction false} GatherWellFormed(outs: seq<Option<Publication>>)
    requires AllWellFormed(outs)
    ensures forall i :: 0 <= i < |Gather(outs)| ==> WellFormed(Gather(outs)[i])
  {
    if outs != [] {
      var n := |outs|;
      var init := outs[..n - 1];
      assert AllWellFormed(init) by {
        forall k | 0 <= k < |init| && init[k].Some? ensures WellFormed(init[k].value) {
          assert init[k] == outs[k];
        }
      }
      GatherWellFormed(init);
      var prev := Gather(init);
      var e := Emit(outs[n - 1]);
      assert Gather(outs) == prev + e;
      forall i | 0 <= i < |prev + e| ensures WellFormed((prev + e)[i]) {
        if i < |prev| {
          assert (prev + e)[i] == prev[i];
        } else {
          assert (prev + e)[i] == outs[n - 1].value;
        }
      }
    }
  }

  /**
   * The records come out journals first, then books and chapters, and each
   * satisfies the field invariants.
   */
  lemma PublicationsShape(content: string)
    ensures BooksLast(Publications(content))
    ensures forall i :: 0 <= i < |Publications(content)| ==> WellFormed(Publications(content)[i])
  {
    match ListBlock(content)
    case None =>
    case Some(block) =>
      var ps := PrepareAll(Items(block));
      OutcomesShape(ps);
      GatherKinds(Outcomes(ps), ps);
      GatherWellFormed(Outcomes(ps));
  }

  /**
   * Where the item's arguments are three balanced brace groups after its
   * macro, the record is built from those three groups and the rest of the
   * item after the third.
   */
  lemma ItemArguments(text: string, kind: PubType, a: string, b: string, c: string, n: nat)
    requires TopGroups(text, ItemHead(text).start, []) == Some(Scan([a, b, c], n))
    ensures n <= |text|
    ensures ParseItem(text, kind) == Some(Record(ItemHead(text).macro, [a, b, c], text[n..], kind))
  {
    ThreeGroups(text, ItemHead(text).start, a, b, c, n);
  }

  /**
   * The text fields of a record: authors first for `\newpub`, title first
   * for the other macros, the venue from the third argument.
   */
  lemma RecordFields(macro: Option<Macro>, a: string, b: string, c: string, tail: string, kind: PubType)
    ensures var p := Record(macro, [a, b, c], tail, kind);
      && p.title == CleanTex(if macro == Some(NewPub) then b else a)
      && p.authors == CleanTex(if macro == Some(NewPub) then a else b)
      && p.venue == CleanTex(c)
      && p.kind == kind
  {
    var ta := TitleAndAuthors(macro, [a, b, c]);
    assert ta == if macro == Some(NewPub) then (b, a) else (a, b);
  }

  /** The year, DOI and note of a record come from its venue and the rest of the item. */
  lemma RecordExtras(macro: Option<Macro>, args: seq<string>, tail: string, kind: PubType)
    requires |args| == 3
    ensures var p := Record(macro, args, tail, kind);
      p.year == Year(p.venue, tail) && p.doi == Doi(tail) && p.note == ImpactNote(tail)
  {
  }
}
