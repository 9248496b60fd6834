/**
 * The table-of-contents reconstruction of `PDFParser.get_toc`
 * (ricecooker_utils_pdf.py). The PDF reader hands over its outline as a flat
 * sequence whose elements are destinations and nested lists of
 * sub-destinations; `get_toc` turns it, in one scan with back-patching, into
 * chapter records `{title, page_start, page_end}` with optional `children`.
 *
 * `Toc` below is the scan as a fold over the outline, one `Step` per element.
 * `Flat` (the chapters alone) and `Attach` (one run of sub-destinations) are
 * closed-form reference definitions, and the lemmas connect the two.
 */
module TableOfContents {
  import opened Results

  /** A destination whose `/Page` the reader resolved to a zero-based page. */
  datatype Destination = Destination(title: string, page: int)

  /** One element of the flat outline returned by `getOutlines`. */
  datatype OutlineItem =
    | Resolved(dest: Destination)
    | Unresolved                    // not a destination, or its `/Page` is a null object
    | Group(items: seq<OutlineItem>) // the sub-destinations of the element before it

  /** A subchapter record `{title, page_start, page_end}`. */
  datatype Range = Range(title: string, pageStart: int, pageEnd: int)

  /** A chapter record; `children` is `None` when the record has no `children` key. */
  datatype Chapter = Chapter(title: string, pageStart: int, pageEnd: int, children: Option<seq<Range>>)

  datatype TocError =
    | PathNotFound     // `check_path`: `open` was not called
    | NoParentChapter  // a list element came before any chapter (`chapters[-1]` of an empty list)

  const NoBreakSpace: char := '\U{00A0}'

  /** `title.replace('\xa0', ' ')`. */
  function Clean(s: string): (r: string)
    ensures |r| == |s|
    ensures forall i :: 0 <= i < |s| ==> r[i] == (if s[i] == NoBreakSpace then ' ' else s[i])
    ensures NoBreakSpace !in r
  {
    if |s| == 0 then ""
    else Clean(s[..|s| - 1]) + [if s[|s| - 1] == NoBreakSpace then ' ' else s[|s| - 1]]
  }

  /** The destinations of the resolvable elements of `items`, in outline order. */
  function Destinations(items: seq<OutlineItem>): (ds: seq<Destination>)
    ensures |ds| <= |items|
  {
    if |items| == 0 then []
    else Destinations(items[..|items| - 1])
         + (if items[|items| - 1].Resolved? then [items[|items| - 1].dest] else [])
  }

  /** The children of a chapter record (none when it has no `children` key). */
  function Kids(ch: Chapter): seq<Range>
  {
    match ch.children
    case Some(cs) => cs
    case None => []
  }

  /** The record a resolvable sub-destination becomes, with the provisional end `numPages`. */
  function SubRange(d: Destination, numPages: nat): Range
  {
    Range(Clean(d.title), d.page, numPages)
  }

  /**
   * What one run of sub-destinations `subs` (a list element of the outline,
   * its resolvable members in order) does to the children `children` of the
   * chapter before it: each member is appended as a `SubRange`, and the k-th
   * member (k >= 1, counted from the start of the run) sets the end of
   * `children[k - 1]`, counted from the start of ALL the children. Every index
   * is patched at most once, so the result has this closed form.
   */
  function Attach(children: seq<Range>, subs: seq<Destination>, numPages: nat): (r: seq<Range>)
  {
    seq(|children| + |subs|, j requires 0 <= j < |children| + |subs| =>
      var base := if j < |children| then children[j] else SubRange(subs[j - |children|], numPages);
      if j + 1 < |subs| then base.(pageEnd := subs[j + 1].page) else base)
  }

  /**
   * The back-patch when a later chapter starting at `page` is emitted: the
   * previous chapter ends there, and so does its last child, if any.
   */
  function Close(ch: Chapter, page: int, sub: bool): Chapter
  {
    var closed := ch.(pageEnd := page);
    if sub && |Kids(ch)| > 0 then
      closed.(children := Some(Kids(ch)[|Kids(ch)| - 1 := Kids(ch)[|Kids(ch)| - 1].(pageEnd := page)]))
    else closed
  }

  /** What the scan does with one outline element, given the chapters emitted so far. */
  function Step(chapters: seq<Chapter>, item: OutlineItem, numPages: nat, sub: bool): Result<seq<Chapter>, TocError>
  {
    match item
    case Resolved(d) =>
      var next := Chapter(Clean(d.title), if |chapters| == 0 then 0 else d.page, numPages,
                          if sub then Some([]) else None);
      if |chapters| == 0 then Ok([next])
      else Ok(chapters[|chapters| - 1 := Close(chapters[|chapters| - 1], d.page, sub)] + [next])
    case Group(g) =>
      if !sub then Ok(chapters)
      else if |chapters| == 0 then Err(NoParentChapter)
      else
        var parent := chapters[|chapters| - 1];
        Ok(chapters[|chapters| - 1 := parent.(children := Some(Attach(Kids(parent), Destinations(g), numPages)))])
    case Unresolved => Ok(chapters)
  }

  /** `get_toc(subchapters=sub)` on an outline of a document with `numPages` pages. */
  function Toc(items: seq<OutlineItem>, numPages: nat, sub: bool): Result<seq<Chapter>, TocError>
  {
    if |items| == 0 then Ok([])
    else match Toc(items[..|items| - 1], numPages, sub)
      case Err(e) => Err(e)
      case Ok(chapters) => Step(chapters, items[|items| - 1], numPages, sub)
  }

  /**
   * Reference definition of the chapter level: chapter i comes from the i-th
   * resolvable destination; the first starts at 0, every other one at its
   * page; each ends where the next one starts, the last at `numPages`.
   */
  function Flat(items: seq<OutlineItem>, numPages: nat): seq<Chapter>
  {
    var ds := Destinations(items);
    seq(|ds|, i requires 0 <= i < |ds| =>
      Chapter(Clean(ds[i].title), if i == 0 then 0 else ds[i].page,
              if i + 1 < |ds| then ds[i + 1].page else numPages, None))
  }

  /** The chapter records with their `children` keys removed. */
  function Strip(chapters: seq<Chapter>): seq<Chapter>
  {
    seq(|chapters|, i requires 0 <= i < |chapters| => chapters[i].(children := None))
  }

  /** A list element occurs before the first resolvable destination. */
  ghost predicate GroupBeforeFirstChapter(items: seq<OutlineItem>)
  {
    exists i :: 0 <= i < |items| && items[i].Group? && Destinations(items[..i]) == []
  }

  // ---------------------------------------------------------------------------
  // Lemmas

  lemma PrefixOfAppend<T>(s: seq<T>, x: T)
    ensures (s + [x])[..|s|] == s
  {}

  /** The resolvable destinations of two consecutive parts of an outline. */
  lemma {:induction false} DestinationsAppend(a: seq<OutlineItem>, b: seq<OutlineItem>)
    ensures Destinations(a + b) == Destinations(a) + Destinations(b)
    decreases |b|
  {
    if |b| == 0 {
      assert a + b == a;
    } else {
      var pre := b[..|b| - 1];
      assert (a + b)[..|a + b| - 1] == a + pre;
      DestinationsAppend(a, pre);
    }
  }

  /** A destination is listed exactly when it occurs resolved in the outline. */
  lemma {:induction false} DestinationsMembers(items: seq<OutlineItem>)
    ensures forall d :: d in Destinations(items) <==> Resolved(d) in items
  {
    if |items| > 0 {
      var pre := items[..|items| - 1];
      DestinationsMembers(pre);
      assert items == pre + [items[|items| - 1]];
    }
  }

  /** Once the scan has failed, later elements never make it succeed. */
  lemma {:induction false} TocErrSticky(items: seq<OutlineItem>, k: nat, numPages: nat, sub: bool)
    requires k <= |items| && Toc(items[..k], numPages, sub).Err?
    ensures Toc(items, numPages, sub) == Toc(items[..k], numPages, sub)
    decreases |items| - k
  {
    if k < |items| {
      assert items[..k + 1][..k] == items[..k];
      assert Toc(items[..k + 1], numPages, sub) == Toc(items[..k], numPages, sub);
      TocErrSticky(items, k + 1, numPages, sub);
    } else {
      assert items[..k] == items;
    }
  }

  /** Appending one sub-destination to a run: append its record, then patch index |subs| - 1. */
  lemma AttachStep(children: seq<Range>, subs: seq<Destination>, d: Destination, numPages: nat)
    ensures var grown := Attach(children, subs, numPages) + [SubRange(d, numPages)];
      Attach(children, subs + [d], numPages)
        == if |subs| > 0 then grown[|subs| - 1 := grown[|subs| - 1].(pageEnd := d.page)] else grown
  {
    var grown := Attach(children, subs, numPages) + [SubRange(d, numPages)];
    var expected := if |subs| > 0 then grown[|subs| - 1 := grown[|subs| - 1].(pageEnd := d.page)] else grown;
    var actual := Attach(children, subs + [d], numPages);
    assert |actual| == |expected|;
    forall j | 0 <= j < |actual| ensures actual[j] == expected[j] {
      if j < |children| + |subs| {
        assert grown[j] == Attach(children, subs, numPages)[j];
      }
    }
  }

  /** `after` is `before` with the end of its last record, if any, set to `page`. */
  ghost predicate LastEndPatched(before: seq<Range>, after: seq<Range>, page: int)
  {
    && |after| == |before|
    && (forall k :: 0 <= k < |before| - 1 ==> after[k] == before[k])
    && (|before| > 0 ==> after[|before| - 1] == before[|before| - 1].(pageEnd := page))
  }

  /** Every chapter has a `children` key exactly when subchapters were requested. */
  lemma {:induction false} TocChildrenKey(items: seq<OutlineItem>, numPages: nat, sub: bool)
    requires Toc(items, numPages, sub).Ok?
    ensures forall i :: 0 <= i < |Toc(items, numPages, sub).value| ==>
      Toc(items, numPages, sub).value[i].children.Some? == sub
  {
    if |items| > 0 {
      var pre := items[..|items| - 1];
      TocChildrenKey(pre, numPages, sub);
    }
  }

  /** A list element precedes every chapter in `items + [last]` iff it does in `items` or is `last`. */
  lemma GroupBeforeFirstAppend(items: seq<OutlineItem>, last: OutlineItem)
    ensures GroupBeforeFirstChapter(items + [last])
      <==> GroupBeforeFirstChapter(items) || (last.Group? && Destinations(items) == [])
  {
    var all := items + [last];
    PrefixOfAppend(items, last);
    if GroupBeforeFirstChapter(items) {
      var i :| 0 <= i < |items| && items[i].Group? && Destinations(items[..i]) == [];
      assert all[..i] == items[..i];
    }
    if GroupBeforeFirstChapter(all) {
      var i :| 0 <= i < |all| && all[i].Group? && Destinations(all[..i]) == [];
      if i < |items| {
        assert all[..i] == items[..i];
      }
    }
  }

  /** The scan fails exactly when subchapters are requested and a list precedes every chapter. */
  lemma {:induction false} TocFailsIff(items: seq<OutlineItem>, numPages: nat, sub: bool)
    ensures Toc(items, numPages, sub).Err? <==> sub && GroupBeforeFirstChapter(items)
    ensures Toc(items, numPages, sub).Err? ==> Toc(items, numPages, sub).error == NoParentChapter
  {
    if |items| > 0 {
      var pre := items[..|items| - 1];
      var last := items[|items| - 1];
      TocFailsIff(pre, numPages, sub);
      assert items == pre + [last];
      GroupBeforeFirstAppend(pre, last);
      if Toc(pre, numPages, sub).Ok? {
        ChapterRanges(pre, numPages, sub);
      }
    }
  }

  /** Removing `children` commutes with the back-patch of the previous chapter. */
  lemma StripStep(chapters: seq<Chapter>, item: OutlineItem, numPages: nat, sub: bool)
    requires Step(chapters, item, numPages, sub).Ok?
    ensures Strip(Step(chapters, item, numPages, sub).value) == Strip(Step(Strip(chapters), item, numPages, false).value)
  {
    var s := Step(chapters, item, numPages, sub).value;
    var t := Step(Strip(chapters), item, numPages, false).value;
    match item
    case Resolved(d) =>
      assert |Strip(s)| == |Strip(t)|;
      forall i | 0 <= i < |s| ensures Strip(s)[i] == Strip(t)[i] {
        if i + 1 < |s| {
          assert Strip(s)[i] == chapters[i].(children := None).(pageEnd := if i + 2 == |s| then d.page else chapters[i].pageEnd);
        }
      }
    case Group(g) =>
      assert |Strip(s)| == |Strip(t)|;
      forall i | 0 <= i < |s| ensures Strip(s)[i] == Strip(t)[i] {}
    case Unresolved =>
      assert |Strip(s)| == |Strip(t)|;
      forall i | 0 <= i < |s| ensures Strip(s)[i] == Strip(t)[i] {}
  }

  /** The chapter level of the scan is the reference definition `Flat`. */
  lemma {:induction false} TocIsFlat(items: seq<OutlineItem>, numPages: nat, sub: bool)
    requires Toc(items, numPages, sub).Ok?
    ensures Strip(Toc(items, numPages, sub).value) == Flat(items, numPages)
  {
    if |items| > 0 {
      var pre := items[..|items| - 1];
      var last := items[|items| - 1];
      var chapters := Toc(pre, numPages, sub).value;
      TocIsFlat(pre, numPages, sub);
      StripStep(chapters, last, numPages, sub);
      var s := Step(Strip(chapters), last, numPages, false).value;
      var ds := Destinations(items);
      var dsPre := Destinations(pre);
      assert Strip(chapters) == Flat(pre, numPages);
      match last
      case Resolved(d) =>
        assert ds == dsPre + [d];
        assert |Strip(s)| == |ds|;
        forall i | 0 <= i < |ds| ensures Strip(s)[i] == Flat(items, numPages)[i] {
          if i < |dsPre| {
            assert Flat(pre, numPages)[i] == Flat(items, numPages)[i].(pageEnd := Flat(pre, numPages)[i].pageEnd);
          }
        }
      case Group(g) =>
        assert ds == dsPre;
        assert Strip(s) == Strip(Flat(pre, numPages));
        assert Strip(Flat(pre, numPages)) == Flat(pre, numPages);
      case Unresolved =>
        assert ds == dsPre;
        assert Strip(Flat(pre, numPages)) == Flat(pre, numPages);
    }
  }

  /**
   * The chapter level: one chapter per resolvable destination, in outline
   * order, titles cleaned; the first starts at 0 whatever its page, every
   * other one at its page; consecutive chapters are contiguous and the last
   * one ends at `numPages`. With or without subchapters.
   */
  lemma ChapterRanges(items: seq<OutlineItem>, numPages: nat, sub: bool)
    requires Toc(items, numPages, sub).Ok?
    ensures var chapters := Toc(items, numPages, sub).value;
      var ds := Destinations(items);
      && |chapters| == |ds|
      && (forall i :: 0 <= i < |chapters| ==> chapters[i].title == Clean(ds[i].title))
      && (|chapters| > 0 ==> chapters[0].pageStart == 0)
      && (forall i :: 0 < i < |chapters| ==> chapters[i].pageStart == ds[i].page)
      && (forall i, j :: 0 <= i < j < |chapters| && j == i + 1 ==> chapters[i].pageEnd == chapters[j].pageStart)
      && (|chapters| > 0 ==> chapters[|chapters| - 1].pageEnd == numPages)
  {
    var chapters := Toc(items, numPages, sub).value;
    TocIsFlat(items, numPages, sub);
    assert forall i :: 0 <= i < |chapters| ==> Strip(chapters)[i] == chapters[i].(children := None);
  }

  /** Without subchapters the scan never fails and yields exactly `Flat`: no `children` keys. */
  lemma WithoutSubchapters(items: seq<OutlineItem>, numPages: nat)
    ensures Toc(items, numPages, false) == Ok(Flat(items, numPages))
  {
    TocFailsIff(items, numPages, false);
    TocIsFlat(items, numPages, false);
    TocChildrenKey(items, numPages, false);
    var chapters := Toc(items, numPages, false).value;
    assert Strip(chapters) == chapters;
  }

  /** Asking for subchapters never changes the chapter level. */
  lemma SubchaptersKeepChapters(items: seq<OutlineItem>, numPages: nat)
    requires Toc(items, numPages, true).Ok?
    ensures Toc(items, numPages, false) == Ok(Strip(Toc(items, numPages, true).value))
  {
    WithoutSubchapters(items, numPages);
    TocIsFlat(items, numPages, true);
  }

  /** An unresolvable destination neither emits a chapter nor touches any record. */
  lemma UnresolvedIsSkipped(items: seq<OutlineItem>, numPages: nat, sub: bool)
    ensures Toc(items + [Unresolved], numPages, sub) == Toc(items, numPages, sub)
  {
    PrefixOfAppend(items, Unresolved);
  }

  /**
   * A later chapter starting at page p: the previous chapter now ends at p, so
   * does that chapter's last child if it has one, the new chapter starts at p
   * and ends at `numPages`, and no other record changes.
   */
  lemma NextChapterBackPatches(items: seq<OutlineItem>, d: Destination, numPages: nat, sub: bool)
    requires Toc(items, numPages, sub).Ok? && |Toc(items, numPages, sub).value| > 0
    ensures Toc(items + [Resolved(d)], numPages, sub).Ok?
    ensures var before := Toc(items, numPages, sub).value;
      var after := Toc(items + [Resolved(d)], numPages, sub).value;
      var n := |before|;
      && |after| == n + 1
      && (forall i :: 0 <= i < n - 1 ==> after[i] == before[i])
      && after[n - 1].title == before[n - 1].title
      && after[n - 1].pageStart == before[n - 1].pageStart
      && after[n - 1].pageEnd == d.page
      && after[n - 1].children.Some? == before[n - 1].children.Some?
      && LastEndPatched(Kids(before[n - 1]), Kids(after[n - 1]), d.page)
      && after[n] == Chapter(Clean(d.title), d.page, numPages, if sub then Some([]) else None)
  {
    PrefixOfAppend(items, Resolved(d));
    TocChildrenKey(items, numPages, sub);
  }

  /**
   * A list element right after a chapter: its resolvable members become that
   * chapter's children in order, each starting at its own page (the first is
   * not forced to 0), each ending where the next member starts and the last
   * at `numPages`; unresolvable members and nested lists are skipped.
   */
  lemma RunBecomesChildren(items: seq<OutlineItem>, d: Destination, g: seq<OutlineItem>, numPages: nat)
    requires Toc(items, numPages, true).Ok?
    ensures Toc(items + [Resolved(d), Group(g)], numPages, true).Ok?
    ensures var chapters := Toc(items + [Resolved(d), Group(g)], numPages, true).value;
      var subs := Destinations(g);
      var cs := Kids(chapters[|chapters| - 1]);
      && |chapters| > 0
      && chapters[|chapters| - 1].children.Some?
      && |cs| == |subs|
      && (forall k :: 0 <= k < |cs| ==> cs[k].title == Clean(subs[k].title) && cs[k].pageStart == subs[k].page)
      && (forall k, l :: 0 <= k < l < |cs| && l == k + 1 ==> cs[k].pageEnd == cs[l].pageStart)
      && (|cs| > 0 ==> cs[|cs| - 1].pageEnd == numPages)
  {
    var once := items + [Resolved(d)];
    var twice := items + [Resolved(d), Group(g)];
    assert twice[..|twice| - 1] == once;
    PrefixOfAppend(items, Resolved(d));
    var chapters := Toc(once, numPages, true).value;
    assert Kids(chapters[|chapters| - 1]) == [];
    var cs := Attach([], Destinations(g), numPages);
    assert Toc(twice, numPages, true).value[|chapters| - 1].children == Some(cs);
    FirstRun(Destinations(g), numPages);
  }

  /** The k-th record of a run attached to a chapter without children yet. */
  lemma FirstRunRecord(subs: seq<Destination>, numPages: nat, k: nat)
    requires k < |subs|
    ensures |Attach([], subs, numPages)| == |subs|
    ensures Attach([], subs, numPages)[k]
      == Range(Clean(subs[k].title), subs[k].page, if k + 1 < |subs| then subs[k + 1].page else numPages)
  {
    var base := SubRange(subs[k], numPages);
    assert Attach([], subs, numPages)[k] == if k + 1 < |subs| then base.(pageEnd := subs[k + 1].page) else base;
  }

  /** A run attached to a chapter without children yet: one record per member, chained. */
  lemma FirstRun(subs: seq<Destination>, numPages: nat)
    ensures var cs := Attach([], subs, numPages);
      && |cs| == |subs|
      && (forall k :: 0 <= k < |cs| ==> cs[k].title == Clean(subs[k].title) && cs[k].pageStart == subs[k].page)
      && (forall k, l :: 0 <= k < l < |cs| && l == k + 1 ==> cs[k].pageEnd == cs[l].pageStart)
      && (|cs| > 0 ==> cs[|cs| - 1].pageEnd == numPages)
  {
    var cs := Attach([], subs, numPages);
    assert |cs| == |subs|;
    forall k | 0 <= k < |subs|
      ensures cs[k].title == Clean(subs[k].title) && cs[k].pageStart == subs[k].page
      ensures cs[k].pageEnd == if k + 1 < |subs| then subs[k + 1].page else numPages
    {
      FirstRunRecord(subs, numPages, k);
    }
    if |cs| > 0 {
      FirstRunRecord(subs, numPages, |cs| - 1);
    }
  }

  // ---------------------------------------------------------------------------
  // Examples

  /** Pages [5, unresolvable, 12] of a 20-page document give [{0, 12}, {12, 20}]. */
  lemma SkippedDestinationKeepsChain()
    ensures Toc([Resolved(Destination("A", 5)), Unresolved, Resolved(Destination("B", 12))], 20, false)
      == Ok([Chapter("A", 0, 12, None), Chapter("B", 12, 20, None)])
  {
    var items := [Resolved(Destination("A", 5)), Unresolved, Resolved(Destination("B", 12))];
    assert Clean("A") == "A" && Clean("B") == "B";
    assert items[..2][..1] == [items[0]] && items[..1][..0] == [];
    assert Toc(items[..1], 20, false) == Ok([Chapter("A", 0, 20, None)]);
    assert Toc(items[..2], 20, false) == Ok([Chapter("A", 0, 20, None)]);
    assert Close(Chapter("A", 0, 20, None), 12, false) == Chapter("A", 0, 12, None);
    var one := [Chapter("A", 0, 20, None)];
    assert one[0 := Chapter("A", 0, 12, None)] == [Chapter("A", 0, 12, None)];
    assert Chapter(Clean("B"), 12, 20, None) == Chapter("B", 12, 20, None);
    var two := Step(one, Resolved(Destination("B", 12)), 20, false).value;
    assert |two| == 2 && two[0] == Chapter("A", 0, 12, None) && two[1] == Chapter("B", 12, 20, None);
    assert two == [two[0], two[1]];
    assert Toc(items, 20, false) == Step(one, items[2], 20, false);
  }

  /**
   * Two runs after one chapter: the second run's second member patches the
   * end of the FIRST child, since the run index starts again at 0.
   */
  lemma SecondRunPatchesFromRunStart()
    ensures Toc([Resolved(Destination("A", 0)),
                 Group([Resolved(Destination("a", 1)), Resolved(Destination("b", 2))]),
                 Unresolved,
                 Group([Resolved(Destination("c", 3)), Resolved(Destination("d", 4))])], 10, true)
      == Ok([Chapter("A", 0, 10, Some([Range("a", 1, 4), Range("b", 2, 10), Range("c", 3, 10), Range("d", 4, 10)]))])
  {
    var g1 := [Resolved(Destination("a", 1)), Resolved(Destination("b", 2))];
    var g2 := [Resolved(Destination("c", 3)), Resolved(Destination("d", 4))];
    var items := [Resolved(Destination("A", 0)), Group(g1), Unresolved, Group(g2)];
    var first := [Range("a", 1, 2), Range("b", 2, 10)];
    var second := [Range("a", 1, 4), Range("b", 2, 10), Range("c", 3, 10), Range("d", 4, 10)];
    ExampleRuns();
    assert Clean("A") == "A";
    assert items[..1] == [items[0]] && items[..1][..0] == [];
    assert items[..2][..1] == items[..1] && items[..3][..2] == items[..2];
    var c0 := Chapter("A", 0, 10, Some([]));
    assert Toc(items[..1], 10, true) == Ok([c0]);
    var c1 := c0.(children := Some(first));
    assert [c0][0 := c1] == [c1];
    assert Toc(items[..2], 10, true) == Step([c0], Group(g1), 10, true) == Ok([c1]);
    assert Toc(items[..3], 10, true) == Ok([c1]);
    var c2 := c1.(children := Some(second));
    assert [c1][0 := c2] == [c2];
    assert Toc(items, 10, true) == Step([c1], Group(g2), 10, true) == Ok([c2]);
  }

  lemma ExampleRuns()
    ensures Attach([], Destinations([Resolved(Destination("a", 1)), Resolved(Destination("b", 2))]), 10)
      == [Range("a", 1, 2), Range("b", 2, 10)]
    ensures Attach([Range("a", 1, 2), Range("b", 2, 10)],
                   Destinations([Resolved(Destination("c", 3)), Resolved(Destination("d", 4))]), 10)
      == [Range("a", 1, 4), Range("b", 2, 10), Range("c", 3, 10), Range("d", 4, 10)]
  {
    var g1 := [Resolved(Destination("a", 1)), Resolved(Destination("b", 2))];
    var g2 := [Resolved(Destination("c", 3)), Resolved(Destination("d", 4))];
    assert Clean("a") == "a" && Clean("b") == "b" && Clean("c") == "c" && Clean("d") == "d";
    assert g1[..1] == [g1[0]] && g1[..1][..0] == [];
    assert g2[..1] == [g2[0]] && g2[..1][..0] == [];
    assert Destinations(g1) == [Destination("a", 1), Destination("b", 2)];
    assert Destinations(g2) == [Destination("c", 3), Destination("d", 4)];
    assert SubRange(Destination("a", 1), 10) == Range("a", 1, 10);
    assert SubRange(Destination("b", 2), 10) == Range("b", 2, 10);
    var first := Attach([], Destinations(g1), 10);
    assert first[0] == Range("a", 1, 2) && first[1] == Range("b", 2, 10);
    assert first == [first[0], first[1]];
    var second := Attach([Range("a", 1, 2), Range("b", 2, 10)], Destinations(g2), 10);
    assert second[0] == Range("a", 1, 4) && second[1] == Range("b", 2, 10);
    assert SubRange(Destination("c", 3), 10) == Range("c", 3, 10);
    assert SubRange(Destination("d", 4), 10) == Range("d", 4, 10);
    assert second[2] == Range("c", 3, 10) && second[3] == Range("d", 4, 10);
    assert second == [second[0], second[1], second[2], second[3]];
  }

}
