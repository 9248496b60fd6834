/**
 * The parts of the `__main__` code of extractpreview.py that compute rather
 * than read or write files: the `--printtoc` listing of the chapters and
 * sections with the one-based `--pagerange` that selects each of them, and the
 * default `--previewpath`. The page-range parser itself is in PageRanges.
 */
module Preview {
  import opened Results
  import opened TableOfContents
  import PathNames
  import PageRanges

  // ---------------------------------------------------------------------------
  // Default output path

  /** `filepath_noext + '_preview' + ext` with `os.path.splitext(bookpath)`. */
  function DefaultPreviewPath(bookpath: string): string
  {
    var parts := PathNames.SplitExt(bookpath);
    parts.0 + "_preview" + parts.1
  }

  /**
   * The default preview path is the book path with `_preview` inserted at
   * the start of its extension: the last `.` of the file name that follows
   * some other character, or at the very end when there is no extension.
   */
  lemma PreviewPathInsertsSuffix(bookpath: string)
    ensures var k := |PathNames.SplitExt(bookpath).0|;
      k <= |bookpath| && DefaultPreviewPath(bookpath) == bookpath[..k] + "_preview" + bookpath[k..]
    ensures |PathNames.SplitExt(bookpath).0| == |bookpath| <==> !PathNames.HasExtension(bookpath)
    ensures var k := |PathNames.SplitExt(bookpath).0|;
      k < |bookpath| ==> bookpath[k] == '.' && '.' !in bookpath[k + 1..] && '/' !in bookpath[k..]
  {
    PathNames.SplitExtParts(bookpath);
    var parts := PathNames.SplitExt(bookpath);
    var k := |parts.0|;
    assert bookpath[..k] == parts.0 && bookpath[k..] == parts.1;
  }

  lemma ExamplePreviewPath(bookpath: string)
    requires bookpath == "books/intro.pdf"
    ensures DefaultPreviewPath(bookpath) == "books/intro_preview.pdf"
  {
    assert |bookpath| == 15 && bookpath[5] == '/' && bookpath[11] == '.';
    assert forall k :: 5 < k < 15 ==> bookpath[k] != '/';
    assert forall k :: 11 < k < 15 ==> bookpath[k] != '.';
    assert PathNames.LastIndex(bookpath, '.') == 11;
    assert PathNames.LastIndex(bookpath, '/') == 5;
    assert bookpath[6] != '.';
    assert bookpath[..11] == "books/intro" && bookpath[11..] == ".pdf";
    assert PathNames.SplitExt(bookpath) == (bookpath[..11], bookpath[11..]);
  }

  // ---------------------------------------------------------------------------
  // --printtoc

  function Min(a: int, b: int): int
  {
    if a <= b then a else b
  }

  /**
   * One printed line: a chapter (` -`) or a section (`   -`), its title, and
   * the one-based first and last page of the `--pagerange` it shows.
   */
  datatype Entry = Entry(section: bool, title: string, firstPage: int, lastPage: int)

  /** `str(first) + '-' + str(last)`. */
  function PageRangeText(e: Entry): string
  {
    PageRanges.IntToString(e.firstPage) + "-" + PageRanges.IntToString(e.lastPage)
  }

  /** `print(marker, title, '  --pagerange', '"' + range + '"')`; `print` puts one space between its arguments. */
  function Render(e: Entry): string
  {
    (if e.section then "   -" else " -") + " " + e.title + " " + "  --pagerange" + " " + "\"" + PageRangeText(e) + "\""
  }

  /** A record's entry: its start plus one, and its end clipped to the last page, plus one. */
  function ChapterLine(ch: Chapter, numPages: nat): Entry
  {
    Entry(false, ch.title, ch.pageStart + 1, Min(ch.pageEnd, numPages - 1) + 1)
  }

  function SectionLine(sec: Range, numPages: nat): Entry
  {
    Entry(true, sec.title, sec.pageStart + 1, Min(sec.pageEnd, numPages - 1) + 1)
  }

  /** The lines of the sections of one chapter, in order. */
  function SectionLines(sections: seq<Range>, numPages: nat): seq<Entry>
  {
    if |sections| == 0 then []
    else SectionLines(sections[..|sections| - 1], numPages) + [SectionLine(sections[|sections| - 1], numPages)]
  }

  /** A chapter's line followed by its sections' lines (`if 'children' in ch`). */
  function ChapterBlock(ch: Chapter, numPages: nat): seq<Entry>
  {
    [ChapterLine(ch, numPages)] + match ch.children
      case Some(sections) => SectionLines(sections, numPages)
      case None => []
  }

  /** Everything `--printtoc` prints for a table of contents, one entry per line. */
  function Listing(toc: seq<Chapter>, numPages: nat): seq<Entry>
  {
    if |toc| == 0 then []
    else Listing(toc[..|toc| - 1], numPages) + ChapterBlock(toc[|toc| - 1], numPages)
  }

  /**
   * The `--printtoc` loop over `get_toc(subchapters=True)`, collecting the
   * printed lines instead of writing them.
   */
  method PrintToc(toc: seq<Chapter>, numPages: nat) returns (lines: seq<Entry>)
    ensures lines == Listing(toc, numPages)
  {
    var lastPageZerobased := numPages - 1;
    lines := [];
    for i := 0 to |toc|
      invariant lines == Listing(toc[..i], numPages)
    {
      var ch := toc[i];
      var chStart := ch.pageStart + 1;
      var chEnd := Min(ch.pageEnd, lastPageZerobased) + 1;
      lines := lines + [Entry(false, ch.title, chStart, chEnd)];
      if ch.children.Some? {
        var sectionLines := PrintSections(ch.children.value, numPages);
        lines := lines + sectionLines;
      }
      assert lines == Listing(toc[..i], numPages) + ChapterBlock(ch, numPages);
      assert toc[..i + 1] == toc[..i] + [ch];
      ListingSnoc(toc[..i], ch, numPages);
    }
    assert toc[..|toc|] == toc;
  }

  /** The inner loop of `--printtoc`: the lines of one chapter's sections. */
  method PrintSections(sections: seq<Range>, numPages: nat) returns (lines: seq<Entry>)
    ensures lines == SectionLines(sections, numPages)
  {
    var lastPageZerobased := numPages - 1;
    lines := [];
    for j := 0 to |sections|
      invariant lines == SectionLines(sections[..j], numPages)
    {
      var sec := sections[j];
      var secStart := sec.pageStart + 1;
      var secEnd := Min(sec.pageEnd, lastPageZerobased) + 1;
      assert sections[..j + 1][..j] == sections[..j];
      lines := lines + [Entry(true, sec.title, secStart, secEnd)];
    }
    assert sections[..|sections|] == sections;
  }

  /** The sections' lines are one per section, in the sections' order. */
  lemma {:induction false} SectionLinesOnePerSection(sections: seq<Range>, numPages: nat)
    ensures |SectionLines(sections, numPages)| == |sections|
    ensures forall k :: 0 <= k < |sections| ==> SectionLines(sections, numPages)[k] == SectionLine(sections[k], numPages)
  {
    if |sections| > 0 {
      var pre := sections[..|sections| - 1];
      SectionLinesOnePerSection(pre, numPages);
      assert forall k :: 0 <= k < |pre| ==> pre[k] == sections[k];
    }
  }

  lemma ListingSnoc(toc: seq<Chapter>, ch: Chapter, numPages: nat)
    ensures Listing(toc + [ch], numPages) == Listing(toc, numPages) + ChapterBlock(ch, numPages)
  {
    assert (toc + [ch])[..|toc|] == toc;
  }

  /** The listing of consecutive tables of contents is the concatenation of their listings. */
  lemma {:induction false} ListingAppend(a: seq<Chapter>, b: seq<Chapter>, numPages: nat)
    ensures Listing(a + b, numPages) == Listing(a, numPages) + Listing(b, numPages)
    decreases |b|
  {
    if |b| == 0 {
      assert a + b == a;
    } else {
      var pre, ch := b[..|b| - 1], b[|b| - 1];
      assert b == pre + [ch];
      assert a + b == (a + pre) + [ch];
      var la, lp, block := Listing(a, numPages), Listing(pre, numPages), ChapterBlock(ch, numPages);
      calc {
        Listing(a + b, numPages);
        { ListingSnoc(a + pre, ch, numPages); }
        Listing(a + pre, numPages) + block;
        { ListingAppend(a, pre, numPages); }
        (la + lp) + block;
        la + (lp + block);
        { ListingSnoc(pre, ch, numPages); }
        la + Listing(b, numPages);
      }
    }
  }

  /** One chapter is listed as its line followed by one line per section. */
  lemma ChapterListing(ch: Chapter, numPages: nat)
    ensures Listing([ch], numPages)[0] == ChapterLine(ch, numPages)
    ensures |Listing([ch], numPages)| == 1 + |Kids(ch)|
    ensures forall k :: 0 <= k < |Kids(ch)| ==> Listing([ch], numPages)[k + 1] == SectionLine(Kids(ch)[k], numPages)
  {
    assert [ch][..0] == [];
    SectionLinesOnePerSection(Kids(ch), numPages);
  }

  /**
   * The printed `--pagerange` selects what it shows: handed back to `-p`, the
   * text `first-last` of an entry selects exactly the zero-based indices
   * `first - 1` to `last - 1` (nothing when `first > last`).
   */
  lemma PrintedRangeSelectsPages(e: Entry)
    requires 0 <= e.firstPage && 0 <= e.lastPage
    ensures PageRanges.PageIndices([PageRangeText(e)])
      == Ok(PageRanges.Consecutive(e.firstPage - 1, e.lastPage - 1))
  {
    var first: nat, last: nat := e.firstPage, e.lastPage;
    var spec := PageRangeText(e);
    assert spec == PageRanges.NatToString(first) + "-" + PageRanges.NatToString(last);
    PageRanges.RangeSpec(first, last);
    PageRanges.SelectionOfOneSpec(spec);
    PageRanges.ShiftedSpan(first, last);
  }

  /**
   * The range printed for a chapter selects the chapter's pages, from its
   * start to its end clipped to the last page of the document.
   */
  lemma ChapterRangeSelectsChapter(ch: Chapter, numPages: nat)
    requires -1 <= ch.pageStart && -1 <= ch.pageEnd
    ensures PageRanges.PageIndices([PageRangeText(ChapterLine(ch, numPages))])
      == Ok(PageRanges.Consecutive(ch.pageStart, Min(ch.pageEnd, numPages - 1)))
  {
    PrintedRangeSelectsPages(ChapterLine(ch, numPages));
  }

  /** The same for the range printed for a section. */
  lemma SectionRangeSelectsSection(sec: Range, numPages: nat)
    requires -1 <= sec.pageStart && -1 <= sec.pageEnd
    ensures PageRanges.PageIndices([PageRangeText(SectionLine(sec, numPages))])
      == Ok(PageRanges.Consecutive(sec.pageStart, Min(sec.pageEnd, numPages - 1)))
  {
    PrintedRangeSelectsPages(SectionLine(sec, numPages));
  }

  lemma ExampleListing(title: string, section: string)
    requires title == "Intro" && section == "Scope"
    ensures Listing([Chapter(title, 0, 12, Some([Range(section, 2, 12)]))], 10) ==
      [Entry(false, title, 1, 10), Entry(true, section, 3, 10)]
  {
    var ch := Chapter(title, 0, 12, Some([Range(section, 2, 12)]));
    ChapterListing(ch, 10);
    var lines := Listing([ch], 10);
    assert lines == [lines[0], lines[1]];
  }

  lemma ExamplePageRangeText(e: Entry)
    requires e.firstPage == 1 && e.lastPage == 10
    ensures PageRangeText(e) == "1-10"
  {
    assert PageRanges.NatToString(1) == "1";
    assert PageRanges.NatToString(10) == PageRanges.NatToString(1) + "0";
  }
}
