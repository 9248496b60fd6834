/**
 * `PDFParser` of ricecooker_utils_pdf.py: a handle on one source PDF that is
 * opened once and then asked for its table of contents. The PDF reader is
 * outside the model; what `get_toc` asks of it (the outline, each
 * destination's resolved page, the page count) is the `Document` handed to
 * `Open`.
 */
module PdfParsing {
  import opened Results
  import opened TableOfContents
  import PathNames

  /** What the PDF reader reports about the source document. */
  datatype Document = Document(numPages: nat, outline: seq<OutlineItem>)

  class PdfParser {
    const sourcePath: string
    const directory: string
    /** The local copy path; `None` until `open` is called (the class attribute `path = None`). */
    var path: Option<string>
    /** The reader opened on the source file. */
    var pdf: Option<Document>

    /** `open` sets the path and the reader together. */
    ghost predicate Valid()
      reads this
    {
      Opened() ==> pdf.Some?
    }

    /** The truth value of `self.path`: set and non-empty. */
    predicate Opened()
      reads this
    {
      path.Some? && path.value != ""
    }

    constructor (sourcePath: string, directory: string := "downloads")
      ensures this.sourcePath == sourcePath && this.directory == directory
      ensures path == None && pdf == None
      ensures Valid() && !Opened()
    {
      this.sourcePath := sourcePath;
      this.directory := directory;
      path := None;
      pdf := None;
    }

    /** `open`: derive the local copy path and attach the reader (no file is touched here). */
    method Open(document: Document)
      modifies this
      ensures path == Some(PathNames.LocalCopyPath(directory, sourcePath))
      ensures pdf == Some(document)
      ensures Valid() && Opened()
    {
      path := Some(PathNames.LocalCopyPath(directory, sourcePath));
      pdf := Some(document);
    }

    /** `check_path`: fails unless `open` was called. */
    method CheckPath() returns (r: Outcome<TocError>)
      ensures r.Pass? <==> Opened()
      ensures r.Fail? ==> r.error == PathNotFound
    {
      if path.None? || path.value == "" {
        return Fail(PathNotFound);
      }
      return Pass;
    }

    /**
     * `get_toc(subchapters)`: one scan over the outline that appends a
     * chapter per resolvable destination and back-patches the previous one,
     * attaching list elements as children of the last chapter.
     */
    method GetToc(subchapters: bool := false) returns (r: Result<seq<Chapter>, TocError>)
      requires Valid()
      ensures !Opened() ==> r == Err(PathNotFound)
      ensures Opened() ==> r == Toc(pdf.value.outline, pdf.value.numPages, subchapters)
    {
      var checked := CheckPath();
      if checked.Fail? {
        return Err(checked.error);
      }
      var outline := pdf.value.outline;
      var numPages := pdf.value.numPages;
      var chapters: seq<Chapter> := [];
      var index := 0;
      var i := 0;
      while i < |outline|
        invariant 0 <= i <= |outline|
        invariant Toc(outline[..i], numPages, subchapters) == Ok(chapters)
        invariant index == |chapters|
      {
        assert outline[..i + 1][..i] == outline[..i];
        assert Toc(outline[..i + 1], numPages, subchapters) == Step(chapters, outline[i], numPages, subchapters);
        match outline[i] {
        case Resolved(dest) =>
          TocChildrenKey(outline[..i], numPages, subchapters);
          chapters := EmitChapter(chapters, index, dest, numPages, subchapters);
          index := index + 1;
        case Group(subdests) =>
          if subchapters {
            if index == 0 {
              // `chapters[index - 1]` on an empty list
              TocErrSticky(outline, i + 1, numPages, subchapters);
              return Err(NoParentChapter);
            }
            TocChildrenKey(outline[..i], numPages, subchapters);
            chapters := AttachToLastChapter(chapters, index, subdests, numPages);
          }
        case Unresolved =>
        }
        i := i + 1;
      }
      assert outline[..i] == outline;
      return Ok(chapters);
    }

    /**
     * The body of `get_toc` for a resolvable destination: append its chapter
     * and set the end of the previous one (and of that one's last child).
     */
    static method EmitChapter(chapters: seq<Chapter>, index: nat, dest: Destination, numPages: nat, subchapters: bool)
      returns (next: seq<Chapter>)
      requires index == |chapters|
      requires forall k :: 0 <= k < |chapters| ==> chapters[k].children.Some? == subchapters
      ensures Step(chapters, Resolved(dest), numPages, subchapters) == Ok(next)
    {
      var pageNum := dest.page;
      var chapter := Chapter(Clean(dest.title), if index != 0 then pageNum else 0, numPages,
                             if subchapters then Some([]) else None);
      next := chapters + [chapter];
      if index > 0 {
        // go back to the previous chapter and set its end
        next := next[index - 1 := next[index - 1].(pageEnd := pageNum)];
        if subchapters {
          var previous := next[index - 1];
          var kids := previous.children.value;
          assert kids == Kids(chapters[index - 1]);
          if |kids| > 0 {
            // and the end of its last subchapter
            kids := kids[|kids| - 1 := kids[|kids| - 1].(pageEnd := pageNum)];
            next := next[index - 1 := previous.(children := Some(kids))];
          }
        }
        assert next[index - 1] == Close(chapters[index - 1], pageNum, subchapters);
        assert next[..index] == chapters[index - 1 := Close(chapters[index - 1], pageNum, subchapters)];
        assert next == next[..index] + [chapter];
      } else {
        assert next == [chapter];
      }
    }

    /**
     * The body of `get_toc` for a list element when subchapters are
     * requested: its resolvable members become children of the last chapter.
     */
    static method AttachToLastChapter(chapters: seq<Chapter>, index: nat, subdests: seq<OutlineItem>, numPages: nat)
      returns (next: seq<Chapter>)
      requires 0 < index == |chapters|
      requires forall k :: 0 <= k < |chapters| ==> chapters[k].children.Some?
      ensures Step(chapters, Group(subdests), numPages, true) == Ok(next)
    {
      var parent := chapters[index - 1];
      assert parent.children.value == Kids(parent);
      var kids := AppendSubchapters(parent.children.value, subdests, numPages);
      next := chapters[index - 1 := parent.(children := Some(kids))];
    }

    /**
     * The inner loop of `get_toc` (a list element after a chapter): append a
     * record per resolvable sub-destination and, from the second one on, set
     * the end of `children[subindex - 1]`, where `subindex` counts the
     * resolvable members of this list so far.
     */
    static method AppendSubchapters(children: seq<Range>, subdests: seq<OutlineItem>, numPages: nat)
      returns (kids: seq<Range>)
      ensures kids == Attach(children, Destinations(subdests), numPages)
    {
      kids := children;
      var subindex := 0;
      var j := 0;
      while j < |subdests|
        invariant 0 <= j <= |subdests|
        invariant kids == Attach(children, Destinations(subdests[..j]), numPages)
        invariant subindex == |Destinations(subdests[..j])|
      {
        assert subdests[..j + 1][..j] == subdests[..j];
        match subdests[j] {
          case Resolved(subdest) =>
            AttachStep(children, Destinations(subdests[..j]), subdest, numPages);
            var subpageNum := subdest.page;
            kids := kids + [Range(Clean(subdest.title), subpageNum, numPages)];
            if subindex > 0 {
              kids := kids[subindex - 1 := kids[subindex - 1].(pageEnd := subpageNum)];
            }
            subindex := subindex + 1;
          case _ =>
        }
        j := j + 1;
      }
      assert subdests[..j] == subdests;
    }
  }
}
