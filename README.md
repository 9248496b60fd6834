# Book preview: table of contents and page selection

This project models the two pieces of sequential logic in the book preview tool.

- **`PDFParser.get_toc`** (ricecooker_utils_pdf.py). It reconstructs a PDF's table of contents from the reader's flat outline in one scan with back-patching. It yields chapter records `{title, page_start, page_end}`, each optionally carrying a `children` list of subchapter records. Its guard `check_path` is modelled too.
- **The `__main__` block of extractpreview.py**, three parts of it:
  - the `-p/--pagerange` parser, which turns one-based pages and ranges into sorted zero-based page indices;
  - the `--printtoc` listing, which prints each chapter and section with the one-based `--pagerange` that selects it;
  - the default `previewpath`.

Modules:

- `Results`: `Option`, `Result` and `Outcome`.
- `PathNames`: `str.rfind`, `os.path.basename` and `os.path.splitext`, for `/` separators.
- `TableOfContents`: the outline and record datatypes and the scan as a fold. `Toc` applies one `Step` per outline element, starting from `[]`. The module also holds two closed-form reference definitions:
  - `Flat`, the chapter level;
  - `Attach`, one run of subchapters.

  Lemmas connect the fold to the reference definitions.
- `PdfParsing`: the class `PdfParser`, with fields `path` and `pdf`, and with `Open`, `CheckPath` and `GetToc`. `GetToc` is the imperative scan: a loop with the `index` counter and back-patching by sequence update, plus the nested `subindex` loop. It is proved equal to `Toc`.
- `PageRanges`: the parser. The nested loops of `PageNumbers` grow one set with `union`/`add`, converting after each `-p` string. They are proved equal to `PageIndices`, which is defined by folds over `str.split`. There are lemmas for:
  - what a chunk adds;
  - when parsing fails;
  - sortedness and the zero-based shift;
  - independence from the order and repetition of `-p` strings.
- `Preview`: `DefaultPreviewPath` and the `--printtoc` loops (`PrintToc`). Each printed line is an `Entry` holding the title and the one-based first and last page. Lemmas show that the printed range, handed back to `-p`, selects the zero-based pages from the record's `page_start` to `min(page_end, last page)`, both included. A record ends where the next one starts, so for every record but the last this range also takes in the next record's first page.

The model follows the code in three places a reader may not expect:

- When chapter i+1 is emitted with subchapters requested, the last child of chapter i also gets page_end = p. This is ricecooker_utils_pdf.py:111-115.
- A range whose start lies past its end adds no page. `range(start, end + 1)` is empty; it does not raise.
- Inside a list element, the k-th resolvable sub-destination (k ≥ 1) patches `children[k - 1]`, counted from the chapter's first child, while k restarts at every list. So a second list after the same chapter patches records from the start of the chapter's children, which may be the earlier list's rather than its own. `Attach` models this as written, and `TableOfContents.SecondRunPatchesFromRunStart` shows it on a concrete outline.

## Model

| member | source | states |
|---|---|---|
| `PdfParsing.PdfParser.constructor` | ricecooker_utils_pdf.py:26-30 | keeps the source path and directory; `path` starts unset (`None`) |
| `PdfParsing.PdfParser.Open` | ricecooker_utils_pdf.py:48-58 | sets `path` to `directory/<basename without extension>/<basename>` and attaches the reader's document |
| `PdfParsing.PdfParser.CheckPath` | ricecooker_utils_pdf.py:68-70 | passes exactly when `path` is set and non-empty, and otherwise fails with the path-not-found error |
| `PdfParsing.PdfParser.GetToc` | ricecooker_utils_pdf.py:73-134 | fails with the path-not-found error before `open`; after it, returns exactly `Toc` of the document's outline, page count and `subchapters` (default false) |
| `PdfParsing.PdfParser.EmitChapter` | ricecooker_utils_pdf.py:97-116 | one resolvable destination: append its chapter (start 0 if first) and back-patch the previous chapter and its last child; equals `Step` |
| `PdfParsing.PdfParser.AttachToLastChapter` | ricecooker_utils_pdf.py:119-132 | one list element with subchapters: the last chapter's children become `Attach` of its children and the list's destinations; equals `Step` |
| `PdfParsing.PdfParser.AppendSubchapters` | ricecooker_utils_pdf.py:121-132 | the `subindex` loop yields exactly `Attach(children, Destinations(list))` |
| `PathNames.LastIndex` | ricecooker_utils_pdf.py:52-53 | the last position holding the character, or -1; no occurrence after it |
| `PathNames.Basename` | ricecooker_utils_pdf.py:52 | the suffix after the last `/`, which holds no `/` |
| `PathNames.SplitExtParts` | extractpreview.py:115 | the stem and extension concatenate to the path; the extension is non-empty iff the last component has a dot after a non-dot; an extension starts with its only dot and has no `/` |
| `PathNames.LocalCopyPath` | ricecooker_utils_pdf.py:52-54 | the local copy path is never empty, so `open` always makes `check_path` pass |
| `TableOfContents.Clean` | ricecooker_utils_pdf.py:100 | same length; every no-break space becomes a space and nothing else changes |
| `TableOfContents.Destinations` | ricecooker_utils_pdf.py:97 | at most one destination per outline element |
| `TableOfContents.TocErrSticky` | ricecooker_utils_pdf.py:119-120 | once the scan has raised, later outline elements do not change the outcome |
| `TableOfContents.AttachStep` | ricecooker_utils_pdf.py:123-132 | appending a sub-destination to a run appends its record and, from the second one on, sets the end of record `|run| - 1` counted from the first child |
| `TableOfContents.TocChildrenKey` | ricecooker_utils_pdf.py:104-105 | every chapter has a `children` key exactly when subchapters were requested |
| `TableOfContents.GroupBeforeFirstAppend` | ricecooker_utils_pdf.py:119-120 | a list precedes every chapter of `items + [x]` iff it does in `items` or `x` is a list and no chapter was emitted |
| `TableOfContents.TocFailsIff` | ricecooker_utils_pdf.py:119-120 | the scan fails iff subchapters are requested and a list element comes before the first resolvable destination; the error is then the missing parent chapter |
| `TableOfContents.StripStep` | ricecooker_utils_pdf.py:104-119 | removing `children` commutes with one scan step: with or without subchapters the chapter fields evolve alike |
| `TableOfContents.TocIsFlat` | ricecooker_utils_pdf.py:94-116 | the chapter records without `children` are exactly the reference definition `Flat` |
| `TableOfContents.ChapterRanges` | ricecooker_utils_pdf.py:97-116 | one chapter per resolvable destination in outline order with cleaned titles; the first starts at 0, every later one at its page; ends equal the next start; the last ends at `numPages` |
| `TableOfContents.WithoutSubchapters` | ricecooker_utils_pdf.py:104-105 | without subchapters the scan never fails, ignores lists, adds no `children` key and returns `Flat` |
| `TableOfContents.SubchaptersKeepChapters` | ricecooker_utils_pdf.py:119 | titles, starts and ends of the chapters are the same with and without subchapters |
| `TableOfContents.UnresolvedIsSkipped` | ricecooker_utils_pdf.py:97 | an unresolvable element changes nothing |
| `TableOfContents.NextChapterBackPatches` | ricecooker_utils_pdf.py:106-115 | a later chapter at page p: the previous one ends at p, so does its last child, the new one spans p to `numPages`, no other record changes |
| `TableOfContents.RunBecomesChildren` | ricecooker_utils_pdf.py:119-132 | a list right after a chapter gives it one child per resolvable member, starting at its page (not forced to 0), chained, the last ending at `numPages` |
| `TableOfContents.FirstRunRecord` | ricecooker_utils_pdf.py:125-131 | the k-th record of a first run: cleaned title, its page, ending at the next member's page or `numPages` |
| `TableOfContents.FirstRun` | ricecooker_utils_pdf.py:122-132 | a first run yields one record per resolvable member, contiguous, the last ending at `numPages` |
| `TableOfContents.SkippedDestinationKeepsChain` | ricecooker_utils_pdf.py:94-116 | pages [5, unresolvable, 12] of 20 give `[{0, 12}, {12, 20}]` |
| `TableOfContents.SecondRunPatchesFromRunStart` | ricecooker_utils_pdf.py:119-132 | a second list after the same chapter patches the first child, not its own first record |
| `TableOfContents.ExampleRuns` | ricecooker_utils_pdf.py:122-132 | the two runs of that outline on their own |
| `PageRanges.Split` | extractpreview.py:121 | `str.split` gives at least one piece and no piece holds the separator |
| `PageRanges.JoinSplit` | extractpreview.py:121 | joining the pieces of a split gives the string back |
| `PageRanges.SplitWithoutSeparator` | extractpreview.py:121 | a string without the separator is one piece |
| `PageRanges.SplitAtFirst` | extractpreview.py:121 | the first separator ends the first piece |
| `PageRanges.SplitJoin` | extractpreview.py:121 | splitting a join of separator-free pieces gives the pieces back |
| `PageRanges.Digit` | extractpreview.py:101 | the digit character of a value below 10 |
| `PageRanges.NatToStringParses` | extractpreview.py:101-103 | `str(n)` is a decimal numeral and `int` reads it back as n |
| `PageRanges.PageSpan` | extractpreview.py:126 | `range(start, end + 1)` holds exactly the k with start ≤ k ≤ end |
| `PageRanges.Minimum` | extractpreview.py:131 | the least element of a non-empty set |
| `PageRanges.MinimumExists` | extractpreview.py:131 | every non-empty set of naturals has a least element |
| `PageRanges.Ascending` | extractpreview.py:131 | `sorted` of a set is strictly ascending and has exactly the set's elements |
| `PageRanges.ZeroBased` | extractpreview.py:131 | every page number is lowered by one, in place |
| `PageRanges.PageNumbers` | extractpreview.py:118-134 | the nested loops return exactly `PageIndices`: the first failing chunk's error, the sorted shifted union, or `0..19` without `-p` |
| `PageRanges.AddSpec` | extractpreview.py:121-129 | one `-p` string adds the pages of all its chunks to the set, or fails with its first bad chunk's error |
| `PageRanges.AddChunk` | extractpreview.py:123-129 | one chunk adds its pages to the set, or fails as `ChunkPages` does |
| `PageRanges.GatherErrSticky` | extractpreview.py:120-129 | after a failing text the rest do not matter |
| `PageRanges.GatherAppend` | extractpreview.py:126-129 | a parsing text adds its pages to the union |
| `PageRanges.GatherUnion` | extractpreview.py:120-129 | parsing succeeds iff every text parses, and then yields exactly the union of their pages |
| `PageRanges.GatherFirstError` | extractpreview.py:120-129 | a failure is the error of the first text that fails, all earlier ones parsing |
| `PageRanges.GatherSameTexts` | extractpreview.py:120-129 | only which texts occur matters, not their order or repetition |
| `PageRanges.AscendingUnique` | extractpreview.py:131 | two strictly ascending sequences with the same elements are equal |
| `PageRanges.AscendingIs` | extractpreview.py:131 | `sorted(S)` is the one strictly ascending listing of S |
| `PageRanges.Consecutive` | extractpreview.py:126 | the run first, first+1, …, last (empty if first > last) |
| `PageRanges.SortedSpan` | extractpreview.py:126-131 | sorting a span gives its consecutive run |
| `PageRanges.ShiftedSpan` | extractpreview.py:126-131 | a span of one-based pages becomes the consecutive run of their indices |
| `PageRanges.SelectionIsSortedShiftedSet` | extractpreview.py:119-131 | with a `-p`, the selection is strictly ascending and holds k iff one-based page k+1 was named, with no bounds check |
| `PageRanges.SortedShifted` | extractpreview.py:131 | the converted list is strictly ascending and holds k iff the set holds k+1 |
| `PageRanges.SelectionIgnoresOrderAndRepetition` | extractpreview.py:120-131 | reordering or repeating the `-p` strings changes neither success nor the selection |
| `PageRanges.NumeralHasNoDash` | extractpreview.py:123 | a decimal numeral holds no `-` or `,` |
| `PageRanges.JoinTwo` | extractpreview.py:124 | two pieces joined by `-` |
| `PageRanges.TwoNumeralsAccepted` | extractpreview.py:123-126 | `a-b` with numerals a and b parses as the span from a to b |
| `PageRanges.AcceptedRangeIsTwoNumerals` | extractpreview.py:123-125 | an accepted chunk with a `-` is two numerals around one `-` |
| `PageRanges.ChunkAcceptedIff` | extractpreview.py:123-129 | a chunk is accepted iff it is a decimal numeral or two decimal numerals around a `-`, so two dashes, an empty side or an empty chunk raise |
| `PageRanges.RangeChunk` | extractpreview.py:123-126 | `start-end` adds every page from start to end, none when start > end |
| `PageRanges.OneNumeralAccepted` | extractpreview.py:127-129 | a chunk that is one decimal numeral, leading zeros included, adds exactly the page its digits denote |
| `PageRanges.PageChunk` | extractpreview.py:127-129 | the chunk `str(n)` adds exactly page n |
| `PageRanges.SpecIsUnionOfChunks` | extractpreview.py:121-129 | a `-p` string gives the union of its comma-separated chunks |
| `PageRanges.SelectionOfOneSpec` | extractpreview.py:120-129 | one `-p` string selects its own pages |
| `PageRanges.PageSpec` | extractpreview.py:127-129 | `-p "n"` selects page n |
| `PageRanges.RangeSpec` | extractpreview.py:123-126 | `-p "a-b"` selects pages a to b |
| `PageRanges.RangeAndPageSpec` | extractpreview.py:121-129 | `-p "a-b,n"` selects pages a to b and n |
| `PageRanges.SelectionFromSortedPages` | extractpreview.py:131 | the selection is the zero-based listing of the ascending pages |
| `PageRanges.ExampleRangeAndPagePages` | extractpreview.py:118-129 | `-p "1-3,5"` names pages {1, 2, 3, 5} |
| `PageRanges.ExampleRangeAndPageSorted` | extractpreview.py:131 | pages {1, 2, 3, 5} become [0, 1, 2, 4] |
| `PageRanges.ExampleRangeAndPage` | extractpreview.py:118-131 | `-p "1-3,5"` selects [0, 1, 2, 4] |
| `PageRanges.ExampleOverlapPages` | extractpreview.py:118-129 | `-p 2 -p 2-4` names pages {2, 3, 4} |
| `PageRanges.ExampleOverlapSorted` | extractpreview.py:131 | pages {2, 3, 4} become [1, 2, 3] |
| `PageRanges.ExampleOverlap` | extractpreview.py:118-131 | `-p 2 -p 2-4` selects [1, 2, 3] |
| `PageRanges.ExampleBackwardRange` | extractpreview.py:123-131 | `-p "5-3"` selects nothing |
| `PageRanges.ExamplePageZero` | extractpreview.py:127-131 | `-p "0"` selects index -1 |
| `PageRanges.ExampleTwoDashes` | extractpreview.py:124 | `1-2-3` raises on the two-way unpack |
| `PageRanges.ExampleOpenRange` | extractpreview.py:125 | `3-` raises on `int("")` |
| `PageRanges.ExampleEmptyChunk` | extractpreview.py:128 | an empty chunk raises on `int("")` |
| `Preview.PreviewPathInsertsSuffix` | extractpreview.py:114-116 | the default path is the book path with `_preview` inserted where its extension starts, or at the end when it has none |
| `Preview.ExamplePreviewPath` | extractpreview.py:114-116 | `books/intro.pdf` gives `books/intro_preview.pdf` |
| `Preview.PrintToc` | extractpreview.py:98-110 | the loops list exactly `Listing`: each chapter's line followed by its sections' lines |
| `Preview.PrintSections` | extractpreview.py:106-110 | the inner loop lists exactly the sections' lines in order |
| `Preview.SectionLinesOnePerSection` | extractpreview.py:106-110 | one line per section, in order, showing start+1 and min(end, last page)+1 |
| `Preview.ListingSnoc` | extractpreview.py:100-110 | one more chapter appends its block |
| `Preview.ListingAppend` | extractpreview.py:100-110 | the listing of consecutive tables of contents is the concatenation of their listings |
| `Preview.ChapterListing` | extractpreview.py:100-110 | one chapter is listed as its line, then one line per child |
| `Preview.PrintedRangeSelectsPages` | extractpreview.py:101-103 | a printed `first-last`, handed back to `-p`, selects exactly indices first-1 to last-1 |
| `Preview.ChapterRangeSelectsChapter` | extractpreview.py:98-104 | a chapter's printed range selects the indices from its start to its end clipped to the last page, both included (so also the next chapter's first page) |
| `Preview.SectionRangeSelectsSection` | extractpreview.py:106-110 | the same for a section, including the next section's first page |
| `Preview.ExampleListing` | extractpreview.py:98-110 | a chapter ending past the last page of a 10-page book is listed as 1-10, its section as 3-10 |
| `Preview.ExamplePageRangeText` | extractpreview.py:101-103 | pages 1 and 10 are printed as `1-10` |
| `TableOfContents.Toc` | ricecooker_utils_pdf.py:91-134 | no contract; the scan as a fold of `Step` from `[]`, characterised by `TocIsFlat`, `ChapterRanges`, `TocFailsIff` and `RunBecomesChildren`, and equal to `GetToc` |
| `TableOfContents.Step` | ricecooker_utils_pdf.py:96-132 | no contract; one loop iteration, characterised by `NextChapterBackPatches`, `UnresolvedIsSkipped` and `StripStep` |
| `TableOfContents.Close` | ricecooker_utils_pdf.py:108-115 | no contract; the back-patch, characterised by `NextChapterBackPatches` |
| `TableOfContents.Attach` | ricecooker_utils_pdf.py:121-132 | no contract; the closed form of one list's effect, characterised by `AttachStep` and `FirstRun`, and equal to `AppendSubchapters` |
| `TableOfContents.DestinationsAppend` | ricecooker_utils_pdf.py:94-97 | the destinations of two consecutive outline parts are the concatenation of theirs |
| `TableOfContents.DestinationsMembers` | ricecooker_utils_pdf.py:97 | a destination is listed iff it occurs resolved in the outline |
| `PageRanges.ChunkPages` | extractpreview.py:123-129 | no contract; one chunk's pages or error, characterised by `ChunkAcceptedIff`, `TwoNumeralsAccepted`, `OneNumeralAccepted` and `RangeChunk` |
| `PageRanges.ParseInt` | extractpreview.py:125-128 | no contract; `int` on ASCII decimal numerals, read back by `NatToStringParses` and used by `ChunkAcceptedIff` |
| `PageRanges.NatToString` | extractpreview.py:101-102 | no contract; `str` of a natural number, characterised by `NatToStringParses` |
| `PageRanges.IntToString` | extractpreview.py:101-102 | no contract; `str` of an integer, read back by `PrintedRangeSelectsPages` for non-negative values |
| `PageRanges.PageIndices` | extractpreview.py:118-134 | no contract; the selection, equal to `PageNumbers` and characterised by `SelectionIsSortedShiftedSet` and `GatherUnion` |
| `PageRanges.SortedIndices` | extractpreview.py:131 | no contract; the conversion, characterised by `SortedShifted` |
| `PageRanges.DefaultPages` | extractpreview.py:132-134 | without `-p` the selection is strictly ascending and holds exactly the indices 0 to 19 |
| `PathNames.SplitExt` | extractpreview.py:115 | no contract; `os.path.splitext`, characterised by `SplitExtParts` |
| `Preview.DefaultPreviewPath` | extractpreview.py:114-116 | no contract; characterised by `PreviewPathInsertsSuffix` |
| `Preview.ChapterLine` | extractpreview.py:101-104 | no contract; a chapter's entry, characterised by `ChapterRangeSelectsChapter` |
| `Preview.SectionLine` | extractpreview.py:107-110 | no contract; a section's entry, characterised by `SectionRangeSelectsSection` |
| `Preview.Render` | extractpreview.py:104-110 | no contract; the text of one printed line |
| `Preview.Listing` | extractpreview.py:100-110 | no contract; everything printed, equal to `PrintToc` and characterised by `ChapterListing` and `ListingAppend` |

## Left out

- File and directory I/O: `open` creating directories, the file handle, `close`, `__enter__` and `__exit__`. `Open` only derives the path and attaches the document.
- The PDF reader. This covers `CustomPDFReader`, `CustomDestination`, `getOutlines`, `getDestinationPageNumber` and `numPages`. The outline is given as a value: resolved destinations with their zero-based page, unresolvable ones, and nested lists. The page count is a parameter.
- In-place mutation of the chapter dicts. The source patches `chapters[index - 1]` and its last child through `previous_chapter` (ricecooker_utils_pdf.py:110-115), and appends to and patches the `children` list through the alias `parent` (ricecooker_utils_pdf.py:120-131). The model holds the chapters as a sequence of values and replaces the patched record, or its `children`, by sequence update. So aliasing between these names is not modelled; the resulting records are the same.
- `write_page_numbers`, `extract_text_by_page`, argparse, the unused `--spec` option, `sys.exit`, and the `print` calls other than the `--printtoc` lines. `PrintToc` returns the printed entries.
- Preview.Render: spells one entry as the printed text, with no lemma about that text.
- PageRanges.ParseInt: Python's `int` also accepts surrounding whitespace, a leading `+`, `_` between digits and non-ASCII digits; the model raises `NotAnInteger` on all of them. So `-p "1, 3"` selects [0, 2] in the program but fails in the model.
- `os.path.splitext`: only `/` is a separator; there is no alternative separator.
- PageRanges.ChunkAcceptedIff: says which chunks parse but not which of the two errors a refused chunk raises. The examples show both errors.
- Integers are unbounded, as in Python.
