/**
 * The page-range parser of the command line of extractpreview.py: every
 * `-p/--pagerange` string is split on commas; each chunk is either a one-based
 * page `n` or a one-based inclusive range `start-end`; the pages of all chunks
 * of all strings are collected in one set, sorted, and shifted to zero-based
 * indices. Without any `-p` the first 20 pages are selected.
 */
module PageRanges {
  import opened Results

  datatype ParseError =
    | TooManyDashes(chunk: string) // `start_str, end_str = chunk.split('-')` with more than two pieces
    | NotAnInteger(text: string)   // `int(text)` of a piece that is not a decimal numeral

  // ---------------------------------------------------------------------------
  // Strings

  /** `s.split(sep)`: the pieces between the occurrences of `sep`. */
  function Split(s: string, sep: char): (pieces: seq<string>)
    ensures |pieces| >= 1
    ensures forall k :: 0 <= k < |pieces| ==> sep !in pieces[k]
    decreases |s|
  {
    if |s| == 0 then [""]
    else
      var rest := Split(s[1..], sep);
      if s[0] == sep then [""] + rest
      else [[s[0]] + rest[0]] + rest[1..]
  }

  /** `sep.join(pieces)`. */
  function Join(pieces: seq<string>, sep: char): string
  {
    if |pieces| == 0 then ""
    else if |pieces| == 1 then pieces[0]
    else pieces[0] + [sep] + Join(pieces[1..], sep)
  }

  /** Splitting loses nothing: joining the pieces back gives the string. */
  lemma {:induction false} JoinSplit(s: string, sep: char)
    ensures Join(Split(s, sep), sep) == s
    decreases |s|
  {
    if |s| > 0 {
      var rest := Split(s[1..], sep);
      JoinSplit(s[1..], sep);
      if s[0] == sep {
        assert Join([""] + rest, sep) == "" + [sep] + Join(rest, sep);
      } else if |rest| > 1 {
        assert Join(rest, sep) == rest[0] + [sep] + Join(rest[1..], sep);
        assert ([[s[0]] + rest[0]] + rest[1..])[1..] == rest[1..];
      }
      assert s == [s[0]] + s[1..];
    }
  }

  /** A string without the separator is a single piece. */
  lemma {:induction false} SplitWithoutSeparator(s: string, sep: char)
    requires sep !in s
    ensures Split(s, sep) == [s]
    decreases |s|
  {
    if |s| > 0 {
      assert sep !in s[1..] by {
        forall k | 0 <= k < |s[1..]| ensures s[1..][k] != sep { assert s[1..][k] == s[k + 1]; }
      }
      SplitWithoutSeparator(s[1..], sep);
      assert s == [s[0]] + s[1..];
    }
  }

  /** The first separator ends the first piece. */
  lemma {:induction false} SplitAtFirst(a: string, rest: string, sep: char)
    requires sep !in a
    ensures Split(a + [sep] + rest, sep) == [a] + Split(rest, sep)
    decreases |a|
  {
    var s := a + [sep] + rest;
    if |a| == 0 {
      assert s[1..] == rest;
    } else {
      assert s[1..] == a[1..] + [sep] + rest;
      assert sep !in a[1..] by {
        forall k | 0 <= k < |a[1..]| ensures a[1..][k] != sep { assert a[1..][k] == a[k + 1]; }
      }
      SplitAtFirst(a[1..], rest, sep);
      assert [a[0]] + a[1..] == a;
    }
  }

  /** Pieces without the separator come back from their join. */
  lemma {:induction false} SplitJoin(pieces: seq<string>, sep: char)
    requires |pieces| >= 1
    requires forall k :: 0 <= k < |pieces| ==> sep !in pieces[k]
    ensures Split(Join(pieces, sep), sep) == pieces
    decreases |pieces|
  {
    if |pieces| == 1 {
      SplitWithoutSeparator(pieces[0], sep);
    } else {
      SplitJoin(pieces[1..], sep);
      SplitAtFirst(pieces[0], Join(pieces[1..], sep), sep);
      assert [pieces[0]] + pieces[1..] == pieces;
    }
  }

  // ---------------------------------------------------------------------------
  // Integers

  predicate IsDigit(c: char)
  {
    '0' <= c <= '9'
  }

  /** A non-empty string of decimal digits. */
  predicate IsNumeral(s: string)
  {
    |s| > 0 && forall i :: 0 <= i < |s| ==> IsDigit(s[i])
  }

  function DigitValue(c: char): nat
    requires IsDigit(c)
  {
    (c as int) - ('0' as int)
  }

  function Digit(d: nat): (c: char)
    requires d < 10
    ensures IsDigit(c) && DigitValue(c) == d
  {
    (('0' as int) + d) as char
  }

  /** The value of a string of decimal digits. */
  function NumeralValue(s: string): nat
    requires forall i :: 0 <= i < |s| ==> IsDigit(s[i])
  {
    if |s| == 0 then 0 else 10 * NumeralValue(s[..|s| - 1]) + DigitValue(s[|s| - 1])
  }

  /** `int(text)` for the pieces the parser produces, none of which holds a `-`. */
  function ParseInt(text: string): Result<nat, ParseError>
  {
    if IsNumeral(text) then Ok(NumeralValue(text)) else Err(NotAnInteger(text))
  }

  /** `str(n)` for a natural number. */
  function NatToString(n: nat): string
  {
    if n < 10 then [Digit(n)] else NatToString(n / 10) + [Digit(n % 10)]
  }

  /** `str(i)`. */
  function IntToString(i: int): string
  {
    if i < 0 then "-" + NatToString(-i) else NatToString(i)
  }

  /** `str(n)` is a decimal numeral, and `int` reads it back as `n`. */
  lemma {:induction false} NatToStringParses(n: nat)
    ensures IsNumeral(NatToString(n)) && NumeralValue(NatToString(n)) == n
    ensures ParseInt(NatToString(n)) == Ok(n)
    decreases n
  {
    if n >= 10 {
      NatToStringParses(n / 10);
      var s := NatToString(n);
      assert s[..|s| - 1] == NatToString(n / 10);
    }
  }

  // ---------------------------------------------------------------------------
  // Chunks, strings and the whole parse

  /** `set(range(first, last + 1))`: empty when `first > last`. */
  function PageSpan(first: nat, last: nat): (pages: set<nat>)
    ensures forall k :: k in pages <==> first <= k <= last
    decreases last - first
  {
    if first > last then {} else {first} + PageSpan(first + 1, last)
  }

  /** The one-based pages one comma-separated chunk denotes. */
  function ChunkPages(chunk: string): Result<set<nat>, ParseError>
  {
    if '-' in chunk then
      var halves := Split(chunk, '-');
      if |halves| != 2 then Err(TooManyDashes(chunk))
      else match ParseInt(halves[0])
        case Err(e) => Err(e)
        case Ok(first) =>
          match ParseInt(halves[1])
          case Err(e) => Err(e)
          case Ok(last) => Ok(PageSpan(first, last))
    else
      match ParseInt(chunk)
      case Err(e) => Err(e)
      case Ok(page) => Ok({page})
  }

  /** The union of what `parse` gives for each text, or the first failure. */
  function Gather(texts: seq<string>, parse: string -> Result<set<nat>, ParseError>): Result<set<nat>, ParseError>
  {
    if |texts| == 0 then Ok({})
    else match Gather(texts[..|texts| - 1], parse)
      case Err(e) => Err(e)
      case Ok(pages) =>
        match parse(texts[|texts| - 1])
        case Err(e) => Err(e)
        case Ok(more) => Ok(pages + more)
  }

  /** The one-based pages of one `-p` string. */
  function SpecPages(spec: string): Result<set<nat>, ParseError>
  {
    Gather(Split(spec, ','), ChunkPages)
  }

  /** The one-based pages of all `-p` strings (`page_numbers_onebased_set`). */
  function OneBasedPages(pageranges: seq<string>): Result<set<nat>, ParseError>
  {
    Gather(pageranges, SpecPages)
  }

  ghost predicate StrictlyAscending(s: seq<int>)
  {
    forall i, j :: 0 <= i < j < |s| ==> s[i] < s[j]
  }

  /** The least element of a non-empty set. */
  function Minimum(S: set<nat>): (m: nat)
    requires S != {}
    ensures m in S && forall y :: y in S ==> m <= y
  {
    MinimumExists(S);
    var m :| m in S && forall y :: y in S ==> m <= y;
    m
  }

  lemma MinimumExists(S: set<nat>)
    requires S != {}
    ensures exists m :: m in S && forall y :: y in S ==> m <= y
    decreases S
  {
    var x :| x in S;
    var below := set y | y in S && y < x;
    assert forall y :: y in S ==> y in below || x <= y;
    if below != {} {
      MinimumExists(below);
      var m :| m in below && forall y :: y in below ==> m <= y;
      assert m in S && forall y :: y in S ==> m <= y;
    } else {
      assert x in S && forall y :: y in S ==> x <= y;
    }
  }

  /** `sorted(S)`: the elements of `S` in strictly ascending order. */
  function Ascending(S: set<nat>): (s: seq<nat>)
    ensures StrictlyAscending(s)
    ensures forall x :: x in s <==> x in S
    decreases |S|
  {
    if S == {} then []
    else
      var m := Minimum(S);
      var rest := Ascending(S - {m});
      assert forall x :: x in rest ==> m < x;
      [m] + rest
  }

  /** `[n - 1 for n in pages]`. */
  function ZeroBased(pages: seq<nat>): (indices: seq<int>)
    ensures |indices| == |pages|
    ensures forall k :: 0 <= k < |pages| ==> indices[k] == pages[k] as int - 1
  {
    seq(|pages|, k requires 0 <= k < |pages| => pages[k] as int - 1)
  }

  /** `range(0, 20)`: what is selected when no `-p` is given. */
  function DefaultPages(): (r: seq<int>)
    ensures StrictlyAscending(r)
    ensures forall k :: k in r <==> 0 <= k < 20
  {
    var firstTwenty := seq(20, k requires 0 <= k < 20 => k);
    assert forall k :: 0 <= k < 20 ==> firstTwenty[k] == k;
    assert forall k :: 0 <= k < 20 ==> k in firstTwenty by {
      forall k | 0 <= k < 20 ensures k in firstTwenty { assert firstTwenty[k] == k; }
    }
    firstTwenty
  }

  /** The page indices the command line selects (`page_numbers`). */
  ghost function PageIndices(pageranges: seq<string>): Result<seq<int>, ParseError>
  {
    if |pageranges| == 0 then Ok(DefaultPages())
    else match OneBasedPages(pageranges)
      case Err(e) => Err(e)
      case Ok(pages) => Ok(SortedIndices(pages))
  }

  /** `[n - 1 for n in sorted(pages)]`. */
  function SortedIndices(pages: set<nat>): seq<int>
  {
    ZeroBased(Ascending(pages))
  }

  /**
   * The `__main__` code that turns the `-p` strings into `page_numbers`: two
   * nested loops growing one set by `union` and `add`; after each `-p`
   * string the set is sorted and shifted to zero-based indices again.
   */
  method PageNumbers(pageranges: seq<string>) returns (r: Result<seq<int>, ParseError>)
    ensures r == PageIndices(pageranges)
  {
    if |pageranges| == 0 {
      return Ok(DefaultPages());
    }
    var onebased: set<nat> := {};
    var pageNumbers: seq<int> := [];
    var i := 0;
    while i < |pageranges|
      invariant 0 <= i <= |pageranges|
      invariant OneBasedPages(pageranges[..i]) == Ok(onebased)
      invariant i > 0 ==> pageNumbers == SortedIndices(onebased)
    {
      assert pageranges[..i + 1][..i] == pageranges[..i];
      var added := AddSpec(onebased, pageranges[i]);
      if added.Err? {
        GatherErrSticky(pageranges, i + 1, SpecPages);
        return Err(added.error);
      }
      onebased := added.value;
      // convert to 0-based indexing
      pageNumbers := SortedIndices(onebased);
      i := i + 1;
    }
    assert pageranges[..i] == pageranges;
    r := Ok(pageNumbers);
  }

  /**
   * The body of the outer loop up to the conversion: every chunk of one
   * `-p` string added to the set, or the error of its first bad chunk.
   */
  method AddSpec(onebased: set<nat>, spec: string) returns (r: Result<set<nat>, ParseError>)
    ensures SpecPages(spec).Err? ==> r == SpecPages(spec)
    ensures SpecPages(spec).Ok? ==> r == Ok(onebased + SpecPages(spec).value)
  {
    var chunks := Split(spec, ',');
    var pages := onebased;
    var j := 0;
    while j < |chunks|
      invariant 0 <= j <= |chunks|
      invariant Gather(chunks[..j], ChunkPages).Ok?
      invariant pages == onebased + Gather(chunks[..j], ChunkPages).value
    {
      var chunk := chunks[j];
      assert chunks[..j + 1][..j] == chunks[..j];
      var added := AddChunk(pages, chunk);
      if added.Err? {
        GatherErrSticky(chunks, j + 1, ChunkPages);
        return Err(added.error);
      }
      pages := added.value;
      j := j + 1;
    }
    assert chunks[..j] == chunks;
    return Ok(pages);
  }

  /**
   * The body of the inner loop: the pages of one chunk added to the set
   * (`union` of a range, `add` of a page), or the error `split` or `int`
   * raises on it.
   */
  method AddChunk(onebased: set<nat>, chunk: string) returns (r: Result<set<nat>, ParseError>)
    ensures ChunkPages(chunk).Err? ==> r == ChunkPages(chunk)
    ensures ChunkPages(chunk).Ok? ==> r == Ok(onebased + ChunkPages(chunk).value)
  {
    if '-' in chunk {
      var halves := Split(chunk, '-');
      if |halves| != 2 {
        return Err(TooManyDashes(chunk));
      }
      var first := ParseInt(halves[0]);
      if first.Err? {
        return Err(first.error);
      }
      var last := ParseInt(halves[1]);
      if last.Err? {
        return Err(last.error);
      }
      return Ok(onebased + PageSpan(first.value, last.value));
    } else {
      var page := ParseInt(chunk);
      if page.Err? {
        return Err(page.error);
      }
      return Ok(onebased + {page.value});
    }
  }

  // ---------------------------------------------------------------------------
  // Lemmas

  /** Once a text has failed, the texts after it do not matter. */
  lemma {:induction false} GatherErrSticky(texts: seq<string>, k: nat, parse: string -> Result<set<nat>, ParseError>)
    requires k <= |texts| && Gather(texts[..k], parse).Err?
    ensures Gather(texts, parse) == Gather(texts[..k], parse)
    decreases |texts| - k
  {
    if k < |texts| {
      assert texts[..k + 1][..k] == texts[..k];
      GatherErrSticky(texts, k + 1, parse);
    } else {
      assert texts[..k] == texts;
    }
  }

  /** A text that parses adds its pages. */
  lemma GatherAppend(texts: seq<string>, t: string, parse: string -> Result<set<nat>, ParseError>)
    requires Gather(texts, parse).Ok? && parse(t).Ok?
    ensures Gather(texts + [t], parse) == Ok(Gather(texts, parse).value + parse(t).value)
  {
    assert (texts + [t])[..|texts|] == texts;
  }

  /**
   * `Gather` succeeds exactly when every text parses, and then holds exactly
   * the pages of the texts.
   */
  lemma {:induction false} GatherUnion(texts: seq<string>, parse: string -> Result<set<nat>, ParseError>)
    ensures Gather(texts, parse).Ok? <==> forall t :: t in texts ==> parse(t).Ok?
    ensures Gather(texts, parse).Ok? ==> forall x :: x in Gather(texts, parse).value <==>
      exists t :: t in texts && parse(t).Ok? && x in parse(t).value
  {
    if |texts| > 0 {
      var pre, last := texts[..|texts| - 1], texts[|texts| - 1];
      GatherUnion(pre, parse);
      assert texts == pre + [last];
      assert forall t :: t in texts <==> t in pre || t == last;
      if Gather(texts, parse).Ok? {
        forall x | x in Gather(texts, parse).value
          ensures exists t :: t in texts && parse(t).Ok? && x in parse(t).value
        {
          if x !in parse(last).value {
            var t :| t in pre && parse(t).Ok? && x in parse(t).value;
            assert t in texts;
          }
        }
      }
    }
  }

  /** `Gather` fails with the error of the first text that fails. */
  lemma {:induction false} GatherFirstError(texts: seq<string>, parse: string -> Result<set<nat>, ParseError>)
    requires Gather(texts, parse).Err?
    ensures exists i :: (0 <= i < |texts| && parse(texts[i]) == Err(Gather(texts, parse).error) &&
      forall k :: 0 <= k < i ==> parse(texts[k]).Ok?)
  {
    var pre := texts[..|texts| - 1];
    assert forall i :: 0 <= i < |pre| ==> pre[i] == texts[i];
    if Gather(pre, parse).Err? {
      GatherFirstError(pre, parse);
      var i :| 0 <= i < |pre| && parse(pre[i]) == Err(Gather(pre, parse).error)
        && forall k :: 0 <= k < i ==> parse(pre[k]).Ok?;
      assert parse(texts[i]) == Err(Gather(texts, parse).error);
    } else {
      GatherUnion(pre, parse);
      assert forall k :: 0 <= k < |pre| ==> pre[k] in pre;
      assert parse(texts[|pre|]) == Err(Gather(texts, parse).error);
    }
  }

  /** The order and the repetition of the texts do not matter, only which texts occur. */
  lemma GatherSameTexts(a: seq<string>, b: seq<string>, parse: string -> Result<set<nat>, ParseError>)
    requires forall t :: t in a <==> t in b
    ensures Gather(a, parse).Ok? <==> Gather(b, parse).Ok?
    ensures Gather(a, parse).Ok? ==> Gather(a, parse).value == Gather(b, parse).value
  {
    GatherUnion(a, parse);
    GatherUnion(b, parse);
  }

  /** Two strictly ascending sequences with the same elements are equal: `sorted` is determined. */
  lemma {:induction false} AscendingUnique(s: seq<int>, t: seq<int>)
    requires StrictlyAscending(s) && StrictlyAscending(t)
    requires forall x :: x in s <==> x in t
    ensures s == t
    decreases |s|
  {
    if |s| > 0 {
      assert s[0] in s;
    }
    if |t| > 0 {
      assert t[0] in t;
    }
    if |s| > 0 && |t| > 0 {
      var i :| 0 <= i < |t| && t[i] == s[0];
      var k :| 0 <= k < |s| && s[k] == t[0];
      assert t[0] <= t[i] && s[0] <= s[k];
      forall x ensures x in s[1..] <==> x in t[1..] {
        if x in s[1..] {
          var i :| 1 <= i < |s| && s[i] == x;
          assert s[i] in s;
          var k :| 0 <= k < |t| && t[k] == x;
          assert k != 0;
        }
        if x in t[1..] {
          var i :| 1 <= i < |t| && t[i] == x;
          assert t[i] in t;
          var k :| 0 <= k < |s| && s[k] == x;
          assert k != 0;
        }
      }
      AscendingUnique(s[1..], t[1..]);
      assert s == [s[0]] + s[1..] && t == [t[0]] + t[1..];
    }
  }

  /** `sorted(S)` is the one strictly ascending sequence of the elements of `S`. */
  lemma AscendingIs(S: set<nat>, s: seq<nat>)
    requires StrictlyAscending(s)
    requires forall x :: x in s <==> x in S
    ensures Ascending(S) == s
  {
    AscendingUnique(Ascending(S), s);
  }

  /** `first, first + 1, ..., last`; empty when `first > last`. */
  function Consecutive(first: int, last: int): (s: seq<int>)
    ensures |s| == if first <= last then last - first + 1 else 0
    ensures forall k :: 0 <= k < |s| ==> s[k] == first + k
  {
    seq(if first <= last then last - first + 1 else 0, k requires 0 <= k => first + k)
  }

  /** `sorted(range(first, last + 1))` lists the pages of the span in order. */
  lemma SortedSpan(first: nat, last: nat)
    ensures Ascending(PageSpan(first, last)) == Consecutive(first, last)
  {
    var s := Consecutive(first, last);
    assert forall k :: 0 <= k < |s| ==> s[k] >= 0;
    var t: seq<nat> := s;
    forall x ensures x in t <==> x in PageSpan(first, last) {
      if first <= x <= last {
        assert t[x - first] == x;
      }
    }
    AscendingIs(PageSpan(first, last), t);
  }

  /** Shifting a run of consecutive one-based pages gives the run of their indices. */
  lemma ShiftedSpan(first: nat, last: nat)
    ensures SortedIndices(PageSpan(first, last)) == Consecutive(first - 1, last - 1)
  {
    SortedSpan(first, last);
  }

  /**
   * With at least one `-p`, the selection is strictly ascending (so free of
   * duplicates) and holds index k exactly when one-based page k + 1 was named.
   * No bounds are checked: page 0 gives index -1.
   */
  lemma SelectionIsSortedShiftedSet(pageranges: seq<string>)
    requires |pageranges| > 0 && PageIndices(pageranges).Ok?
    ensures StrictlyAscending(PageIndices(pageranges).value)
    ensures forall k :: k in PageIndices(pageranges).value <==> k + 1 in OneBasedPages(pageranges).value
  {
    SortedShifted(OneBasedPages(pageranges).value);
  }

  lemma SortedShifted(pages: set<nat>)
    ensures StrictlyAscending(SortedIndices(pages))
    ensures forall k :: k in SortedIndices(pages) <==> k + 1 in pages
  {
    var sorted := Ascending(pages);
    var indices := ZeroBased(sorted);
    forall k ensures k in indices <==> k + 1 in pages {
      if k in indices {
        var i :| 0 <= i < |indices| && indices[i] == k;
        assert sorted[i] == k + 1;
      }
      if k + 1 in pages {
        assert k + 1 in sorted;
        var i :| 0 <= i < |sorted| && sorted[i] == k + 1;
        assert indices[i] == k;
      }
    }
  }

  /**
   * The selection is the union over all `-p` strings: reordering or repeating
   * them changes nothing (when one is malformed, both fail).
   */
  lemma SelectionIgnoresOrderAndRepetition(a: seq<string>, b: seq<string>)
    requires |a| > 0 && |b| > 0
    requires forall t :: t in a <==> t in b
    ensures PageIndices(a).Ok? <==> PageIndices(b).Ok?
    ensures PageIndices(a).Ok? ==> PageIndices(a) == PageIndices(b)
  {
    GatherSameTexts(a, b, SpecPages);
  }

  /** A well-formed range `start-end` adds every page from `start` to `end`, none when `start > end`. */
  lemma RangeChunk(first: nat, last: nat)
    ensures ChunkPages(NatToString(first) + "-" + NatToString(last)) == Ok(PageSpan(first, last))
    ensures first > last ==> PageSpan(first, last) == {}
  {
    var a, b := NatToString(first), NatToString(last);
    NatToStringParses(first);
    NatToStringParses(last);
    assert '-' !in a && '-' !in b;
    SplitJoin([a, b], '-');
    assert Join([a, b], '-') == a + "-" + b;
    assert (a + "-" + b)[|a|] == '-';
  }

  /** A decimal numeral holds no `-` (nor `,`). */
  lemma NumeralHasNoDash(s: string)
    requires IsNumeral(s)
    ensures '-' !in s && ',' !in s
  {
    forall c | c in s ensures c != '-' && c != ',' {
      var i :| 0 <= i < |s| && s[i] == c;
      assert IsDigit(s[i]);
    }
  }

  /** Two pieces joined by `-`. */
  lemma JoinTwo(a: string, b: string)
    ensures Join([a, b], '-') == a + "-" + b
  {
    assert [a, b][1..] == [b];
  }

  /** A chunk `a-b` of two numerals parses as the span from `a` to `b`. */
  lemma TwoNumeralsAccepted(chunk: string, i: nat)
    requires i < |chunk| && chunk[i] == '-' && IsNumeral(chunk[..i]) && IsNumeral(chunk[i + 1..])
    ensures ChunkPages(chunk) == Ok(PageSpan(NumeralValue(chunk[..i]), NumeralValue(chunk[i + 1..])))
  {
    var a, b := chunk[..i], chunk[i + 1..];
    NumeralHasNoDash(a);
    NumeralHasNoDash(b);
    SplitJoin([a, b], '-');
    JoinTwo(a, b);
    assert chunk == a + "-" + b;
  }

  /** An accepted chunk with a `-` is two numerals around it. */
  lemma AcceptedRangeIsTwoNumerals(chunk: string)
    requires ChunkPages(chunk).Ok? && '-' in chunk
    ensures exists i :: 0 <= i < |chunk| && chunk[i] == '-' && IsNumeral(chunk[..i]) && IsNumeral(chunk[i + 1..])
  {
    var halves := Split(chunk, '-');
    var a, b := halves[0], halves[1];
    assert IsNumeral(a) && IsNumeral(b);
    JoinSplit(chunk, '-');
    assert halves == [a, b];
    JoinTwo(a, b);
    var i := |a|;
    assert chunk == a + "-" + b;
    assert chunk[..i] == a && chunk[i + 1..] == b && chunk[i] == '-';
  }

  /**
   * A chunk is accepted exactly when it is a numeral, or two numerals around
   * its one `-`; anything else (two dashes, an empty or non-digit side, an
   * empty chunk) raises.
   */
  lemma ChunkAcceptedIff(chunk: string)
    ensures ChunkPages(chunk).Ok? <==>
      || IsNumeral(chunk)
      || exists i :: 0 <= i < |chunk| && chunk[i] == '-' && IsNumeral(chunk[..i]) && IsNumeral(chunk[i + 1..])
  {
    if ChunkPages(chunk).Ok? && '-' in chunk {
      AcceptedRangeIsTwoNumerals(chunk);
    }
    if IsNumeral(chunk) {
      NumeralHasNoDash(chunk);
    }
    if exists i :: 0 <= i < |chunk| && chunk[i] == '-' && IsNumeral(chunk[..i]) && IsNumeral(chunk[i + 1..]) {
      var i :| 0 <= i < |chunk| && chunk[i] == '-' && IsNumeral(chunk[..i]) && IsNumeral(chunk[i + 1..]);
      TwoNumeralsAccepted(chunk, i);
    }
  }

  /** A chunk that is one numeral, leading zeros included, adds exactly the page it denotes. */
  lemma OneNumeralAccepted(chunk: string)
    requires IsNumeral(chunk)
    ensures ChunkPages(chunk) == Ok({NumeralValue(chunk)})
  {
    NumeralHasNoDash(chunk);
  }

  /** The chunk `str(page)` adds exactly that page. */
  lemma PageChunk(page: nat)
    ensures ChunkPages(NatToString(page)) == Ok({page})
  {
    NatToStringParses(page);
    OneNumeralAccepted(NatToString(page));
  }

  /** A `-p` string is the union of its comma-separated chunks. */
  lemma SpecIsUnionOfChunks(chunks: seq<string>)
    requires |chunks| >= 1 && forall k :: 0 <= k < |chunks| ==> ',' !in chunks[k]
    ensures SpecPages(Join(chunks, ',')) == Gather(chunks, ChunkPages)
  {
    SplitJoin(chunks, ',');
  }

  /** A single `-p` string selects the sorted, shifted pages of its chunks. */
  lemma SelectionOfOneSpec(spec: string)
    ensures OneBasedPages([spec]) == SpecPages(spec)
  {
    assert [spec][..0] == [];
    assert Gather([], SpecPages) == Ok({});
    var f: string -> Result<set<nat>, ParseError> := SpecPages;
    assert f(spec) == SpecPages(spec);
    if SpecPages(spec).Ok? {
      assert {} + SpecPages(spec).value == SpecPages(spec).value;
    }
  }

  /** `-p "n"` selects page `n`. */
  lemma PageSpec(n: nat)
    ensures SpecPages(NatToString(n)) == Ok({n})
  {
    var chunk := NatToString(n);
    NatToStringParses(n);
    PageChunk(n);
    SpecIsUnionOfChunks([chunk]);
    assert Gather([], ChunkPages) == Ok({});
    GatherAppend([], chunk, ChunkPages);
    assert [] + [chunk] == [chunk];
    assert {} + {n} == {n};
  }

  /** `-p "a-b"` selects pages `a` to `b`. */
  lemma RangeSpec(first: nat, last: nat)
    ensures SpecPages(NatToString(first) + "-" + NatToString(last)) == Ok(PageSpan(first, last))
  {
    var chunk := NatToString(first) + "-" + NatToString(last);
    NatToStringParses(first);
    NatToStringParses(last);
    RangeChunk(first, last);
    assert ',' !in chunk by {
      assert forall k :: 0 <= k < |chunk| ==> chunk[k] == '-' || IsDigit(chunk[k]);
    }
    SpecIsUnionOfChunks([chunk]);
    assert Gather([], ChunkPages) == Ok({});
    GatherAppend([], chunk, ChunkPages);
    assert [] + [chunk] == [chunk];
    assert {} + PageSpan(first, last) == PageSpan(first, last);
  }

  /** `-p "a-b,n"` selects pages `a` to `b` and page `n`. */
  lemma RangeAndPageSpec(first: nat, last: nat, n: nat)
    ensures SpecPages(NatToString(first) + "-" + NatToString(last) + "," + NatToString(n))
      == Ok(PageSpan(first, last) + {n})
  {
    var range, page := NatToString(first) + "-" + NatToString(last), NatToString(n);
    NatToStringParses(first);
    NatToStringParses(last);
    NatToStringParses(n);
    RangeChunk(first, last);
    PageChunk(n);
    assert ',' !in range by {
      assert forall k :: 0 <= k < |range| ==> range[k] == '-' || IsDigit(range[k]);
    }
    SpecIsUnionOfChunks([range, page]);
    assert Join([range, page], ',') == range + "," + page;
    assert Gather([], ChunkPages) == Ok({});
    GatherAppend([], range, ChunkPages);
    assert [] + [range] == [range];
    GatherAppend([range], page, ChunkPages);
    assert [range] + [page] == [range, page];
    assert {} + PageSpan(first, last) == PageSpan(first, last);
  }

  /** Knowing the pages and their ascending order gives the selection. */
  lemma SelectionFromSortedPages(pageranges: seq<string>, pages: set<nat>, sorted: seq<nat>)
    requires |pageranges| > 0 && OneBasedPages(pageranges) == Ok(pages)
    requires StrictlyAscending(sorted) && forall x :: x in sorted <==> x in pages
    ensures PageIndices(pageranges) == Ok(ZeroBased(sorted))
  {
    AscendingIs(pages, sorted);
  }

  // ---------------------------------------------------------------------------
  // Examples

  lemma ExampleRangeAndPagePages(spec: string)
    requires spec == "1-3,5"
    ensures OneBasedPages([spec]) == Ok({1, 2, 3, 5})
  {
    RangeAndPageSpec(1, 3, 5);
    assert NatToString(1) == "1" && NatToString(3) == "3" && NatToString(5) == "5";
    assert "1" + "-" + "3" + "," + "5" == spec;
    assert PageSpan(1, 3) + {5} == {1, 2, 3, 5};
    SelectionOfOneSpec(spec);
  }

  /** `-p "1-3,5"` selects indices [0, 1, 2, 4]. */
  lemma ExampleRangeAndPage(spec: string)
    requires spec == "1-3,5"
    ensures PageIndices([spec]) == Ok([0, 1, 2, 4])
  {
    ExampleRangeAndPagePages(spec);
    ExampleRangeAndPageSorted({1, 2, 3, 5});
  }

  lemma ExampleRangeAndPageSorted(pages: set<nat>)
    requires pages == {1, 2, 3, 5}
    ensures SortedIndices(pages) == [0, 1, 2, 4]
  {
    assert forall x :: x in pages <==> x in [1, 2, 3, 5];
    AscendingIs(pages, [1, 2, 3, 5]);
    assert ZeroBased([1, 2, 3, 5]) == [0, 1, 2, 4];
  }

  lemma ExampleOverlapPages(page: string, range: string)
    requires page == "2" && range == "2-4"
    ensures OneBasedPages([page, range]) == Ok({2, 3, 4})
  {
    PageSpec(2);
    RangeSpec(2, 4);
    assert NatToString(2) == page && NatToString(4) == "4";
    assert "2" + "-" + "4" == range;
    assert PageSpan(2, 4) == {2, 3, 4};
    SelectionOfOneSpec(page);
    assert [page] + [range] == [page, range];
    GatherAppend([page], range, SpecPages);
    assert {2} + {2, 3, 4} == {2, 3, 4};
  }

  /** `-p 2 -p 2-4` selects indices [1, 2, 3]: duplicates collapse. */
  lemma ExampleOverlap(page: string, range: string)
    requires page == "2" && range == "2-4"
    ensures PageIndices([page, range]) == Ok([1, 2, 3])
  {
    ExampleOverlapPages(page, range);
    ExampleOverlapSorted({2, 3, 4});
  }

  lemma ExampleOverlapSorted(pages: set<nat>)
    requires pages == {2, 3, 4}
    ensures SortedIndices(pages) == [1, 2, 3]
  {
    assert forall x :: x in pages <==> x in [2, 3, 4];
    AscendingIs(pages, [2, 3, 4]);
    assert ZeroBased([2, 3, 4]) == [1, 2, 3];
  }

  /** `-p "5-3"` selects nothing: a range whose start is past its end is empty. */
  lemma ExampleBackwardRange(spec: string)
    requires spec == "5-3"
    ensures PageIndices([spec]) == Ok([])
  {
    RangeSpec(5, 3);
    assert NatToString(5) + "-" + NatToString(3) == spec;
    assert PageSpan(5, 3) == {};
    SelectionOfOneSpec(spec);
    SelectionFromSortedPages([spec], {}, []);
  }

  /** `-p "0"` is not refused: it selects index -1. */
  lemma ExamplePageZero(spec: string)
    requires spec == "0"
    ensures PageIndices([spec]) == Ok([-1])
  {
    PageSpec(0);
    assert NatToString(0) == spec;
    SelectionOfOneSpec(spec);
    SelectionFromSortedPages([spec], {0}, [0]);
    assert ZeroBased([0]) == [-1];
  }

  /** A chunk with two dashes is refused. */
  lemma ExampleTwoDashes(chunk: string)
    requires chunk == "1-2-3"
    ensures ChunkPages(chunk) == Err(TooManyDashes(chunk))
  {
    SplitJoin(["1", "2", "3"], '-');
    assert Join(["1", "2", "3"], '-') == chunk;
    assert chunk[1] == '-';
  }

  /** A range with an empty end is refused by `int("")`. */
  lemma ExampleOpenRange(chunk: string)
    requires chunk == "3-"
    ensures ChunkPages(chunk) == Err(NotAnInteger(""))
  {
    SplitJoin(["3", ""], '-');
    assert Join(["3", ""], '-') == chunk;
    assert chunk[1] == '-';
  }

  /** An empty chunk (as in `-p "1,"`) is refused by `int("")`. */
  lemma ExampleEmptyChunk(chunk: string)
    requires chunk == ""
    ensures ChunkPages(chunk) == Err(NotAnInteger(""))
  {
    assert !IsNumeral(chunk);
  }
}
