/** Page cleanup and page join of `PDFToAudiobook.pdf_to_text`.
    The PDF library is not modelled: a document is the sequence of the raw texts
    that `page.get_text("text")` returns, one per page, in page order. */
module PageText {
  import opened PyStr

  /** Pages with more than this many non-blank lines lose their running header and footer. */
  const ShortPageLines := 4
  /** Lines dropped from each end of a long page. */
  const HeaderLines := 2

  /** What the comprehension keeps of one line: its stripped form, unless that is empty. */
  function KeepLine(line: string): (kept: seq<string>)
    ensures |kept| <= 1
    ensures forall k | 0 <= k < |kept| :: kept[k] != [] && Stripped(kept[k])
  {
    var s := Strip(line);
    if s == [] then [] else [s]
  }

  /** `[line.strip() for line in lines if line.strip()]` */
  function KeepNonBlank(lines: seq<string>): (kept: seq<string>)
    ensures |kept| <= |lines|
    ensures forall k | 0 <= k < |kept| :: kept[k] != [] && Stripped(kept[k])
    decreases |lines|
  {
    if lines == [] then [] else KeepLine(lines[0]) + KeepNonBlank(lines[1..])
  }

  /** Stripping never introduces a line break. */
  lemma {:induction false} KeepNonBlankNoBreak(lines: seq<string>)
    requires forall k | 0 <= k < |lines| :: NoBreak(lines[k])
    ensures forall k | 0 <= k < |KeepNonBlank(lines)| :: NoBreak(KeepNonBlank(lines)[k])
    decreases |lines|
  {
    if lines != [] {
      StripNoBreak(lines[0]);
      KeepNonBlankNoBreak(lines[1..]);
    }
  }

  /** The comprehension works line by line: it distributes over concatenation and
      keeps a single line exactly when that line is not blank, stripped. Together
      these say it keeps the stripped non-blank lines in their original order. */
  lemma {:induction false} KeepNonBlankAppend(a: seq<string>, b: seq<string>)
    ensures KeepNonBlank(a + b) == KeepNonBlank(a) + KeepNonBlank(b)
    decreases |a|
  {
    if a != [] {
      var ab := a + b;
      assert ab[0] == a[0];
      assert ab[1..] == a[1..] + b;
      KeepNonBlankAppend(a[1..], b);
      assert KeepNonBlank(ab) == KeepLine(a[0]) + KeepNonBlank(a[1..] + b);
      assert KeepNonBlank(a) == KeepLine(a[0]) + KeepNonBlank(a[1..]);
      assert KeepLine(a[0]) + (KeepNonBlank(a[1..]) + KeepNonBlank(b))
          == (KeepLine(a[0]) + KeepNonBlank(a[1..])) + KeepNonBlank(b);
    } else {
      assert a + b == b;
    }
  }

  lemma KeepNonBlankOne(line: string)
    ensures KeepNonBlank([line]) == if AllSpace(line) then [] else [Strip(line)]
  {
    assert [line][1..] == [];
  }

  /** The cleaned lines of one page (lines 34-36). */
  function CleanLines(raw: string): (lines: seq<string>)
    ensures forall k | 0 <= k < |lines| :: lines[k] != [] && Stripped(lines[k]) && NoBreak(lines[k])
  {
    var kept := KeepNonBlank(SplitLines(raw));
    KeepNonBlankNoBreak(SplitLines(raw));
    if |kept| > ShortPageLines then kept[HeaderLines..|kept| - HeaderLines] else kept
  }

  /** A page with more than four non-blank lines loses exactly its first two and its
      last two; a shorter page keeps all of them. */
  lemma CleanLinesMeaning(raw: string)
    ensures var kept := KeepNonBlank(SplitLines(raw));
      var lines := CleanLines(raw);
      if |kept| > ShortPageLines then
        |lines| == |kept| - 2 * HeaderLines && forall k | 0 <= k < |lines| :: lines[k] == kept[k + HeaderLines]
      else
        lines == kept
  {
  }

  /** The text of one cleaned page (line 37). */
  function CleanPage(raw: string): string {
    Join(CleanLines(raw), "\n")
  }

  /** The cleaned texts of the pages, one entry per page, in page order. */
  function CleanedPages(pages: seq<string>): (cleaned: seq<string>)
    ensures |cleaned| == |pages|
    ensures forall i | 0 <= i < |pages| :: cleaned[i] == CleanPage(pages[i])
    decreases |pages|
  {
    if pages == [] then [] else [CleanPage(pages[0])] + CleanedPages(pages[1..])
  }

  /** The document text that `pdf_to_text` returns. */
  function DocumentText(pages: seq<string>): string {
    Join(CleanedPages(pages), "\n")
  }

  /** `pdf_to_text` (lines 29-40): clean every page, collect the page texts, join them. */
  method PdfToText(pages: seq<string>) returns (text: string)
    ensures text == DocumentText(pages)
  {
    var allText: seq<string> := [];
    for i := 0 to |pages|
      invariant |allText| == i
      invariant forall k | 0 <= k < i :: allText[k] == CleanPage(pages[k])
    {
      var pageText := CleanPage(pages[i]);
      allText := allText + [pageText];
    }
    CleanedPagesPointwise(allText, pages);
    text := Join(allText, "\n");
  }

  lemma CleanedPagesPointwise(cleaned: seq<string>, pages: seq<string>)
    requires |cleaned| == |pages|
    requires forall k | 0 <= k < |pages| :: cleaned[k] == CleanPage(pages[k])
    ensures cleaned == CleanedPages(pages)
  {
  }

  /** A one-page document is that page's cleaned text, with no separator added. */
  lemma OnePageDocument(page: string)
    ensures DocumentText([page]) == CleanPage(page)
  {
    assert CleanedPages([page]) == [CleanPage(page)];
  }

  // ---------------------------------------------------------------------------
  // The lines that the chapter splitter then reads

  /** The lines one page contributes to the document: its cleaned lines, or a single
      empty line when nothing survives cleanup. */
  function PageContribution(raw: string): (lines: seq<string>)
    ensures lines != []
    ensures forall k | 0 <= k < |lines| :: NoBreak(lines[k]) && (lines[k] == [] || Stripped(lines[k]))
    ensures Join(lines, "\n") == CleanPage(raw)
  {
    var cl := CleanLines(raw);
    if cl == [] then [""] else cl
  }

  function PageLines(pages: seq<string>): (lines: seq<string>)
    ensures pages != [] ==> lines != []
    ensures forall k | 0 <= k < |lines| :: NoBreak(lines[k])
    ensures forall k | 0 <= k < |lines| :: lines[k] == [] || Stripped(lines[k])
    decreases |pages|
  {
    if pages == [] then [] else PageContribution(pages[0]) + PageLines(pages[1..])
  }

  function DropTrailingBlank(lines: seq<string>): seq<string> {
    if lines != [] && lines[|lines| - 1] == [] then lines[..|lines| - 1] else lines
  }

  lemma {:induction false} DocumentTextIsJoinOfLines(pages: seq<string>)
    ensures DocumentText(pages) == Join(PageLines(pages), "\n")
    decreases |pages|
  {
    if pages != [] {
      var rest := pages[1..];
      if rest == [] {
        assert CleanedPages(pages) == [CleanPage(pages[0])];
        assert PageLines(pages) == PageContribution(pages[0]) + PageLines(rest);
        assert PageLines(pages) == PageContribution(pages[0]);
      } else {
        DocumentTextIsJoinOfLines(rest);
        var cleaned := CleanedPages(pages);
        assert cleaned[1..] == CleanedPages(rest);
        JoinAppend(PageContribution(pages[0]), PageLines(rest), "\n");
      }
    }
  }

  /** `splitlines` undoes a `"\n"` join of break-free lines, except that a last
      empty line has no terminator and disappears. */
  lemma {:induction false} SplitLinesOfJoin(xs: seq<string>)
    requires forall k | 0 <= k < |xs| :: NoBreak(xs[k])
    ensures SplitLines(Join(xs, "\n")) == DropTrailingBlank(xs)
    decreases |xs|
  {
    if |xs| == 1 {
      SplitLinesNoBreak(xs[0]);
    } else if |xs| > 1 {
      var rest := xs[1..];
      assert Join(xs, "\n") == xs[0] + "\n" + Join(rest, "\n");
      SplitLinesCons(xs[0], Join(rest, "\n"));
      SplitLinesOfJoin(rest);
      DropTrailingBlankCons(xs[0], rest);
      assert xs == [xs[0]] + rest;
    }
  }

  lemma DropTrailingBlankCons(x: string, rest: seq<string>)
    requires rest != []
    ensures DropTrailingBlank([x] + rest) == [x] + DropTrailingBlank(rest)
  {
    var xs := [x] + rest;
    assert xs[|xs| - 1] == rest[|rest| - 1];
    if rest[|rest| - 1] == [] {
      assert xs[..|xs| - 1] == [x] + rest[..|rest| - 1];
    }
  }

  /** The lines of the document text are the cleaned lines of every page in page
      order, a page left with no line standing as one empty line — except that an
      empty LAST page leaves no line at all. No page is dropped or reordered. */
  lemma DocumentLines(pages: seq<string>)
    ensures SplitLines(DocumentText(pages)) == DropTrailingBlank(PageLines(pages))
  {
    DocumentTextIsJoinOfLines(pages);
    SplitLinesOfJoin(PageLines(pages));
  }

  /** Lines that are already stripped and non-blank pass the comprehension unchanged. */
  lemma {:induction false} KeepNonBlankOfClean(lines: seq<string>)
    requires forall k | 0 <= k < |lines| :: lines[k] != [] && Stripped(lines[k])
    ensures KeepNonBlank(lines) == lines
    decreases |lines|
  {
    if lines != [] {
      StripStripped(lines[0]);
      KeepNonBlankOfClean(lines[1..]);
    }
  }

  /** A page whose lines are all stripped and non-blank loses exactly its first two and
      last two lines when it has more than four, and nothing otherwise. */
  lemma CleanLinesOfCleanPage(raw: string)
    requires forall k | 0 <= k < |SplitLines(raw)| :: SplitLines(raw)[k] != [] && Stripped(SplitLines(raw)[k])
    ensures var ls := SplitLines(raw);
      CleanLines(raw) == if |ls| > 4 then ls[2..|ls| - 2] else ls
  {
    KeepNonBlankOfClean(SplitLines(raw));
  }

  /** A page whose lines are the six one-letter lines `a` to `f` keeps its two middle
      lines; `SixLineSplit` shows the page text `"a\nb\nc\nd\ne\nf\n"` has these lines. */
  lemma SixLinePage(raw: string)
    requires SplitLines(raw) == ["a", "b", "c", "d", "e", "f"]
    ensures CleanPage(raw) == "c\nd"
  {
    SixLineCleaned(raw);
    assert Join(["c", "d"], "\n") == "c" + "\n" + "d";
  }

  lemma SixLineCleaned(raw: string)
    requires SplitLines(raw) == ["a", "b", "c", "d", "e", "f"]
    ensures CleanLines(raw) == ["c", "d"]
  {
    var ls := SplitLines(raw);
    OneLetterLines(ls);
    CleanLinesOfCleanPage(raw);
    assert ls[2..|ls| - 2] == ["c", "d"];
  }

  lemma OneLetterLines(ls: seq<string>)
    requires ls == ["a", "b", "c", "d", "e", "f"]
    ensures forall k | 0 <= k < |ls| :: ls[k] != [] && Stripped(ls[k])
  {
    forall k | 0 <= k < |ls| ensures ls[k] != [] && Stripped(ls[k]) {
      assert |ls[k]| == 1 && 'a' <= ls[k][0] <= 'f';
    }
  }

  lemma SixLineSplit(raw: string)
    requires raw == "a\nb\nc\nd\ne\nf\n"
    ensures SplitLines(raw) == ["a", "b", "c", "d", "e", "f"]
  {
    var ls := ["a", "b", "c", "d", "e", "f"];
    var withEnd := ls + [""];
    assert Join(withEnd[6..], "\n") == "";
    assert Join(withEnd[5..], "\n") == "f\n";
    assert Join(withEnd[4..], "\n") == "e\nf\n";
    assert Join(withEnd[3..], "\n") == "d\ne\nf\n";
    assert Join(withEnd[2..], "\n") == "c\nd\ne\nf\n";
    assert Join(withEnd[1..], "\n") == "b\nc\nd\ne\nf\n";
    assert Join(withEnd, "\n") == raw;
    forall k | 0 <= k < |withEnd| ensures NoBreak(withEnd[k]) {
      assert |withEnd[k]| <= 1;
    }
    SplitLinesOfJoin(withEnd);
  }
}
