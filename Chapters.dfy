/** Chapter detection of `PDFToAudiobook.split_into_chapters`: a single pass over the
    lines of the document, keeping a current title and a buffer of content lines. */
module Chapters {
  import opened PyStr

  /** Title of whatever precedes the first heading. */
  const IntroTitle := "Intro"
  /** Titles are cut to this many characters, for use in file names. */
  const TitleLimit := 50

  /** An emitted chapter, as the source returns it: a title and its content text. */
  datatype Chapter = Chapter(title: string, content: string)

  /** The same chapter before its content lines are joined. */
  datatype Section = Section(title: string, lines: seq<string>)

  // ---------------------------------------------------------------------------
  // The heading test of line 50

  /** `re.match(kw + r'\b', line)`: the line starts with `kw`, and the keyword ends at a
      word boundary, that is at the end of the line or before a non-word character. */
  predicate KeywordAt(line: string, kw: string) {
    |kw| <= |line| && line[..|kw|] == kw && (|line| == |kw| || !IsWordChar(line[|kw|]))
  }

  /** The alternatives of the heading regex, in the order the regex tries them. */
  const HeadingKeywords: seq<string> := ["CHAPTER", "Chapter", "SECTION", "Section"]

  /** `re.match(r'^(' + '|'.join(kws) + r')\b', line)` */
  predicate MatchesAny(line: string, kws: seq<string>)
    decreases |kws|
  {
    kws != [] && (KeywordAt(line, kws[0]) || MatchesAny(line, kws[1..]))
  }

  /** `re.match(r'^(CHAPTER|Chapter|SECTION|Section)\b', line)` */
  predicate MatchesHeadingPattern(line: string) {
    MatchesAny(line, HeadingKeywords)
  }

  /** The pattern matches exactly when one of the four keywords opens the line at a
      word boundary. */
  lemma HeadingPatternMeaning(line: string)
    ensures MatchesHeadingPattern(line) <==>
      KeywordAt(line, "CHAPTER") || KeywordAt(line, "Chapter")
      || KeywordAt(line, "SECTION") || KeywordAt(line, "Section")
  {
    var kws := HeadingKeywords;
    assert kws[1..][1..][1..][1..] == [];
  }

  /** The heading test: the keyword pattern, or `line.isupper()`. */
  predicate IsHeading(line: string) {
    MatchesHeadingPattern(line) || IsUpper(line)
  }

  /** A line is a heading iff it opens with one of the four keywords followed by a
      non-word character or the end of the line, or it has an upper-case letter and no
      lower-case letter. */
  lemma HeadingMeaning(line: string)
    ensures IsHeading(line) <==>
      KeywordAt(line, "CHAPTER") || KeywordAt(line, "Chapter")
      || KeywordAt(line, "SECTION") || KeywordAt(line, "Section")
      || ((exists k :: 0 <= k < |line| && IsAsciiUpper(line[k]))
          && (forall k | 0 <= k < |line| :: !IsAsciiLower(line[k])))
  {
    HeadingPatternMeaning(line);
  }

  /** A line without any letter — blank, digits only, punctuation only — is never a
      heading: `isupper()` needs a cased letter and every keyword starts with one. */
  lemma NoLetterIsNotHeading(line: string)
    requires forall k | 0 <= k < |line| :: !IsAsciiLetter(line[k])
    ensures !IsHeading(line)
  {
    HeadingPatternMeaning(line);
    if |line| > 0 {
      assert !IsAsciiLetter(line[0]);
    }
  }

  /** The keyword must end at a word boundary: `Chapter 3` and `Chapter:` open a
      chapter by the pattern, `Chapters` and `Chapter_2` do not. */
  lemma KeywordBoundary(rest: string)
    ensures KeywordAt("Chapter" + rest, "Chapter") <==> (rest == [] || !IsWordChar(rest[0]))
  {
    var line := "Chapter" + rest;
    assert line[..7] == "Chapter";
    if rest != [] { assert line[7] == rest[0]; }
  }

  /** `line.strip()[:50]` */
  function TitleOf(line: string): (title: string)
    ensures title <= Strip(line)
    ensures |Strip(line)| <= TitleLimit ==> title == Strip(line)
    ensures |Strip(line)| > TitleLimit ==> |title| == TitleLimit
  {
    Take(Strip(line), TitleLimit)
  }

  /** A heading always yields a non-empty title: it contains a letter, which `strip`
      keeps. */
  lemma HeadingTitleNonEmpty(line: string)
    requires IsHeading(line)
    ensures TitleOf(line) != []
  {
    var c: char;
    if MatchesHeadingPattern(line) {
      HeadingPatternMeaning(line);
      assert line[..1][0] == line[0];
      c := line[0];
    } else {
      var k :| 0 <= k < |line| && IsAsciiUpper(line[k]);
      c := line[k];
    }
    assert !IsSpace(c);
    assert !AllSpace(line);
  }

  // ---------------------------------------------------------------------------
  // The fold of lines 44-59

  /** Appending the buffer as a section when it is not empty (lines 51-53 and 58-59).
      The test is on the list of lines, so one blank line is enough. */
  function Flush(title: string, buffer: seq<string>): seq<Section> {
    if buffer == [] then [] else [Section(title, buffer)]
  }

  /** The sections emitted from the remaining `lines`, given the current title and
      content buffer. */
  function Seg(lines: seq<string>, title: string, buffer: seq<string>): seq<Section>
    decreases |lines|
  {
    if lines == [] then Flush(title, buffer)
    else if IsHeading(lines[0]) then Flush(title, buffer) + Seg(lines[1..], TitleOf(lines[0]), [])
    else Seg(lines[1..], title, buffer + [lines[0]])
  }

  /** The sections of a whole document's lines, starting under the title "Intro". */
  function Segment(lines: seq<string>): seq<Section> {
    Seg(lines, IntroTitle, [])
  }

  function Render(sections: seq<Section>): (chapters: seq<Chapter>)
    ensures |chapters| == |sections|
    ensures forall k | 0 <= k < |sections| ::
      chapters[k] == Chapter(sections[k].title, Join(sections[k].lines, "\n"))
  {
    seq(|sections|, k requires 0 <= k < |sections| => Chapter(sections[k].title, Join(sections[k].lines, "\n")))
  }

  /** `split_into_chapters` (lines 42-61). */
  method SplitIntoChapters(text: string) returns (chapters: seq<Chapter>)
    ensures chapters == Render(Segment(SplitLines(text)))
  {
    var lines := SplitLines(text);
    chapters := [];
    var currentTitle := IntroTitle;
    var currentContent: seq<string> := [];
    ghost var emitted: seq<Section> := [];
    for i := 0 to |lines|
      invariant chapters == Render(emitted)
      invariant Segment(lines) == emitted + Seg(lines[i..], currentTitle, currentContent)
    {
      var line := lines[i];
      FoldStep(lines, i, emitted, currentTitle, currentContent);
      if IsHeading(line) {
        RenderFlush(emitted, currentTitle, currentContent);
        if currentContent != [] {
          chapters := chapters + [Chapter(currentTitle, Join(currentContent, "\n"))];
        }
        emitted := emitted + Flush(currentTitle, currentContent);
        currentContent := [];
        currentTitle := TitleOf(line);
      } else {
        currentContent := currentContent + [line];
      }
    }
    RenderFlush(emitted, currentTitle, currentContent);
    if currentContent != [] {
      chapters := chapters + [Chapter(currentTitle, Join(currentContent, "\n"))];
    }
    emitted := emitted + Flush(currentTitle, currentContent);
    assert lines[|lines|..] == [];
  }

  /** An empty document has no chapters, not even an empty "Intro". */
  lemma EmptyTextNoChapters(text: string)
    requires text == []
    ensures Render(Segment(SplitLines(text))) == []
  {
  }

  /** A document that is one blank line is one "Intro" chapter whose content is that
      line: a blank line is no heading, and the flush test is on the buffer, not on
      its text. */
  lemma LoneBlankLine(line: string)
    requires AllSpace(line)
    ensures Render(Segment([line])) == [Chapter(IntroTitle, line)]
  {
    NoLetterIsNotHeading(line);
    var lines := [line];
    assert lines[0] == line && lines[1..] == [];
    assert Segment(lines) == Seg([], IntroTitle, [] + [line]);
    assert [] + [line] == [line];
    assert Segment(lines) == [Section(IntroTitle, [line])];
  }

  /** One iteration of the loop keeps the fold invariant. */
  lemma FoldStep(lines: seq<string>, i: nat, emitted: seq<Section>, title: string, buffer: seq<string>)
    requires i < |lines|
    requires Segment(lines) == emitted + Seg(lines[i..], title, buffer)
    ensures IsHeading(lines[i]) ==>
      Segment(lines) == (emitted + Flush(title, buffer)) + Seg(lines[i + 1..], TitleOf(lines[i]), [])
    ensures !IsHeading(lines[i]) ==>
      Segment(lines) == emitted + Seg(lines[i + 1..], title, buffer + [lines[i]])
  {
    assert lines[i..][1..] == lines[i + 1..];
  }

  /** Emitting the buffer adds its chapter, if any. */
  lemma RenderFlush(sections: seq<Section>, title: string, buffer: seq<string>)
    ensures Render(sections + Flush(title, buffer))
      == Render(sections) + (if buffer == [] then [] else [Chapter(title, Join(buffer, "\n"))])
  {
    if buffer == [] {
      assert sections + Flush(title, buffer) == sections;
    }
  }

  // ---------------------------------------------------------------------------
  // What the fold computes

  function Flatten(sections: seq<Section>): seq<string>
    decreases |sections|
  {
    if sections == [] then [] else sections[0].lines + Flatten(sections[1..])
  }

  function NonHeadings(lines: seq<string>): seq<string>
    decreases |lines|
  {
    if lines == [] then []
    else (if IsHeading(lines[0]) then [] else [lines[0]]) + NonHeadings(lines[1..])
  }

  lemma {:induction false} FlattenAppend(a: seq<Section>, b: seq<Section>)
    ensures Flatten(a + b) == Flatten(a) + Flatten(b)
    decreases |a|
  {
    if a == [] {
      assert a + b == b;
    } else {
      assert (a + b)[1..] == a[1..] + b;
      FlattenAppend(a[1..], b);
    }
  }

  /** Partition: the content lines of the emitted sections, in order, are the buffered
      lines followed by exactly the non-heading lines of the input. */
  lemma {:induction false} SegPartition(lines: seq<string>, title: string, buffer: seq<string>)
    ensures Flatten(Seg(lines, title, buffer)) == buffer + NonHeadings(lines)
    decreases |lines|
  {
    if lines == [] {
      FlattenFlush(title, buffer);
    } else if IsHeading(lines[0]) {
      var t := TitleOf(lines[0]);
      var rest := NonHeadings(lines[1..]);
      SegAtHeading(lines, title, buffer);
      assert NonHeadings(lines) == [] + rest == rest;
      SegPartition(lines[1..], t, []);
      assert [] + rest == rest;
      FlattenAppend(Flush(title, buffer), Seg(lines[1..], t, []));
      FlattenFlush(title, buffer);
    } else {
      var rest := NonHeadings(lines[1..]);
      var buffer' := buffer + [lines[0]];
      assert Seg(lines, title, buffer) == Seg(lines[1..], title, buffer');
      assert NonHeadings(lines) == [lines[0]] + rest;
      SegPartition(lines[1..], title, buffer');
      assert buffer' + rest == buffer + ([lines[0]] + rest);
    }
  }

  lemma FlattenFlush(title: string, buffer: seq<string>)
    ensures Flatten(Flush(title, buffer)) == buffer
  {
    if buffer != [] { assert Flush(title, buffer)[1..] == []; }
  }


  /** No line is lost, duplicated or reordered: the chapters' content lines, read in
      order, are exactly the non-heading lines of the document. */
  lemma SegmentPartition(lines: seq<string>)
    ensures Flatten(Segment(lines)) == NonHeadings(lines)
  {
    SegPartition(lines, IntroTitle, []);
  }

  lemma {:induction false} NonHeadingsHaveNoHeading(lines: seq<string>)
    ensures forall k | 0 <= k < |NonHeadings(lines)| :: !IsHeading(NonHeadings(lines)[k])
    decreases |lines|
  {
    if lines != [] { NonHeadingsHaveNoHeading(lines[1..]); }
  }

  /** No heading line ends up in a chapter's content, and every emitted section has at
      least one content line. */
  lemma {:induction false} SegSections(lines: seq<string>, title: string, buffer: seq<string>)
    requires forall k | 0 <= k < |buffer| :: !IsHeading(buffer[k])
    ensures forall s | s in Seg(lines, title, buffer) ::
      s.lines != [] && forall k | 0 <= k < |s.lines| :: !IsHeading(s.lines[k])
    decreases |lines|
  {
    if lines != [] {
      if IsHeading(lines[0]) {
        SegSections(lines[1..], TitleOf(lines[0]), []);
      } else {
        SegSections(lines[1..], title, buffer + [lines[0]]);
      }
    }
  }

  /** A heading as the last line emits nothing of its own. */
  lemma {:induction false} TrailingHeading(lines: seq<string>, heading: string, title: string, buffer: seq<string>)
    requires IsHeading(heading)
    ensures Seg(lines + [heading], title, buffer) == Seg(lines, title, buffer)
    decreases |lines|
  {
    if lines == [] {
      assert [] + [heading] == [heading];
      assert Seg([heading], title, buffer) == Flush(title, buffer) + Seg([], TitleOf(heading), []);
    } else {
      assert (lines + [heading])[1..] == lines[1..] + [heading];
      if IsHeading(lines[0]) {
        TrailingHeading(lines[1..], heading, TitleOf(lines[0]), []);
      } else {
        TrailingHeading(lines[1..], heading, title, buffer + [lines[0]]);
      }
    }
  }

  /** A heading directly followed by another heading emits nothing and its title is
      replaced by the second one. */
  lemma ConsecutiveHeadings(lines: seq<string>, title: string, buffer: seq<string>)
    requires |lines| >= 2 && IsHeading(lines[0]) && IsHeading(lines[1])
    ensures Seg(lines, title, buffer) == Flush(title, buffer) + Seg(lines[2..], TitleOf(lines[1]), [])
  {
    SegAtHeading(lines, title, buffer);
    HeadingAfterEmpty(lines, TitleOf(lines[0]));
  }

  /** A heading reached with an empty buffer only replaces the title. */
  lemma HeadingAfterEmpty(lines: seq<string>, title: string)
    requires |lines| >= 2 && IsHeading(lines[1])
    ensures Seg(lines[1..], title, []) == Seg(lines[2..], TitleOf(lines[1]), [])
  {
    var tail := lines[1..];
    assert tail[0] == lines[1] && tail[1..] == lines[2..];
    SegAtHeading(tail, title, []);
  }

  /** One step of the fold at a heading line. */
  lemma SegAtHeading(lines: seq<string>, title: string, buffer: seq<string>)
    requires lines != [] && IsHeading(lines[0])
    ensures Seg(lines, title, buffer) == Flush(title, buffer) + Seg(lines[1..], TitleOf(lines[0]), [])
  {
  }

  // ---------------------------------------------------------------------------
  // An independent description: the maximal heading-free runs

  /** Index of the first heading line, or `|lines|` when there is none. */
  function FirstHeading(lines: seq<string>): (j: nat)
    ensures j <= |lines|
    ensures j < |lines| ==> IsHeading(lines[j])
    ensures forall k | 0 <= k < j :: !IsHeading(lines[k])
    decreases |lines|
  {
    if lines == [] || IsHeading(lines[0]) then 0 else 1 + FirstHeading(lines[1..])
  }

  /** The document cut at its headings: the lines before the first heading form a
      section titled `title`, the lines between a heading and the next one (or the end)
      form a section titled after that heading, and empty runs form no section. */
  function Blocks(lines: seq<string>, title: string): seq<Section>
    decreases |lines|
  {
    var j := FirstHeading(lines);
    Flush(title, lines[..j]) + (if j == |lines| then [] else Blocks(lines[j + 1..], TitleOf(lines[j])))
  }

  lemma SegUpToHeading(lines: seq<string>, title: string, buffer: seq<string>)
    ensures var j := FirstHeading(lines);
      Seg(lines, title, buffer) == Flush(title, buffer + lines[..j])
        + (if j == |lines| then [] else Seg(lines[j + 1..], TitleOf(lines[j]), []))
  {
    var j := FirstHeading(lines);
    SegBuffers(lines, title, buffer, j);
    var after := lines[j..];
    if j < |lines| {
      assert after[0] == lines[j] && after[1..] == lines[j + 1..];
      SegAtHeading(after, title, buffer + lines[..j]);
    } else {
      assert after == [];
    }
  }

  /** Non-heading lines are only buffered: up to any heading-free prefix, the fold just
      moves that prefix into the buffer. */
  lemma {:induction false} SegBuffers(lines: seq<string>, title: string, buffer: seq<string>, j: nat)
    requires j <= |lines|
    requires forall k | 0 <= k < j :: !IsHeading(lines[k])
    ensures Seg(lines, title, buffer) == Seg(lines[j..], title, buffer + lines[..j])
    decreases j
  {
    if j == 0 {
      assert buffer + lines[..0] == buffer;
    } else {
      assert !IsHeading(lines[0]);
      var rest := lines[1..];
      assert forall k | 0 <= k < j - 1 :: rest[k] == lines[k + 1];
      SegBuffers(rest, title, buffer + [lines[0]], j - 1);
      ShiftIntoBuffer(lines, buffer, j);
    }
  }

  /** Moving the first line of a run into the buffer leaves the buffered run, and what
      follows it, unchanged. */
  lemma ShiftIntoBuffer(lines: seq<string>, buffer: seq<string>, j: nat)
    requires 0 < j <= |lines|
    ensures (buffer + [lines[0]]) + lines[1..][..j - 1] == buffer + lines[..j]
    ensures j < |lines| ==> lines[1..][j - 1] == lines[j] && lines[1..][j..] == lines[j + 1..]
  {
    assert lines[..j] == [lines[0]] + lines[1..][..j - 1];
  }

  /** The fold computes exactly the heading-delimited runs; in particular a chapter is
      titled "Intro" when it precedes the first heading and otherwise after the most
      recent heading, and headings with nothing after them produce no chapter. */
  lemma {:induction false} SegmentIsBlocks(lines: seq<string>, title: string)
    ensures Seg(lines, title, []) == Blocks(lines, title)
    decreases |lines|
  {
    SegUpToHeading(lines, title, []);
    var j := FirstHeading(lines);
    assert [] + lines[..j] == lines[..j];
    if j < |lines| {
      SegmentIsBlocks(lines[j + 1..], TitleOf(lines[j]));
    }
  }

  function CountHeadings(lines: seq<string>): nat
    decreases |lines|
  {
    if lines == [] then 0 else (if IsHeading(lines[0]) then 1 else 0) + CountHeadings(lines[1..])
  }

  lemma {:induction false} CountHeadingsAfter(lines: seq<string>, j: nat)
    requires j <= |lines| && forall k | 0 <= k < j :: !IsHeading(lines[k])
    ensures CountHeadings(lines) == CountHeadings(lines[j..])
    decreases j
  {
    if j > 0 {
      CountHeadingsAfter(lines[1..], j - 1);
      assert lines[1..][j - 1..] == lines[j..];
    }
  }

  /** There is at most one chapter more than there are headings. */
  lemma {:induction false} BlocksCount(lines: seq<string>, title: string)
    ensures |Blocks(lines, title)| <= CountHeadings(lines) + 1
    decreases |lines|
  {
    var j := FirstHeading(lines);
    CountHeadingsAfter(lines, j);
    if j < |lines| {
      BlocksCount(lines[j + 1..], TitleOf(lines[j]));
      assert lines[j..][1..] == lines[j + 1..];
    }
  }

  lemma ChapterCount(text: string)
    ensures |Segment(SplitLines(text))| <= CountHeadings(SplitLines(text)) + 1
  {
    SegmentIsBlocks(SplitLines(text), IntroTitle);
    BlocksCount(SplitLines(text), IntroTitle);
  }

  /** `name` is the title of some heading line of `lines`. */
  predicate HeadingTitle(lines: seq<string>, name: string) {
    exists k :: 0 <= k < |lines| && IsHeading(lines[k]) && name == TitleOf(lines[k])
  }

  /** A heading title of a suffix of `lines` is a heading title of `lines`. */
  lemma HeadingTitleSuffix(lines: seq<string>, j: nat, name: string)
    requires j <= |lines| && HeadingTitle(lines[j..], name)
    ensures HeadingTitle(lines, name)
  {
    var rest := lines[j..];
    var k :| 0 <= k < |rest| && IsHeading(rest[k]) && name == TitleOf(rest[k]);
    assert rest[k] == lines[j + k];
  }

  /** Every chapter title is the starting title ("Intro" for a document) or the title
      of a heading line of the input. */
  lemma {:induction false} SegTitles(lines: seq<string>, title: string, buffer: seq<string>)
    ensures forall s | s in Seg(lines, title, buffer) :: s.title == title || HeadingTitle(lines, s.title)
    decreases |lines|
  {
    if lines == [] {
      assert forall s | s in Flush(title, buffer) :: s.title == title;
    } else if IsHeading(lines[0]) {
      var t := TitleOf(lines[0]);
      var head := Flush(title, buffer);
      var tail := Seg(lines[1..], t, []);
      assert Seg(lines, title, buffer) == head + tail;
      assert forall s | s in head :: s.title == title;
      SegTitles(lines[1..], t, []);
      SegTitlesTail(lines, tail);
      SectionTitlesConcat(lines, title, head, tail);
    } else {
      assert Seg(lines, title, buffer) == Seg(lines[1..], title, buffer + [lines[0]]);
      SegTitles(lines[1..], title, buffer + [lines[0]]);
      forall s | s in Seg(lines[1..], title, buffer + [lines[0]]) && s.title != title
        ensures HeadingTitle(lines, s.title)
      {
        HeadingTitleSuffix(lines, 1, s.title);
      }
    }
  }

  lemma SectionTitlesConcat(lines: seq<string>, title: string, head: seq<Section>, tail: seq<Section>)
    requires forall s | s in head :: s.title == title
    requires forall s | s in tail :: HeadingTitle(lines, s.title)
    ensures forall s | s in head + tail :: s.title == title || HeadingTitle(lines, s.title)
  {
  }

  /** The step of `SegTitles` at a heading: the sections after it are titled after it
      or after a later heading. */
  lemma SegTitlesTail(lines: seq<string>, tail: seq<Section>)
    requires lines != [] && IsHeading(lines[0])
    requires forall s | s in tail :: s.title == TitleOf(lines[0]) || HeadingTitle(lines[1..], s.title)
    ensures forall s | s in tail :: HeadingTitle(lines, s.title)
  {
    forall s | s in tail
      ensures HeadingTitle(lines, s.title)
    {
      if s.title != TitleOf(lines[0]) {
        HeadingTitleSuffix(lines, 1, s.title);
      }
    }
  }
}
