# PDF2Audio text pipeline in Dafny

`PDF2Audio.py` turns a PDF into a folder of MP3 files. This project models the
deterministic text pipeline in the middle of it (class `PDFToAudiobook`). The PDF
library, the tokenizer and the speech service around it are left out.

- **Page cleanup and join** (`pdf_to_text`). Each page is split into lines. The
  lines are stripped and the blank ones dropped. A page with more than four lines
  left loses its first two and last two as running header and footer. The lines
  are joined with `"\n"`, and then the pages are joined with `"\n"`.
  Module `PageText`.
- **Chapter segmentation** (`split_into_chapters`). One pass over the lines of the
  document keeps a current title (first `"Intro"`) and a buffer of content lines.
  A heading line flushes a non-empty buffer as a chapter and becomes the new
  title, stripped and cut to 50 characters. Any other line goes into the buffer
  unchanged. A line is a heading when it starts with `CHAPTER`, `Chapter`,
  `SECTION` or `Section` at a word boundary, or when `line.isupper()` holds.
  Module `Chapters`.
- **Token chunking** (`chunk_text`). The text is encoded into tokens. The tokens
  are cut into consecutive windows of `chunk_size` tokens, and each window is
  decoded. The tokenizer is a parameter: a pair of arbitrary total functions,
  with no round-trip law between them. Module `Chunker`.
- **Output naming and enumeration** (`convert_pdf`). Chapters, and the chunks
  within each chapter, are enumerated in order. Each chunk is sent to speech
  synthesis under the name `{pdf_name}_{idx}_{c_idx}_{safe_title}.mp3`, where
  `safe_title` is the chapter title with every run of non-word characters
  replaced by one `_`. `ConvertPdf` returns the sequence of these calls, in call
  order. Module `Audiobook`.

Module `PyStr` models the Python `str` builtins the pipeline uses:
- `splitlines` and `strip` over Python's complete sets of line-break and
  whitespace code points;
- `isupper` by its documented meaning, with CPython's scan as a reference, over
  ASCII letters;
- the regex class `\w` over ASCII;
- `sep.join` and `str(n)`.

The loops of the source are methods, each proved equal to a function:
- `PdfToText` to `DocumentText`;
- `SplitIntoChapters` to `Render(Segment(SplitLines(text)))`;
- `ChunkText` to `Chunks`;
- `ConvertPdf` to `AllJobs`.

The lemmas state the properties of those functions.

Where the prose description of the program and the code differ, the model
follows the code:
- A line with no letter at all (`""`, `"123"`, `"---"`) is **not** a heading,
  because `isupper()` needs a cased letter (`Chapters.NoLetterIsNotHeading`).
- The `chunk_text` docstring promises chunks of fewer than `chunk_size` tokens.
  The loop makes windows of **at most** `chunk_size` tokens, and every window but
  the last has exactly `chunk_size` (`Chunker.WindowSizes`).

## Model

| member | source | states |
|---|---|---|
| PyStr.IsSpace | PDF2Audio.py:34 | the code points `str.strip` removes: Python's full whitespace set (space, `\t`..`\r`, `\x1c`..`\x1f`, `\x85`, `\xa0`, `\u1680`, `\u2000`..`\u200a`, `\u2028`, `\u2029`, `\u202f`, `\u205f`, `\u3000`) |
| PyStr.IsLineBreak | PDF2Audio.py:34 | the code points `str.splitlines` breaks at: `\n`, `\v`, `\f`, `\r`, `\x1c`..`\x1e`, `\x85`, `\u2028`, `\u2029` |
| PyStr.IsWordChar | PDF2Audio.py:103 | the regex class `\w`: ASCII letters, digits and `_` |
| PyStr.SplitLines | PDF2Audio.py:34 | `splitlines`: no resulting line contains a line break, and the empty string is exactly the one with no lines; the terminator rules are the two lemmas below |
| PyStr.SplitLinesBreak | PDF2Audio.py:34 | a break-free line ended by any single line-break code point (a `\r` not followed by `\n`) contributes exactly that line, then the lines of the rest |
| PyStr.SplitLinesCrLf | PDF2Audio.py:34 | `"\r\n"` ends a line as one terminator: the break-free line before it, then the lines of the rest, with no empty line between |
| PyStr.SplitLinesCons | PDF2Audio.py:48 | a break-free line followed by `"\n"` contributes exactly that line, then the lines of the rest |
| PyStr.Strip | PDF2Audio.py:34 | `strip` yields a string with no whitespace at either end, empty exactly when the input is all whitespace, never longer than the input |
| PyStr.StripIsSlice | PDF2Audio.py:34 | `strip` returns the slice of the input between a whitespace-only prefix and a whitespace-only suffix |
| PyStr.StripStripped | PDF2Audio.py:34 | `strip` leaves an already stripped string unchanged |
| PyStr.Take | PDF2Audio.py:54 | `s[:n]` is the prefix of `s` of length `min(len(s), n)`: all of `s` when it is that short, exactly `n` characters otherwise |
| PyStr.IsUpper | PDF2Audio.py:50 | `isupper()`: the string has an upper-case letter and no lower-case letter |
| PyStr.IsUpperMeaning | PDF2Audio.py:50 | CPython's scan (fail on a lower-case letter, succeed at the end iff a cased letter was seen) decides exactly `isupper()` |
| PyStr.Join | PDF2Audio.py:37 | `sep.join(xs)`: `""` for no strings, the string itself for one, otherwise the first, `sep`, and the join of the rest |
| PyStr.JoinAppend | PDF2Audio.py:37-40 | joining two non-empty lists is joining their joins around one separator |
| PyStr.NatToString | PDF2Audio.py:104 | `str(n)` is a non-empty run of decimal digits with no leading zero |
| PyStr.NatToStringInjective | PDF2Audio.py:104 | different indices print differently |
| PageText.KeepLine | PDF2Audio.py:34 | one line of the comprehension: nothing when it strips to `""`, otherwise the stripped line, which is non-empty and stripped |
| PageText.KeepNonBlank | PDF2Audio.py:34 | the comprehension keeps at most as many lines as it reads, and every kept line is non-empty and stripped |
| PageText.KeepNonBlankAppend | PDF2Audio.py:34 | the comprehension distributes over concatenation, so kept lines keep their order |
| PageText.KeepNonBlankOne | PDF2Audio.py:34 | one line is dropped iff it is all whitespace, and is otherwise kept stripped |
| PageText.KeepNonBlankNoBreak | PDF2Audio.py:34 | stripping never introduces a line break |
| PageText.CleanLines | PDF2Audio.py:34-36 | every line of a cleaned page is non-empty, stripped and free of line breaks |
| PageText.CleanLinesMeaning | PDF2Audio.py:35-36 | with n > 4 kept lines exactly kept lines 2 .. n-3 remain (n - 4 lines), otherwise all n remain |
| PageText.CleanLinesOfCleanPage | PDF2Audio.py:34-36 | a page whose lines are already stripped and non-blank loses exactly its first two and last two lines when it has more than four |
| PageText.SixLinePage | PDF2Audio.py:34-37 | the page of lines `a` to `f` cleans to `"c\nd"` |
| PageText.SixLineSplit | PDF2Audio.py:34 | `"a\nb\nc\nd\ne\nf\n".splitlines()` is the six one-letter lines, with no trailing empty line |
| PageText.CleanPage | PDF2Audio.py:37 | a page's text is its cleaned lines joined by `"\n"` |
| PageText.CleanedPages | PDF2Audio.py:31-38 | one cleaned text per page, in page order, including pages that clean to `""` |
| PageText.DocumentText | PDF2Audio.py:40 | the document is the page texts joined by `"\n"`, one per page, in page order |
| PageText.PdfToText | PDF2Audio.py:29-40 | the loop returns the cleaned page texts joined by `"\n"` in page order |
| PageText.OnePageDocument | PDF2Audio.py:40 | a one-page document is that page's cleaned text, with no separator |
| PageText.PageContribution | PDF2Audio.py:37-38 | the lines one page puts into the document are never none, and they join back to its page text |
| PageText.SplitLinesOfJoin | PDF2Audio.py:48 | `splitlines` undoes a `"\n"` join of break-free lines, except that a last empty line disappears |
| PageText.DocumentLines | PDF2Audio.py:40-48 | the lines the chapter splitter reads are the cleaned lines of all pages in page order; a page with nothing left stands as one empty line, except as the last page |
| Chapters.KeywordAt | PDF2Audio.py:50 | `re.match(kw + r'\b', line)`: the line starts with `kw`, and `kw` is followed by the end of the line or a non-word character |
| Chapters.MatchesAny | PDF2Audio.py:50 | an alternation of keywords matches iff one of them matches at the start of the line |
| Chapters.MatchesHeadingPattern | PDF2Audio.py:50 | the regex is the alternation of `CHAPTER`, `Chapter`, `SECTION`, `Section`, tried in that order |
| Chapters.HeadingPatternMeaning | PDF2Audio.py:50 | the regex matches iff one of `CHAPTER`, `Chapter`, `SECTION`, `Section` opens the line at a word boundary |
| Chapters.IsHeading | PDF2Audio.py:50 | the heading test: the keyword regex matches, or `line.isupper()` holds |
| Chapters.HeadingMeaning | PDF2Audio.py:50 | a line is a heading iff one of the four keywords opens it at a word boundary, or it has an upper-case letter and no lower-case letter |
| Chapters.NoLetterIsNotHeading | PDF2Audio.py:50 | a line without letters (blank, digits, punctuation) is never a heading |
| Chapters.KeywordBoundary | PDF2Audio.py:50 | `Chapter` followed by the end or by a non-word character matches, `Chapters` and `Chapter_2` do not |
| Chapters.TitleOf | PDF2Audio.py:54 | a title is the first `min(len, 50)` characters of the stripped line: all of it when it has at most 50, exactly 50 otherwise |
| Chapters.HeadingTitleNonEmpty | PDF2Audio.py:50-54 | a heading always gives a non-empty title |
| Chapters.Flush | PDF2Audio.py:51-53 | a non-empty buffer becomes one section under the current title, an empty one none |
| Chapters.Seg | PDF2Audio.py:48-59 | the fold from a given title and buffer: at the end flush; on a heading flush and restart with its title and an empty buffer; otherwise buffer the line unchanged |
| Chapters.Segment | PDF2Audio.py:44-59 | the fold over a document starts under `"Intro"` with an empty buffer |
| Chapters.Render | PDF2Audio.py:52-59 | one chapter per section: its title and its lines joined by `"\n"` |
| Chapters.SplitIntoChapters | PDF2Audio.py:42-61 | the loop returns exactly the chapters of the fold over `text.splitlines()` that starts under `"Intro"` with an empty buffer |
| Chapters.EmptyTextNoChapters | PDF2Audio.py:48-61 | empty text yields no chapters |
| Chapters.LoneBlankLine | PDF2Audio.py:51-59 | a document of one blank line is one `"Intro"` chapter with that line as content |
| Chapters.SegPartition | PDF2Audio.py:48-59 | the emitted content lines, in order, are the buffered lines and then the non-heading lines |
| Chapters.SegmentPartition | PDF2Audio.py:48-59 | the chapters' content lines, in order, are exactly the non-heading input lines: none lost, duplicated or reordered |
| Chapters.NonHeadingsHaveNoHeading | PDF2Audio.py:50-56 | the non-heading lines contain no heading |
| Chapters.SegSections | PDF2Audio.py:51-59 | every emitted section has at least one line and no heading line |
| Chapters.TrailingHeading | PDF2Audio.py:54-59 | a heading as the last line emits nothing of its own |
| Chapters.ConsecutiveHeadings | PDF2Audio.py:50-54 | a heading directly followed by another emits nothing, and the second title replaces the first |
| Chapters.FirstHeading | PDF2Audio.py:50 | the index of the first heading, with no heading before it |
| Chapters.SegBuffers | PDF2Audio.py:55-56 | over a heading-free stretch the fold only moves the lines, unchanged and in order, into the buffer |
| Chapters.SegUpToHeading | PDF2Audio.py:48-56 | the fold buffers everything up to the first heading, flushes there and restarts under that heading's title |
| Chapters.SegmentIsBlocks | PDF2Audio.py:44-59 | the fold equals the independent cut at headings: text before the first heading is titled `"Intro"`, other runs after their heading |
| Chapters.CountHeadingsAfter | PDF2Audio.py:50 | no heading is skipped by starting the count after a heading-free prefix |
| Chapters.BlocksCount | PDF2Audio.py:51-59 | there is at most one chapter more than there are headings |
| Chapters.ChapterCount | PDF2Audio.py:42-61 | a document's chapter count is at most its heading count plus one |
| Chapters.SegTitles | PDF2Audio.py:45-54 | every chapter title is the starting title (`"Intro"` for a document) or the title of some heading line |
| Chunker.Windows | PDF2Audio.py:68-72 | the token windows: none for no tokens, all of them when at most `chunk_size` remain, otherwise the next `chunk_size` and the windows of the rest |
| Chunker.Chunks | PDF2Audio.py:65-72 | one chunk per window of `encode(text)`, each the decoded window, in order |
| Chunker.WindowsConcat | PDF2Audio.py:68-72 | the windows put back together are the token sequence: no gap, no overlap, no reordering |
| Chunker.WindowCount | PDF2Audio.py:66-73 | there are `ceil(N / chunk_size)` windows |
| Chunker.WindowAt | PDF2Audio.py:69-70 | window `i` is `tokens[i*cs : min((i+1)*cs, N)]` |
| Chunker.WindowSizes | PDF2Audio.py:68-72 | all windows but the last hold exactly `chunk_size` tokens, the last between 1 and `chunk_size` |
| Chunker.ChunksLayout | PDF2Audio.py:65-73 | `ceil(N / cs)` chunks, none iff there are no tokens, and chunk `i` decodes `tokens[i*cs : min((i+1)*cs, N)]` |
| Chunker.ChunkText | PDF2Audio.py:63-73 | the loop terminates for `chunk_size > 0` and returns the decoded windows |
| Chunker.ThreeChunks | PDF2Audio.py:68-72 | 250 tokens with a limit of 100 become windows of 100, 100 and 50 |
| Audiobook.SafeTitle | PDF2Audio.py:103 | the sanitised title has only word characters and is never longer than the title |
| Audiobook.SafeTitleFixes | PDF2Audio.py:103 | the substitution leaves a title unchanged iff it has only word characters |
| Audiobook.SafeTitleIdempotent | PDF2Audio.py:103 | sanitising twice is sanitising once |
| Audiobook.SafeTitleRun | PDF2Audio.py:103 | a maximal run of non-word characters after a word becomes exactly one `_` |
| Audiobook.SafeTitleKeepsAlnums | PDF2Audio.py:103 | all the letters and digits of the title are kept, in order |
| Audiobook.FileName | PDF2Audio.py:104 | the name `{pdf_name}_{idx}_{c_idx}_{safe_title}.mp3`, indices in decimal |
| Audiobook.SplitAtMark | PDF2Audio.py:104 | a string cut at its first `_` is cut in only one way |
| Audiobook.FileNameDetermines | PDF2Audio.py:104 | a file name determines the chapter index, the chunk index and the sanitised title |
| Audiobook.ChapterJobs | PDF2Audio.py:101-106 | chapter `idx` makes one call per chunk of its content, chunk `c` under the name for `(idx, c)` and the sanitised title |
| Audiobook.JobsFor | PDF2Audio.py:100-106 | the calls for a list of chapters are those of each chapter, chapter by chapter, chapter `i` numbered `i` |
| Audiobook.AllJobs | PDF2Audio.py:95-106 | the calls for a document are those for the chapters of its cleaned text |
| Audiobook.SpeakChapter | PDF2Audio.py:101-106 | the inner loop makes one call per chunk of the chapter, in chunk order, with its file name |
| Audiobook.ConvertPdf | PDF2Audio.py:95-106 | the calls are exactly the jobs of the cleaned, segmented and chunked document, chapter by chapter and chunk by chunk |
| Audiobook.JobsAreChunks | PDF2Audio.py:100-106 | every call speaks some chunk of some chapter, under that chapter's and chunk's file name |
| Audiobook.JobsOrdered | PDF2Audio.py:100-102 | calls come in strictly increasing `(idx, c_idx)` order |
| Audiobook.DistinctFileNames | PDF2Audio.py:103-106 | no two calls write the same file |
| Audiobook.EveryChunkSent | PDF2Audio.py:100-106 | every chunk of every chapter is spoken, at the position fixed by the chunks of the chapters before it |

## Left out

- Opening the PDF and `page.get_text("text")` (lines 28, 31-32): foreign library. A document is the sequence of its page texts.
- The `cl100k_base` encoder (lines 24, 65, 70): foreign library. `encode` and `decode` are arbitrary functions, and nothing relates them.
- The OpenAI client and `text_to_speech` (lines 20, 75-83): network I/O. `ConvertPdf` returns the calls instead of making them. An exception in `text_to_speech` (line 106) aborts every remaining call, so the returned sequence is the calls of a run in which no call fails; a failing run makes a prefix of it.
- `Path` handling, the output directory, `print` and the `__main__` example (lines 87-94, 105, 108, 112-119): I/O. `pdfName` is a parameter standing for `Path(pdf_path).stem`. File names are modelled without the directory prefix.
- Constructor settings `voice` and `instructions` (lines 14-15, 22-23) only reach the speech call. `chunk_size` (default 1800, line 13) is a parameter.
- Chunker.ChunkText: requires `chunk_size > 0`. With 0 and at least one token the source loop never advances and does not terminate; with 0 and no tokens it returns `[]`, which the model does not cover.
- Chapters.HeadingMeaning: `isupper()` and the regex `\b` are modelled over ASCII letters, digits and `_`. Python also counts non-ASCII cased letters and Unicode word characters.
- Audiobook.SafeTitle: `\W` is modelled over ASCII, so a non-ASCII letter is a non-word character here, not a word character as in Python.
