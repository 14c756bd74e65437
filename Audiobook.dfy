/** The orchestration of `PDFToAudiobook.convert_pdf` (lines 95-106): the pages are
    cleaned and joined, the text is cut into chapters, each chapter into chunks, and
    every chunk is sent to speech synthesis under a file name built from the PDF's
    name, the chapter index, the chunk index and the sanitised chapter title.
    Synthesis and file writing are not modelled: the model returns, in call order,
    the (file name, text) pairs that are handed to `text_to_speech`. */
module Audiobook {
  import opened PyStr
  import opened PageText
  import opened Chapters
  import opened Chunker

  const AudioExtension := ".mp3"

  // ---------------------------------------------------------------------------
  // re.sub(r'\W+', '_', title)

  /** Length of the run of non-word characters at the start of `s`. */
  function NonWordRun(s: string): (n: nat)
    ensures n <= |s|
    ensures forall k | 0 <= k < n :: !IsWordChar(s[k])
    ensures n < |s| ==> IsWordChar(s[n])
    decreases |s|
  {
    if s == [] || IsWordChar(s[0]) then 0 else 1 + NonWordRun(s[1..])
  }

  /** `re.sub(r'\W+', '_', title)` (line 103): every maximal run of non-word
      characters becomes one `_`; word characters stay where they are. The result
      consists of word characters only. */
  function SafeTitle(title: string): (safe: string)
    ensures forall k | 0 <= k < |safe| :: IsWordChar(safe[k])
    ensures |safe| <= |title|
    decreases |title|
  {
    if title == [] then []
    else if IsWordChar(title[0]) then [title[0]] + SafeTitle(title[1..])
    else "_" + SafeTitle(title[NonWordRun(title)..])
  }

  predicate AllWord(s: string) {
    forall k | 0 <= k < |s| :: IsWordChar(s[k])
  }

  /** The substitution changes a title iff the title has a non-word character. */
  lemma {:induction false} SafeTitleFixes(title: string)
    ensures SafeTitle(title) == title <==> AllWord(title)
    decreases |title|
  {
    if title != [] && IsWordChar(title[0]) {
      SafeTitleFixes(title[1..]);
      if AllWord(title) {
        assert AllWord(title[1..]) by {
          forall k | 0 <= k < |title| - 1 ensures IsWordChar(title[1..][k]) { assert title[1..][k] == title[k + 1]; }
        }
      }
    }
  }

  /** Sanitising twice is sanitising once. */
  lemma SafeTitleIdempotent(title: string)
    ensures SafeTitle(SafeTitle(title)) == SafeTitle(title)
  {
    SafeTitleFixes(SafeTitle(title));
  }

  /** A word prefix, then a maximal non-word run, gives the prefix and one `_`. */
  lemma {:induction false} SafeTitleRun(word: string, nonWord: string, rest: string)
    requires AllWord(word)
    requires nonWord != [] && forall k | 0 <= k < |nonWord| :: !IsWordChar(nonWord[k])
    requires rest == [] || IsWordChar(rest[0])
    ensures SafeTitle(word + nonWord + rest) == word + "_" + SafeTitle(rest)
    decreases |word|
  {
    var s := word + nonWord + rest;
    if word == [] {
      assert s == nonWord + rest;
      assert !IsWordChar(s[0]);
      NonWordRunOf(nonWord, rest);
      assert s[|nonWord|..] == rest;
      assert SafeTitle(s) == "_" + SafeTitle(rest);
    } else {
      assert s[0] == word[0] && IsWordChar(s[0]);
      assert s[1..] == word[1..] + nonWord + rest;
      assert SafeTitle(s) == [word[0]] + SafeTitle(s[1..]);
      SafeTitleRun(word[1..], nonWord, rest);
      assert word == [word[0]] + word[1..];
      assert [word[0]] + (word[1..] + "_" + SafeTitle(rest)) == word + "_" + SafeTitle(rest);
    }
  }

  lemma {:induction false} NonWordRunOf(nonWord: string, rest: string)
    requires forall k | 0 <= k < |nonWord| :: !IsWordChar(nonWord[k])
    requires rest == [] || IsWordChar(rest[0])
    ensures NonWordRun(nonWord + rest) == |nonWord|
    decreases |nonWord|
  {
    if nonWord == [] {
      assert nonWord + rest == rest;
    } else {
      assert (nonWord + rest)[1..] == nonWord[1..] + rest;
      NonWordRunOf(nonWord[1..], rest);
    }
  }

  /** The letters and digits of `s`, in order. */
  function Alnums(s: string): string
    decreases |s|
  {
    if s == [] then []
    else (if IsAsciiLetter(s[0]) || IsAsciiDigit(s[0]) then [s[0]] else []) + Alnums(s[1..])
  }

  lemma {:induction false} AlnumsOfNonWord(s: string)
    requires forall k | 0 <= k < |s| :: !IsWordChar(s[k])
    ensures Alnums(s) == []
    decreases |s|
  {
    if s != [] { AlnumsOfNonWord(s[1..]); }
  }

  lemma {:induction false} AlnumsAppend(a: string, b: string)
    ensures Alnums(a + b) == Alnums(a) + Alnums(b)
    decreases |a|
  {
    if a == [] {
      assert a + b == b;
    } else {
      assert (a + b)[1..] == a[1..] + b;
      AlnumsAppend(a[1..], b);
    }
  }

  /** Only underscores are inserted or dropped: the letters and digits of the title
      are kept, all of them and in order. */
  lemma {:induction false} SafeTitleKeepsAlnums(title: string)
    ensures Alnums(SafeTitle(title)) == Alnums(title)
    decreases |title|
  {
    if title != [] {
      if IsWordChar(title[0]) {
        SafeTitleKeepsAlnums(title[1..]);
        assert ([title[0]] + SafeTitle(title[1..]))[1..] == SafeTitle(title[1..]);
      } else {
        var n := NonWordRun(title);
        SafeTitleKeepsAlnums(title[n..]);
        assert ("_" + SafeTitle(title[n..]))[1..] == SafeTitle(title[n..]);
        assert title == title[..n] + title[n..];
        AlnumsAppend(title[..n], title[n..]);
        AlnumsOfNonWord(title[..n]);
      }
    }
  }

  // ---------------------------------------------------------------------------
  // f"{pdf_name}_{idx}_{c_idx}_{safe_title}.mp3"

  function FileName(pdfName: string, chapter: nat, chunk: nat, safeTitle: string): string {
    pdfName + "_" + NatToString(chapter) + "_" + NatToString(chunk) + "_" + safeTitle + AudioExtension
  }

  /** Index of the first `mark` in `s`, or `|s|` when there is none. */
  function FirstMark(s: string, mark: char): (i: nat)
    ensures i <= |s|
    decreases |s|
  {
    if s == [] || s[0] == mark then 0 else 1 + FirstMark(s[1..], mark)
  }

  lemma {:induction false} FirstMarkAt(a: string, x: string, mark: char)
    requires forall k | 0 <= k < |a| :: a[k] != mark
    ensures FirstMark(a + [mark] + x, mark) == |a|
    decreases |a|
  {
    if a != [] {
      assert (a + [mark] + x)[1..] == a[1..] + [mark] + x;
      FirstMarkAt(a[1..], x, mark);
    }
  }

  /** A string cut at its first `mark` is cut in only one way. */
  lemma SplitAtMark(a: string, x: string, b: string, y: string, mark: char)
    requires forall k | 0 <= k < |a| :: a[k] != mark
    requires forall k | 0 <= k < |b| :: b[k] != mark
    requires a + [mark] + x == b + [mark] + y
    ensures a == b && x == y
  {
    var s := a + [mark] + x;
    FirstMarkAt(a, x, mark);
    FirstMarkAt(b, y, mark);
    assert a == s[..|a|];
    assert b == (b + [mark] + y)[..|b|];
    assert x == s[|a| + 1..];
    assert y == (b + [mark] + y)[|b| + 1..];
  }

  /** A file name determines the chapter index, the chunk index and the sanitised
      title it was built from: decimal numerals contain no `_`, so the name can be
      read back. Hence no two chunks are written to the same file. */
  lemma FileNameDetermines(pdfName: string, i: nat, c: nat, t: string, i': nat, c': nat, t': string)
    requires FileName(pdfName, i, c, t) == FileName(pdfName, i', c', t')
    ensures i == i' && c == c' && t == t'
  {
    FileNameFields(pdfName, i, c, t);
    FileNameFields(pdfName, i', c', t');
    var a, a' := NatToString(i), NatToString(i');
    var b, b' := NatToString(c), NatToString(c');
    DigitsAreNotMarks(a);
    DigitsAreNotMarks(a');
    DigitsAreNotMarks(b);
    DigitsAreNotMarks(b');
    SplitAtMark(a, b + "_" + (t + AudioExtension), a', b' + "_" + (t' + AudioExtension), '_');
    SplitAtMark(b, t + AudioExtension, b', t' + AudioExtension, '_');
    DropSuffix(t, t', AudioExtension);
    NatToStringInjective(i, i');
    NatToStringInjective(c, c');
  }

  /** What follows `pdfName_` in a file name. */
  lemma FileNameFields(pdfName: string, i: nat, c: nat, t: string)
    ensures FileName(pdfName, i, c, t)[|pdfName| + 1..]
      == NatToString(i) + "_" + (NatToString(c) + "_" + (t + AudioExtension))
  {
    var a, b := NatToString(i), NatToString(c);
    var rest := a + "_" + (b + "_" + (t + AudioExtension));
    Reassociate(pdfName, a, b, t, "_", AudioExtension);
    assert |pdfName + "_"| == |pdfName| + 1;
    assert ((pdfName + "_") + rest)[|pdfName| + 1..] == rest;
  }

  lemma Reassociate(p: string, a: string, b: string, t: string, u: string, e: string)
    ensures p + u + a + u + b + u + t + e == (p + u) + (a + u + (b + u + (t + e)))
  {
  }

  lemma DigitsAreNotMarks(s: string)
    requires AllDigits(s)
    ensures forall k | 0 <= k < |s| :: s[k] != '_'
  {
  }

  lemma DropSuffix(x: string, y: string, e: string)
    requires x + e == y + e
    ensures x == y
  {
    assert x == (x + e)[..|x|];
    assert y == (y + e)[..|y|];
  }

  // ---------------------------------------------------------------------------
  // The enumeration of lines 100-106

  /** One call of `text_to_speech(chunk, audio_file)`. */
  datatype AudioJob = AudioJob(chapter: nat, chunk: nat, fileName: string, text: string)

  /** The calls made for chapter `idx`, one per chunk of its content. */
  function ChapterJobs(pdfName: string, idx: nat, ch: Chapter, size: nat, tok: Tokenizer): (jobs: seq<AudioJob>)
    requires size > 0
  {
    var chunks := Chunks(ch.content, size, tok);
    seq(|chunks|, c requires 0 <= c < |chunks| =>
      AudioJob(idx, c, FileName(pdfName, idx, c, SafeTitle(ch.title)), chunks[c]))
  }

  /** The calls made for a list of chapters, chapter by chapter. */
  function JobsFor(pdfName: string, chapters: seq<Chapter>, size: nat, tok: Tokenizer): seq<AudioJob>
    requires size > 0
    decreases |chapters|
  {
    if chapters == [] then []
    else
      var n := |chapters| - 1;
      JobsFor(pdfName, chapters[..n], size, tok) + ChapterJobs(pdfName, n, chapters[n], size, tok)
  }

  /** Everything `convert_pdf` sends to speech synthesis for a document. */
  function AllJobs(pdfName: string, pages: seq<string>, size: nat, tok: Tokenizer): seq<AudioJob>
    requires size > 0
  {
    JobsFor(pdfName, Render(Segment(SplitLines(DocumentText(pages)))), size, tok)
  }

  /** `convert_pdf` without its I/O: `pdfName` is `Path(pdf_path).stem`, `pages` the
      page texts, `size` the configured `chunk_size`. */
  method ConvertPdf(pdfName: string, pages: seq<string>, size: nat, tok: Tokenizer) returns (jobs: seq<AudioJob>)
    requires size > 0
    ensures jobs == AllJobs(pdfName, pages, size, tok)
  {
    var text := PdfToText(pages);
    var chapters := SplitIntoChapters(text);
    jobs := [];
    for idx := 0 to |chapters|
      invariant jobs == JobsFor(pdfName, chapters[..idx], size, tok)
    {
      var calls := SpeakChapter(pdfName, idx, chapters[idx], size, tok);
      jobs := jobs + calls;
      JobsForStep(pdfName, chapters, size, tok, idx);
    }
    assert chapters[..|chapters|] == chapters;
  }

  /** The body of the chapter loop (lines 101-106): chunk the content, then one call
      per chunk, named after the chapter and chunk indices and the sanitised title. */
  method SpeakChapter(pdfName: string, idx: nat, chapter: Chapter, size: nat, tok: Tokenizer) returns (calls: seq<AudioJob>)
    requires size > 0
    ensures calls == ChapterJobs(pdfName, idx, chapter, size, tok)
  {
    var title := chapter.title;
    var content := chapter.content;
    var ttsChunks := ChunkText(content, size, tok);
    ghost var mine := ChapterJobs(pdfName, idx, chapter, size, tok);
    calls := [];
    for c := 0 to |ttsChunks|
      invariant calls == mine[..c]
    {
      var safeTitle := SafeTitle(title);
      var audioFile := FileName(pdfName, idx, c, safeTitle);
      ChapterJobsStep(pdfName, idx, chapter, size, tok, ttsChunks, c, audioFile);
      calls := calls + [AudioJob(idx, c, audioFile, ttsChunks[c])];
    }
    assert mine[..|ttsChunks|] == mine;
  }

  lemma ChapterJobsStep(pdfName: string, idx: nat, ch: Chapter, size: nat, tok: Tokenizer, chunks: seq<string>, c: nat, name: string)
    requires size > 0 && chunks == Chunks(ch.content, size, tok) && c < |chunks|
    requires name == FileName(pdfName, idx, c, SafeTitle(ch.title))
    ensures ChapterJobs(pdfName, idx, ch, size, tok)[..c + 1]
      == ChapterJobs(pdfName, idx, ch, size, tok)[..c] + [AudioJob(idx, c, name, chunks[c])]
  {
    var mine := ChapterJobs(pdfName, idx, ch, size, tok);
    assert mine[..c + 1] == mine[..c] + [mine[c]];
  }

  lemma JobsForStep(pdfName: string, chapters: seq<Chapter>, size: nat, tok: Tokenizer, idx: nat)
    requires size > 0 && idx < |chapters|
    ensures JobsFor(pdfName, chapters[..idx + 1], size, tok)
      == JobsFor(pdfName, chapters[..idx], size, tok) + ChapterJobs(pdfName, idx, chapters[idx], size, tok)
  {
    assert chapters[..idx + 1][..idx] == chapters[..idx];
  }

  // ---------------------------------------------------------------------------
  // Properties of the enumeration

  /** Job `j` is chunk `chunk` of chapter `chapter`, under the name built from them. */
  predicate JobAt(pdfName: string, chapters: seq<Chapter>, size: nat, tok: Tokenizer, job: AudioJob)
    requires size > 0
  {
    && job.chapter < |chapters|
    && job.chunk < |Chunks(chapters[job.chapter].content, size, tok)|
    && job.text == Chunks(chapters[job.chapter].content, size, tok)[job.chunk]
    && job.fileName == FileName(pdfName, job.chapter, job.chunk, SafeTitle(chapters[job.chapter].title))
  }

  /** `(a.chapter, a.chunk)` comes strictly before `(b.chapter, b.chunk)`. */
  predicate Before(a: AudioJob, b: AudioJob) {
    a.chapter < b.chapter || (a.chapter == b.chapter && a.chunk < b.chunk)
  }

  /** Every job is some chunk of some chapter, with its text and its file name. */
  lemma {:induction false} JobsAreChunks(pdfName: string, chapters: seq<Chapter>, size: nat, tok: Tokenizer)
    requires size > 0
    ensures forall j | 0 <= j < |JobsFor(pdfName, chapters, size, tok)| ::
      JobAt(pdfName, chapters, size, tok, JobsFor(pdfName, chapters, size, tok)[j])
    decreases |chapters|
  {
    if chapters != [] {
      var n := |chapters| - 1;
      var init := chapters[..n];
      JobsAreChunks(pdfName, init, size, tok);
      var jobs := JobsFor(pdfName, chapters, size, tok);
      var front := JobsFor(pdfName, init, size, tok);
      forall j | 0 <= j < |jobs| ensures JobAt(pdfName, chapters, size, tok, jobs[j]) {
        if j < |front| {
          assert jobs[j] == front[j];
          assert JobAt(pdfName, init, size, tok, front[j]);
          assert init[front[j].chapter] == chapters[front[j].chapter];
        }
      }
    }
  }

  /** Jobs come in strictly increasing `(idx, c_idx)` order: chapter by chapter, and
      within a chapter chunk by chunk. */
  lemma {:induction false} JobsOrdered(pdfName: string, chapters: seq<Chapter>, size: nat, tok: Tokenizer)
    requires size > 0
    ensures forall i, j | 0 <= i < j < |JobsFor(pdfName, chapters, size, tok)| ::
      Before(JobsFor(pdfName, chapters, size, tok)[i], JobsFor(pdfName, chapters, size, tok)[j])
    decreases |chapters|
  {
    if chapters != [] {
      var n := |chapters| - 1;
      var init := chapters[..n];
      JobsOrdered(pdfName, init, size, tok);
      JobsAreChunks(pdfName, init, size, tok);
      var jobs := JobsFor(pdfName, chapters, size, tok);
      var front := JobsFor(pdfName, init, size, tok);
      forall i, j | 0 <= i < j < |jobs| ensures Before(jobs[i], jobs[j]) {
        if j < |front| {
          assert jobs[i] == front[i] && jobs[j] == front[j];
        } else if i < |front| {
          assert jobs[i] == front[i];
          assert JobAt(pdfName, init, size, tok, front[i]);
        } else {
          var last := ChapterJobs(pdfName, n, chapters[n], size, tok);
          assert jobs[i] == last[i - |front|] && jobs[j] == last[j - |front|];
        }
      }
    }
  }

  /** No two synthesis calls write the same file. */
  lemma DistinctFileNames(pdfName: string, chapters: seq<Chapter>, size: nat, tok: Tokenizer)
    requires size > 0
    ensures forall i, j | 0 <= i < j < |JobsFor(pdfName, chapters, size, tok)| ::
      JobsFor(pdfName, chapters, size, tok)[i].fileName != JobsFor(pdfName, chapters, size, tok)[j].fileName
  {
    var jobs := JobsFor(pdfName, chapters, size, tok);
    JobsOrdered(pdfName, chapters, size, tok);
    JobsAreChunks(pdfName, chapters, size, tok);
    forall i, j | 0 <= i < j < |jobs| ensures jobs[i].fileName != jobs[j].fileName {
      var a, b := jobs[i], jobs[j];
      assert Before(a, b);
      assert JobAt(pdfName, chapters, size, tok, a) && JobAt(pdfName, chapters, size, tok, b);
      if a.fileName == b.fileName {
        FileNameDetermines(pdfName, a.chapter, a.chunk, SafeTitle(chapters[a.chapter].title),
                           b.chapter, b.chunk, SafeTitle(chapters[b.chapter].title));
      }
    }
  }

  lemma {:induction false} JobsForPrefix(pdfName: string, chapters: seq<Chapter>, m: nat, size: nat, tok: Tokenizer)
    requires size > 0 && m <= |chapters|
    ensures JobsFor(pdfName, chapters[..m], size, tok) <= JobsFor(pdfName, chapters, size, tok)
    decreases |chapters| - m
  {
    if m < |chapters| {
      var n := |chapters| - 1;
      assert chapters[..n][..m] == chapters[..m];
      JobsForPrefix(pdfName, chapters[..n], m, size, tok);
    } else {
      assert chapters[..m] == chapters;
    }
  }

  /** Every chunk of every chapter is sent, at a position fixed by the chunks of the
      chapters before it. */
  lemma EveryChunkSent(pdfName: string, chapters: seq<Chapter>, size: nat, tok: Tokenizer, idx: nat, c: nat)
    requires size > 0
    requires idx < |chapters| && c < |Chunks(chapters[idx].content, size, tok)|
    ensures var j := |JobsFor(pdfName, chapters[..idx], size, tok)| + c;
      j < |JobsFor(pdfName, chapters, size, tok)|
      && JobsFor(pdfName, chapters, size, tok)[j].chapter == idx
      && JobsFor(pdfName, chapters, size, tok)[j].chunk == c
  {
    JobsForPrefix(pdfName, chapters, idx + 1, size, tok);
    var upTo := chapters[..idx + 1];
    assert upTo[..idx] == chapters[..idx];
    assert JobsFor(pdfName, upTo, size, tok)
        == JobsFor(pdfName, chapters[..idx], size, tok) + ChapterJobs(pdfName, idx, chapters[idx], size, tok);
  }
}
