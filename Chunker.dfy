/** Token-window chunking of `PDFToAudiobook.chunk_text`. The tokenizer (tiktoken's
    `cl100k_base` in the source) is a parameter: any pair of total functions, with no
    law relating them. */
module Chunker {
  datatype Tokenizer = Tokenizer(encode: string -> seq<int>, decode: seq<int> -> string)

  function Min(a: int, b: int): int { if a <= b then a else b }

  /** The token sequence cut into consecutive windows of `size` tokens; only the last
      window may be shorter. */
  function Windows(tokens: seq<int>, size: nat): seq<seq<int>>
    requires size > 0
    decreases |tokens|
  {
    if tokens == [] then []
    else if |tokens| <= size then [tokens]
    else [tokens[..size]] + Windows(tokens[size..], size)
  }

  function Concat(windows: seq<seq<int>>): seq<int>
    decreases |windows|
  {
    if windows == [] then [] else windows[0] + Concat(windows[1..])
  }

  /** The windows put back together give the token sequence exactly: no gap, no
      overlap, no reordering. */
  lemma {:induction false} WindowsConcat(tokens: seq<int>, size: nat)
    requires size > 0
    ensures Concat(Windows(tokens, size)) == tokens
    decreases |tokens|
  {
    if tokens != [] {
      var ws := Windows(tokens, size);
      if |tokens| <= size {
        assert ws == [tokens];
        assert ws[1..] == [];
      } else {
        var rest := Windows(tokens[size..], size);
        assert ws == [tokens[..size]] + rest;
        assert ws[0] == tokens[..size] && ws[1..] == rest;
        WindowsConcat(tokens[size..], size);
        assert tokens == tokens[..size] + tokens[size..];
      }
    }
  }

  lemma {:induction false} MulAtLeast(k: nat, d: nat)
    requires k >= 1
    ensures k * d >= d
    decreases k
  {
    if k > 1 {
      MulAtLeast(k - 1, d);
      assert k * d == (k - 1) * d + d;
    }
  }

  lemma DivUnique(n: int, d: int, q: int, r: int)
    requires d > 0 && n == q * d + r && 0 <= r < d
    ensures n / d == q
  {
    var q', r' := n / d, n % d;
    assert n == q' * d + r' && 0 <= r' < d;
    assert (q' - q) * d == r - r' by {
      assert q' * d - q * d == (q' - q) * d;
    }
    if q' > q {
      MulAtLeast(q' - q, d);
    } else if q' < q {
      assert (q - q') * d == r' - r;
      MulAtLeast(q - q', d);
    }
  }

  lemma DivStep(a: nat, size: nat)
    requires size > 0
    ensures (a + size) / size == a / size + 1
  {
    var q, r := a / size, a % size;
    assert a + size == (q + 1) * size + r;
    DivUnique(a + size, size, q + 1, r);
  }

  /** There are `ceil(N / size)` windows, none for an empty sequence. */
  lemma {:induction false} WindowCount(tokens: seq<int>, size: nat)
    requires size > 0
    ensures |Windows(tokens, size)| == (|tokens| + size - 1) / size
    decreases |tokens|
  {
    var n := |tokens|;
    if tokens == [] {
      DivUnique(size - 1, size, 0, size - 1);
    } else if n <= size {
      DivUnique(n + size - 1, size, 1, n - 1);
    } else {
      var rest := tokens[size..];
      assert |Windows(tokens, size)| == 1 + |Windows(rest, size)|;
      WindowCount(rest, size);
      assert |rest| + size - 1 == n - 1;
      DivStep(n - 1, size);
    }
  }

  /** Window `i` is `tokens[i*size : min((i+1)*size, N)]`. */
  lemma {:induction false} WindowAt(tokens: seq<int>, size: nat, i: nat)
    requires size > 0 && i < |Windows(tokens, size)|
    ensures i * size < |tokens|
    ensures Windows(tokens, size)[i] == tokens[i * size .. Min((i + 1) * size, |tokens|)]
    decreases |tokens|
  {
    if |tokens| > size && i > 0 {
      var rest := tokens[size..];
      WindowAt(rest, size, i - 1);
      assert (i - 1) * size + size == i * size;
      assert i * size + size == (i + 1) * size;
      assert Windows(tokens, size)[i] == Windows(rest, size)[i - 1];
      assert Min(i * size, |rest|) + size == Min((i + 1) * size, |tokens|);
      assert rest[(i - 1) * size .. Min(i * size, |rest|)] == tokens[i * size .. Min((i + 1) * size, |tokens|)];
    }
  }

  /** Every window but the last holds exactly `size` tokens; the last holds between 1
      and `size`. */
  lemma {:induction false} WindowSizes(tokens: seq<int>, size: nat)
    requires size > 0
    ensures var ws := Windows(tokens, size);
      (forall i | 0 <= i < |ws| - 1 :: |ws[i]| == size)
      && (ws != [] ==> 0 < |ws[|ws| - 1]| <= size)
    decreases |tokens|
  {
    if |tokens| > size {
      var ws := Windows(tokens, size);
      var rest := Windows(tokens[size..], size);
      WindowSizes(tokens[size..], size);
      assert ws == [tokens[..size]] + rest;
      assert forall i | 1 <= i < |ws| :: ws[i] == rest[i - 1];
    }
  }

  /** The decoded windows of a text. */
  function Chunks(text: string, size: nat, tok: Tokenizer): (chunks: seq<string>)
    requires size > 0
  {
    var ws := Windows(tok.encode(text), size);
    seq(|ws|, i requires 0 <= i < |ws| => tok.decode(ws[i]))
  }

  /** There are `ceil(N / size)` chunks for `N` tokens, none exactly when there are no
      tokens, and chunk `i` is the decoding of `tokens[i*size : min((i+1)*size, N)]`. */
  lemma ChunksLayout(text: string, size: nat, tok: Tokenizer)
    requires size > 0
    ensures var tokens := tok.encode(text);
      var chunks := Chunks(text, size, tok);
      && |chunks| == (|tokens| + size - 1) / size
      && (tokens == [] <==> chunks == [])
      && forall i | 0 <= i < |chunks| ::
           i * size < |tokens| && chunks[i] == tok.decode(tokens[i * size .. Min((i + 1) * size, |tokens|)])
  {
    var tokens := tok.encode(text);
    var chunks := Chunks(text, size, tok);
    WindowCount(tokens, size);
    forall i | 0 <= i < |chunks|
      ensures i * size < |tokens| && chunks[i] == tok.decode(tokens[i * size .. Min((i + 1) * size, |tokens|)])
    {
      WindowAt(tokens, size, i);
    }
  }

  /** `chunk_text` (lines 63-73): walk `start` over the tokens by `size` and decode each
      window. A `size` of 0 would never advance, so it is excluded. */
  /** The windows of a suffix of the tokens: the next at most `size` tokens, then the
      windows of what follows them. */
  lemma WindowsFrom(tokens: seq<int>, size: nat, start: nat)
    requires size > 0 && start < |tokens|
    ensures var end := Min(start + size, |tokens|);
      Windows(tokens[start..], size) == [tokens[start..end]] + Windows(tokens[end..], size)
  {
    var end := Min(start + size, |tokens|);
    var rest := tokens[start..];
    if |rest| > size {
      assert rest[..size] == tokens[start..end];
      assert rest[size..] == tokens[end..];
    } else {
      assert rest == tokens[start..end];
      assert tokens[end..] == [];
    }
  }

  method ChunkText(text: string, size: nat, tok: Tokenizer) returns (chunks: seq<string>)
    requires size > 0
    ensures chunks == Chunks(text, size, tok)
  {
    var tokens := tok.encode(text);
    chunks := [];
    var start := 0;
    ghost var done: seq<seq<int>> := [];
    while start < |tokens|
      invariant Windows(tokens, size) == done + Windows(tokens[Min(start, |tokens|)..], size)
      invariant |chunks| == |done| && forall i | 0 <= i < |done| :: chunks[i] == tok.decode(done[i])
    {
      var end := Min(start + size, |tokens|);
      var window := tokens[start..end];
      WindowsFrom(tokens, size, start);
      assert done + Windows(tokens[start..], size) == (done + [window]) + Windows(tokens[end..], size);
      chunks := chunks + [tok.decode(window)];
      done := done + [window];
      start := start + size;
      assert Min(start, |tokens|) == end;
    }
    assert tokens[|tokens|..] == [];
    assert done == Windows(tokens, size);
  }

  /** With a limit of 100 tokens a 250-token text becomes windows of 100, 100 and 50. */
  lemma ThreeChunks(tokens: seq<int>)
    requires |tokens| == 250
    ensures |Windows(tokens, 100)| == 3
    ensures |Windows(tokens, 100)[0]| == 100 && |Windows(tokens, 100)[1]| == 100
    ensures |Windows(tokens, 100)[2]| == 50
  {
    WindowCount(tokens, 100);
    WindowAt(tokens, 100, 0);
    WindowAt(tokens, 100, 1);
    WindowAt(tokens, 100, 2);
  }
}
