/** The chunking engine of rag/tools.py.

    The two sliding-window chunkers (`chunk_text_by_words`,
    `chunk_text_by_sentences`) and the legacy greedy chunker (`chunker`).
    NLTK's tokenisers are foreign, so every chunker takes the unit sequence
    they would have produced: a sequence of words or of sentences for the
    windowed chunkers, one word list per sentence for `chunker`. */
module Chunking {
  import opened Wrappers

  /** The two ValueErrors the windowed chunkers raise on bad parameters. */
  datatype ConfigError = BudgetTooSmall | OverlapOutOfRange

  /** Parameters both windowed chunkers accept. */
  predicate ValidConfig(budget: int, overlap: int)
  {
    budget >= 2 && 0 <= overlap < budget - 1
  }

  /** The parameter checks, in the order the source makes them. */
  function CheckConfig(budget: int, overlap: int): (err: Option<ConfigError>)
    ensures err.None? <==> ValidConfig(budget, overlap)
    ensures err == Some(BudgetTooSmall) <==> budget < 2
  {
    if budget < 2 then Some(BudgetTooSmall)
    else if overlap < 0 || overlap >= budget - 1 then Some(OverlapOutOfRange)
    else None
  }

  /** The distance the cursor advances after each window. */
  function Step(budget: int, overlap: int): (s: nat)
    requires ValidConfig(budget, overlap)
    ensures 2 <= s <= budget
  {
    budget - overlap
  }

  /** Python's `' '.join(units)`. */
  function Join(units: seq<string>): string
  {
    if |units| == 0 then ""
    else if |units| == 1 then units[0]
    else units[0] + " " + Join(units[1..])
  }

  // ---------------------------------------------------------------------
  // Sliding windows
  // ---------------------------------------------------------------------

  /** A half-open index range [lo, hi) of the unit sequence. */
  datatype Span = Span(lo: nat, hi: nat)

  predicate SpansWithin(spans: seq<Span>, n: nat)
  {
    forall k :: 0 <= k < |spans| ==> spans[k].lo <= spans[k].hi <= n
  }

  /** Where the window emitted at cursor `i` starts: it is extended
      backwards by `overlap` units once the cursor has left 0. */
  function WindowStart(i: nat, overlap: int): nat
  {
    if overlap > 0 && i != 0 then Max(0, i - overlap) else i
  }

  /** The windows emitted from cursor `i` on, over `n` units. */
  function SpansFrom(n: nat, budget: int, overlap: int, i: nat): (spans: seq<Span>)
    requires ValidConfig(budget, overlap)
    ensures forall k :: 0 <= k < |spans| ==> spans[k].lo < spans[k].hi <= n
    decreases n - i
  {
    if i >= n then []
    else [Span(WindowStart(i, overlap), Min(i + budget, n))]
         + SpansFrom(n, budget, overlap, i + Step(budget, overlap))
  }

  /** All windows of a sequence of `n` units. */
  function Spans(n: nat, budget: int, overlap: int): seq<Span>
    requires ValidConfig(budget, overlap)
  {
    SpansFrom(n, budget, overlap, 0)
  }

  /** The chunk strings the windows stand for. */
  function Render(units: seq<string>, spans: seq<Span>): (chunks: seq<string>)
    requires SpansWithin(spans, |units|)
    ensures |chunks| == |spans|
  {
    if spans == [] then []
    else [Join(units[spans[0].lo..spans[0].hi])] + Render(units, spans[1..])
  }

  /** Chunk k is the space-joined units of window k. */
  lemma {:induction false} RenderAt(units: seq<string>, spans: seq<Span>, k: nat)
    requires SpansWithin(spans, |units|) && k < |spans|
    ensures Render(units, spans)[k] == Join(units[spans[k].lo..spans[k].hi])
  {
    if k > 0 {
      RenderAt(units, spans[1..], k - 1);
    }
  }

  /** `chunk_text_by_words`, over the word sequence `word_tokenize` returned. */
  method ChunkTextByWords(words: seq<string>, wordsPerChunk: int, overlap: int)
    returns (r: Result<seq<string>, ConfigError>)
    ensures r.Failure? <==> !ValidConfig(wordsPerChunk, overlap)
    ensures r.Failure? ==> Some(r.error) == CheckConfig(wordsPerChunk, overlap)
    ensures r.Success? ==> r.value == Render(words, Spans(|words|, wordsPerChunk, overlap))
  {
    if wordsPerChunk < 2 {
      return Failure(BudgetTooSmall);
    }
    if overlap < 0 || overlap >= wordsPerChunk - 1 {
      return Failure(OverlapOutOfRange);
    }
    assert ValidConfig(wordsPerChunk, overlap);
    if |words| == 0 {
      return Success([]);
    }
    var chunks: seq<string> := [];
    var i := 0;
    assert Spans(|words|, wordsPerChunk, overlap) == SpansFrom(|words|, wordsPerChunk, overlap, 0);
    while i < |words|
      invariant 0 <= i
      invariant chunks + Render(words, SpansFrom(|words|, wordsPerChunk, overlap, i))
                == Render(words, Spans(|words|, wordsPerChunk, overlap))
      decreases |words| - i
    {
      var chunk := WordWindow(words, wordsPerChunk, overlap, i);
      RenderStep(chunks, words, wordsPerChunk, overlap, i);
      chunks := chunks + [chunk];
      i := i + wordsPerChunk - overlap;
    }
    assert SpansFrom(|words|, wordsPerChunk, overlap, i) == [];
    assert chunks + [] == chunks;
    return Success(chunks);
  }

  /** `chunk_text_by_sentences`, over the sentence sequence `sent_tokenize`
      returned. Its back-extension guard is `i > 1` where the word chunker's
      is `i != 0`; since the cursor only ever takes the values 0, step,
      2 * step, ... with step >= 2, it emits exactly the word chunker's
      windows. */
  method ChunkTextBySentences(sentences: seq<string>, sentencesPerChunk: int, overlap: int)
    returns (r: Result<seq<string>, ConfigError>)
    ensures r.Failure? <==> !ValidConfig(sentencesPerChunk, overlap)
    ensures r.Failure? ==> Some(r.error) == CheckConfig(sentencesPerChunk, overlap)
    ensures r.Success? ==> r.value == Render(sentences, Spans(|sentences|, sentencesPerChunk, overlap))
  {
    if sentencesPerChunk < 2 {
      return Failure(BudgetTooSmall);
    }
    if overlap < 0 || overlap >= sentencesPerChunk - 1 {
      return Failure(OverlapOutOfRange);
    }
    assert ValidConfig(sentencesPerChunk, overlap);
    if |sentences| == 0 {
      return Success([]);
    }
    var chunks: seq<string> := [];
    var i := 0;
    assert Spans(|sentences|, sentencesPerChunk, overlap) == SpansFrom(|sentences|, sentencesPerChunk, overlap, 0);
    while i < |sentences|
      invariant 0 <= i
      invariant i == 0 || i >= 2
      invariant chunks + Render(sentences, SpansFrom(|sentences|, sentencesPerChunk, overlap, i))
                == Render(sentences, Spans(|sentences|, sentencesPerChunk, overlap))
      decreases |sentences| - i
    {
      var chunk := SentenceWindow(sentences, sentencesPerChunk, overlap, i);
      RenderStep(chunks, sentences, sentencesPerChunk, overlap, i);
      chunks := chunks + [chunk];
      i := i + sentencesPerChunk - overlap;
    }
    assert SpansFrom(|sentences|, sentencesPerChunk, overlap, i) == [];
    assert chunks + [] == chunks;
    return Success(chunks);
  }

  /** The window `chunk_text_by_words` joins at cursor `i`: back-extended
      by `overlap` once the cursor has left 0. */
  method WordWindow(words: seq<string>, wordsPerChunk: int, overlap: int, i: nat) returns (chunk: string)
    requires i < |words| && wordsPerChunk > 0
    ensures chunk == Join(words[WindowStart(i, overlap)..Min(i + wordsPerChunk, |words|)])
  {
    var end := Min(i + wordsPerChunk, |words|);
    var window := words[i..end];
    if overlap > 0 && i != 0 {
      var overlapStart := Max(0, i - overlap);
      window := words[overlapStart..end];
    }
    chunk := Join(window);
  }

  /** The window `chunk_text_by_sentences` joins at cursor `i`. Its guard is
      `i > 1`; the cursor is never 1 (`i == 0 || i >= 2`), so this is the
      word chunker's window. */
  method SentenceWindow(sentences: seq<string>, sentencesPerChunk: int, overlap: int, i: nat) returns (chunk: string)
    requires i < |sentences| && sentencesPerChunk > 0
    requires i == 0 || i >= 2
    ensures chunk == Join(sentences[WindowStart(i, overlap)..Min(i + sentencesPerChunk, |sentences|)])
  {
    var end := Min(i + sentencesPerChunk, |sentences|);
    var window := sentences[i..end];
    if overlap > 0 && i > 1 {
      var overlapStart := Max(0, i - overlap);
      window := sentences[overlapStart..end];
    }
    chunk := Join(window);
  }

  /** One turn of the chunkers' loop: the window at cursor `i`, then the rest. */
  lemma RenderStep(done: seq<string>, units: seq<string>, budget: int, overlap: int, i: nat)
    requires ValidConfig(budget, overlap)
    requires i < |units|
    ensures (done + [Join(units[WindowStart(i, overlap)..Min(i + budget, |units|)])])
               + Render(units, SpansFrom(|units|, budget, overlap, i + Step(budget, overlap)))
            == done + Render(units, SpansFrom(|units|, budget, overlap, i))
  {
    var spans := SpansFrom(|units|, budget, overlap, i);
    var rest := SpansFrom(|units|, budget, overlap, i + Step(budget, overlap));
    assert spans == [Span(WindowStart(i, overlap), Min(i + budget, |units|))] + rest;
    assert spans[1..] == rest;
  }

  // ---------------------------------------------------------------------
  // Properties of the windows
  // ---------------------------------------------------------------------

  /** The number of windows emitted from cursor `i` is the ceiling of the
      remaining length over the step. */
  lemma {:induction false} SpansFromCount(n: nat, budget: int, overlap: int, i: nat)
    requires ValidConfig(budget, overlap)
    ensures var c, s := |SpansFrom(n, budget, overlap, i)|, Step(budget, overlap);
      if i >= n then c == 0 else (c - 1) * s < n - i <= c * s
    decreases n - i
  {
    var s := Step(budget, overlap);
    if i < n {
      var rest := SpansFrom(n, budget, overlap, i + s);
      assert |SpansFrom(n, budget, overlap, i)| == |rest| + 1;
      SpansFromCount(n, budget, overlap, i + s);
      var c' := |rest|;
      assert (c' + 1) * s == c' * s + s;
      assert (c' - 1) * s == c' * s - s;
    }
  }

  /** Window k from cursor `i` is the one emitted at cursor i + k * step. */
  lemma {:induction false} SpansFromAt(n: nat, budget: int, overlap: int, i: nat, k: nat)
    requires ValidConfig(budget, overlap)
    requires k < |SpansFrom(n, budget, overlap, i)|
    ensures var s := Step(budget, overlap);
      SpansFrom(n, budget, overlap, i)[k] == Span(WindowStart(i + k * s, overlap), Min(i + k * s + budget, n))
    decreases k
  {
    var s := Step(budget, overlap);
    if k > 0 {
      var rest := SpansFrom(n, budget, overlap, i + s);
      assert SpansFrom(n, budget, overlap, i)[k] == rest[k - 1];
      SpansFromAt(n, budget, overlap, i + s, k - 1);
      assert i + s + (k - 1) * s == i + k * s;
    }
  }

  /** There are ceil(n / step) windows, and window k, whose cursor is
      k * step, is exactly [max(0, k * step - overlap), min(k * step + budget, n)). */
  lemma SpanAt(n: nat, budget: int, overlap: int, k: nat)
    requires ValidConfig(budget, overlap)
    ensures var c, s := |Spans(n, budget, overlap)|, Step(budget, overlap);
      if n == 0 then c == 0 else (c - 1) * s < n <= c * s
    ensures k < |Spans(n, budget, overlap)| ==>
      Spans(n, budget, overlap)[k]
        == Span(Max(0, k * Step(budget, overlap) - overlap), Min(k * Step(budget, overlap) + budget, n))
  {
    SpansFromCount(n, budget, overlap, 0);
    if k < |Spans(n, budget, overlap)| {
      SpansFromAt(n, budget, overlap, 0, k);
    }
  }

  /** The first window is [0, min(budget, n)), and no window holds more than
      budget + overlap units. */
  lemma WindowSizes(n: nat, budget: int, overlap: int)
    requires ValidConfig(budget, overlap)
    ensures n > 0 ==> |Spans(n, budget, overlap)| > 0 && Spans(n, budget, overlap)[0] == Span(0, Min(budget, n))
    ensures forall k :: 0 <= k < |Spans(n, budget, overlap)| ==>
      Spans(n, budget, overlap)[k].hi - Spans(n, budget, overlap)[k].lo <= budget + overlap
  {
    var spans := Spans(n, budget, overlap);
    forall k | 0 <= k < |spans|
      ensures spans[k].hi - spans[k].lo <= budget + overlap
    {
      SpanAt(n, budget, overlap, k);
    }
    if n > 0 {
      SpanAt(n, budget, overlap, 0);
    }
  }

  /** Windows come in document order, each starting no later than the
      previous one ends, from index 0 to index n: so they cover every unit. */
  lemma WindowsCoverInOrder(n: nat, budget: int, overlap: int)
    requires ValidConfig(budget, overlap)
    ensures var spans := Spans(n, budget, overlap);
      n > 0 ==> spans[0].lo == 0 && spans[|spans| - 1].hi == n
    ensures var spans := Spans(n, budget, overlap);
      forall k :: 0 <= k < |spans| - 1 ==> spans[k].lo <= spans[k + 1].lo <= spans[k].hi
  {
    var spans := Spans(n, budget, overlap);
    var s := Step(budget, overlap);
    forall k | 0 <= k < |spans| - 1
      ensures spans[k].lo <= spans[k + 1].lo <= spans[k].hi
    {
      SpanAt(n, budget, overlap, k);
      SpanAt(n, budget, overlap, k + 1);
      assert (k + 1) * s == k * s + s;
    }
    if n > 0 {
      SpanAt(n, budget, overlap, 0);
      var last := |spans| - 1;
      SpanAt(n, budget, overlap, last);
      assert (last + 1) * s == last * s + s;
    }
  }

  /** Every unit j lies in the window k == j / step whose core
      [k * step, (k + 1) * step) holds it (`CoreUnique`: no other core does). */
  lemma UnitCovered(n: nat, budget: int, overlap: int, j: nat)
    requires ValidConfig(budget, overlap)
    requires j < n
    ensures var k, s := j / Step(budget, overlap), Step(budget, overlap);
      k < |Spans(n, budget, overlap)| && k * s <= j < k * s + s &&
      Spans(n, budget, overlap)[k].lo <= j < Spans(n, budget, overlap)[k].hi
  {
    var s := Step(budget, overlap);
    var k := DivBounds(j, s);
    var c := |Spans(n, budget, overlap)|;
    SpansFromCount(n, budget, overlap, 0);
    if k >= c {
      MulMonotone(c, k, s);
      assert false;
    }
    SpansFromAt(n, budget, overlap, 0, k);
  }

  /** The cores [k * s, k * s + s) are disjoint: only k == j / s holds j. */
  lemma CoreUnique(j: nat, s: nat, k: nat)
    requires s > 0 && k * s <= j < k * s + s
    ensures k == j / s
  {
    var q := DivBounds(j, s);
    assert (k + 1) * s == k * s + s && (q + 1) * s == q * s + s;
    if k < q {
      MulMonotone(k + 1, q, s);
      assert false;
    } else if q < k {
      MulMonotone(q + 1, k, s);
      assert false;
    }
  }

  /** The quotient j / s places j in [k * s, k * s + s). */
  lemma DivBounds(j: nat, s: nat) returns (k: nat)
    requires s > 0
    ensures k == j / s && k * s <= j < k * s + s
  {
    k := j / s;
  }

  /** Multiplying by a positive number keeps the order. */
  lemma MulMonotone(a: int, b: int, s: int)
    requires a <= b && s > 0
    ensures a * s <= b * s
  {
    assert b * s - a * s == (b - a) * s;
  }

  /** Seven sentences, three per chunk, no overlap: chunks of 3, 3 and 1. */
  lemma SevenByThree()
    ensures Spans(7, 3, 0) == [Span(0, 3), Span(3, 6), Span(6, 7)]
  {
  }

  /** Twelve sentences, five per chunk, overlap two: the cursor visits
      0, 3, 6, 9 and only the first window is left unextended. */
  lemma TwelveByFiveOverlapTwo()
    ensures Spans(12, 5, 2) == [Span(0, 5), Span(1, 8), Span(4, 11), Span(7, 12)]
  {
  }

  // ---------------------------------------------------------------------
  // The legacy greedy chunker
  // ---------------------------------------------------------------------

  /** The greedy pack of `chunker`, as word groups, from the buffer `current` on. */
  function PackFrom(sentences: seq<seq<string>>, maxWords: int, current: seq<string>): seq<seq<string>>
    decreases |sentences|
  {
    if sentences == [] then (if current != [] then [current] else [])
    else if |current| + |sentences[0]| <= maxWords then PackFrom(sentences[1..], maxWords, current + sentences[0])
    else [current] + PackFrom(sentences[1..], maxWords, sentences[0])
  }

  /** The greedy pack of a whole document, starting from an empty buffer. */
  function Pack(sentences: seq<seq<string>>, maxWords: int): seq<seq<string>>
  {
    PackFrom(sentences, maxWords, [])
  }

  /** Each group of words space-joined into a chunk string. */
  function JoinEach(groups: seq<seq<string>>): (chunks: seq<string>)
    ensures |chunks| == |groups|
  {
    if groups == [] then [] else [Join(groups[0])] + JoinEach(groups[1..])
  }

  /** `chunker`: greedy packing, then re-overlap with the predecessor. */
  method Chunker(sentences: seq<seq<string>>, maxWordsPerChunk: int) returns (overlapping: seq<string>)
    ensures var packed := JoinEach(Pack(sentences, maxWordsPerChunk));
      |overlapping| == |packed| &&
      (|packed| > 0 ==> overlapping[0] == packed[0]) &&
      forall i :: 1 <= i < |packed| ==> overlapping[i] == packed[i - 1] + " " + packed[i]
    ensures sentences == [] ==> overlapping == []
  {
    var chunks := PackChunks(sentences, maxWordsPerChunk);
    overlapping := Reoverlap(chunks);
  }

  /** The first loop of `chunker`: greedy packing of whole sentences into a
      word buffer that is flushed, space-joined, when the next sentence
      would overflow it. */
  method PackChunks(sentences: seq<seq<string>>, maxWordsPerChunk: int) returns (chunks: seq<string>)
    ensures chunks == JoinEach(Pack(sentences, maxWordsPerChunk))
  {
    chunks := [];
    var currentChunk: seq<string> := [];
    for k := 0 to |sentences|
      invariant chunks + JoinEach(PackFrom(sentences[k..], maxWordsPerChunk, currentChunk))
                == JoinEach(Pack(sentences, maxWordsPerChunk))
    {
      var words := sentences[k];
      PackStep(chunks, sentences, k, maxWordsPerChunk, currentChunk);
      if |currentChunk| + |words| <= maxWordsPerChunk {
        currentChunk := currentChunk + words;
      } else {
        chunks := chunks + [Join(currentChunk)];
        currentChunk := words;
      }
    }
    PackEnd(chunks, sentences, maxWordsPerChunk, currentChunk);
    if currentChunk != [] {
      chunks := chunks + [Join(currentChunk)];
    }
  }

  /** The second loop of `chunker`: chunk i becomes chunk i - 1 and chunk i
      joined by a space; the first chunk stays as it is. */
  method Reoverlap(chunks: seq<string>) returns (overlapping: seq<string>)
    ensures |overlapping| == |chunks|
    ensures |chunks| > 0 ==> overlapping[0] == chunks[0]
    ensures forall i :: 1 <= i < |chunks| ==> overlapping[i] == chunks[i - 1] + " " + chunks[i]
  {
    overlapping := [];
    for i := 0 to |chunks|
      invariant |overlapping| == i
      invariant forall j :: 0 <= j < i ==> overlapping[j] == Join(chunks[Max(0, j - 1)..j + 1])
    {
      var chunkStart := Max(0, i - 1);
      var chunkEnd := i + 1;
      var overlappingChunk := Join(chunks[chunkStart..chunkEnd]);
      overlapping := overlapping + [overlappingChunk];
    }
    forall j | 0 <= j < |chunks|
      ensures overlapping[j] == if j == 0 then chunks[0] else chunks[j - 1] + " " + chunks[j]
    {
      JoinNeighbours(chunks, j);
    }
  }

  /** The string `chunker` joins at index `i` of its second loop. */
  lemma JoinNeighbours(chunks: seq<string>, i: nat)
    requires i < |chunks|
    ensures Join(chunks[Max(0, i - 1)..i + 1])
            == if i == 0 then chunks[0] else chunks[i - 1] + " " + chunks[i]
  {
    if i > 0 {
      var pair := chunks[i - 1..i + 1];
      assert pair[1..] == [chunks[i]];
    }
  }

  /** One turn of `chunker`'s packing loop, on the sentence at index `k`. */
  lemma PackStep(done: seq<string>, sentences: seq<seq<string>>, k: nat, maxWords: int, current: seq<string>)
    requires k < |sentences|
    ensures |current| + |sentences[k]| <= maxWords ==>
      done + JoinEach(PackFrom(sentences[k + 1..], maxWords, current + sentences[k]))
      == done + JoinEach(PackFrom(sentences[k..], maxWords, current))
    ensures |current| + |sentences[k]| > maxWords ==>
      (done + [Join(current)]) + JoinEach(PackFrom(sentences[k + 1..], maxWords, sentences[k]))
      == done + JoinEach(PackFrom(sentences[k..], maxWords, current))
  {
    assert sentences[k..][1..] == sentences[k + 1..];
    var rest := PackFrom(sentences[k + 1..], maxWords, sentences[k]);
    if |current| + |sentences[k]| > maxWords {
      assert PackFrom(sentences[k..], maxWords, current) == [current] + rest;
      assert ([current] + rest)[1..] == rest;
    }
  }

  /** The final flush of `chunker`'s packing loop. */
  lemma PackEnd(done: seq<string>, sentences: seq<seq<string>>, maxWords: int, current: seq<string>)
    ensures done + JoinEach(PackFrom(sentences[|sentences|..], maxWords, current))
            == if current != [] then done + [Join(current)] else done
  {
    assert sentences[|sentences|..] == [];
  }

  /** Packing neither loses, duplicates nor reorders a word. */
  lemma {:induction false} PackFromKeepsWords(sentences: seq<seq<string>>, maxWords: int, current: seq<string>)
    ensures Flatten(PackFrom(sentences, maxWords, current)) == current + Flatten(sentences)
    decreases |sentences|
  {
    if sentences == [] {
      assert Flatten([current]) == current + Flatten([]);
    } else if |current| + |sentences[0]| <= maxWords {
      PackFromKeepsWords(sentences[1..], maxWords, current + sentences[0]);
    } else {
      PackFromKeepsWords(sentences[1..], maxWords, sentences[0]);
      assert ([current] + PackFrom(sentences[1..], maxWords, sentences[0]))[1..]
             == PackFrom(sentences[1..], maxWords, sentences[0]);
    }
  }

  /** The packed chunks' words, in order, are exactly the document's words. */
  lemma PackKeepsWords(sentences: seq<seq<string>>, maxWords: int)
    ensures Flatten(Pack(sentences, maxWords)) == Flatten(sentences)
  {
    PackFromKeepsWords(sentences, maxWords, []);
  }

  lemma {:induction false} PackFromBounded(sentences: seq<seq<string>>, maxWords: int, current: seq<string>,
                                            all: seq<seq<string>>)
    requires forall s :: s in sentences ==> s in all
    ensures var packed := PackFrom(sentences, maxWords, current);
      |packed| > 0 ==> packed[0] == current || |packed[0]| <= maxWords
    ensures var packed := PackFrom(sentences, maxWords, current);
      forall k :: 1 <= k < |packed| ==> |packed[k]| <= maxWords || packed[k] in all
    decreases |sentences|
  {
    if sentences != [] {
      assert sentences[0] in sentences;
      var rest := sentences[1..];
      assert forall s :: s in rest ==> s in sentences;
      var packed := PackFrom(sentences, maxWords, current);
      if |current| + |sentences[0]| <= maxWords {
        assert packed == PackFrom(rest, maxWords, current + sentences[0]);
        PackFromBounded(rest, maxWords, current + sentences[0], all);
      } else {
        var tail := PackFrom(rest, maxWords, sentences[0]);
        assert packed == [current] + tail;
        PackFromBounded(rest, maxWords, sentences[0], all);
        forall k | 1 <= k < |packed|
          ensures |packed[k]| <= maxWords || packed[k] in all
        {
          assert packed[k] == tail[k - 1];
        }
      }
    }
  }

  /** A packed chunk exceeds the budget only when it is one whole
      (over-budget) sentence, or when it is the first chunk and the empty
      buffer that `chunker` flushes when its first sentence alone does not
      fit. */
  lemma PackBounded(sentences: seq<seq<string>>, maxWords: int)
    ensures var packed := Pack(sentences, maxWords);
      forall k :: 0 <= k < |packed| ==>
        |packed[k]| <= maxWords || packed[k] in sentences || (k == 0 && packed[k] == [])
  {
    PackFromBounded(sentences, maxWords, [], sentences);
  }

  lemma {:induction false} PackFromNonEmpty(sentences: seq<seq<string>>, maxWords: int, current: seq<string>)
    requires forall s :: s in sentences ==> s != []
    requires current != []
    ensures |PackFrom(sentences, maxWords, current)| > 0
    ensures forall g :: g in PackFrom(sentences, maxWords, current) ==> g != []
    decreases |sentences|
  {
    if sentences != [] {
      assert sentences[0] in sentences;
      var rest := sentences[1..];
      assert forall s :: s in rest ==> s in sentences;
      if |current| + |sentences[0]| <= maxWords {
        PackFromNonEmpty(rest, maxWords, current + sentences[0]);
      } else {
        PackFromNonEmpty(rest, maxWords, sentences[0]);
      }
    }
  }

  /** When no sentence is empty, the only empty packed chunk (the `''` string
      `chunker` emits by flushing its empty buffer) is the first one, and it
      appears exactly when the first sentence alone exceeds the budget. Empty
      text packs to nothing. */
  lemma EmptyChunkOnlyFirst(sentences: seq<seq<string>>, maxWords: int)
    requires forall s :: s in sentences ==> s != []
    ensures var packed := Pack(sentences, maxWords);
      (|packed| == 0 <==> sentences == []) &&
      (|packed| > 0 ==> (packed[0] == [] <==> |sentences[0]| > maxWords)) &&
      forall k :: 1 <= k < |packed| ==> packed[k] != []
  {
    if sentences != [] {
      var rest := sentences[1..];
      assert forall s :: s in rest ==> s in sentences;
      assert sentences[0] in sentences;
      PackFromNonEmpty(rest, maxWords, sentences[0]);
      var tail := PackFrom(rest, maxWords, sentences[0]);
      var packed := Pack(sentences, maxWords);
      if |sentences[0]| > maxWords {
        assert packed == [[]] + tail;
        forall k | 1 <= k < |packed|
          ensures packed[k] != []
        {
          assert packed[k] == tail[k - 1];
          assert tail[k - 1] in tail;
        }
      } else {
        assert [] + sentences[0] == sentences[0];
        assert packed == tail;
        assert tail[0] in tail;
        forall k | 1 <= k < |packed|
          ensures packed[k] != []
        {
          assert tail[k] in tail;
        }
      }
    }
  }

  /** Four sentences of forty words each under a sixty-word budget: no two
      sentences fit together, so the pack has four chunks, and so has the
      re-overlapped output. */
  lemma FourSentencesOfForty()
    ensures var s := seq(40, _ => "w");
      Pack([s, s, s, s], 60) == [s, s, s, s]
  {
    var s := seq(40, _ => "w");
    var ss := [s, s, s, s];
    assert ss[1..] == [s, s, s];
    assert ss[1..][1..] == [s, s];
    assert ss[1..][1..][1..] == [s];
    assert [] + s == s;
    assert PackFrom([s], 60, s) == [s, s];
    assert PackFrom([s, s], 60, s) == [s, s, s];
    assert PackFrom([s, s, s], 60, s) == [s, s, s, s];
    assert PackFrom(ss, 60, []) == PackFrom([s, s, s], 60, s);
  }
}
