# Verified model of a local RAG toolkit's text pipeline

This Dafny project models the deterministic core of a small
retrieval-augmented-generation toolkit written in Python:

- **Chunking** (`chunking.dfy`, from `rag/tools.py`): the two sliding-window
  chunkers `chunk_text_by_words` and `chunk_text_by_sentences`, and the legacy
  `chunker`, which packs whole sentences greedily and then re-overlaps the
  packed chunks. The NLTK tokenisers are foreign, so every chunker takes their
  output as its input. The windowed chunkers take a sequence of words or
  sentences. `chunker` takes one word list per sentence.
- **Utilities** (`utilities.dfy`, from `utilities.py`): `get_filename_from_cd`,
  which reads the quoted `filename` parameter of a Content-Disposition header
  (section 4.1 of RFC 6266), drops an RFC 5987 `utf-8'` charset prefix, and
  percent-decodes the rest (section 2.1 of RFC 3986). Also modelled: the path
  clean-up and URL test at the top of `readtext`.
- **Ingest** (`ingest.dfy`, from `rag_langchain/ingest.py`):
  - the extension test of `os.path.splitext` and `DOCUMENT_MAP`;
  - the unknown-extension path of `load_single_document`;
  - `split_documents`;
  - the path filter of `load_documents`;
  - its worker-count, batch-size and batch-slicing arithmetic.
- **Chat** (`chat.dfy`, from `instruct_pygame.py`): `format_history`, and the
  accumulation loop of `generate_response` over the token stream.

`wrappers.dfy` holds the shared `Option`/`Result` types, `Min`/`Max` and
`Flatten`.

The loops of the source are Dafny methods with loop invariants. Each method is
proved equal to a recursive specification function, or to a closed form
(`Reoverlap`) (`Spans`/`Render`,
`Pack`/`JoinEach`, `Routed`, `KeptPaths`, `HistoryMessages`, `Flatten`). The
properties the code promises are then proved as lemmas about those functions.

### Behaviour of the code worth knowing

- **Sentence chunker's back-extension.** The guard `i > 1` (rag/tools.py:59)
  reads as if the first two windows were not back-extended. But the cursor
  takes only the values 0, step, 2·step, …, and step = budget − overlap ≥ 2,
  so it is never 1. The guard therefore skips back-extension only for the
  first window, exactly like the word chunker's `i != 0`. With 12 sentences,
  5 per chunk and overlap 2, the windows are [0,5), [1,8), [4,11) and
  [7,12) (`Chunking.TwelveByFiveOverlapTwo`).
- **Greedy chunker.** `chunker` never merges two sentences whose combined
  length exceeds the budget. Four 40-word sentences under a 60-word budget
  pack into four chunks (`Chunking.FourSentencesOfForty`).

## Model

| member | source | states |
|---|---|---|
| Chunking.CheckConfig | rag/tools.py:43-46 | No error exactly when budget ≥ 2 and 0 ≤ overlap < budget − 1. The budget error is reported exactly when budget < 2, because it is checked first. |
| Chunking.Step | rag/tools.py:64 | For accepted parameters, the cursor advance budget − overlap lies between 2 and budget. |
| Chunking.ChunkTextByWords | rag/tools.py:68-95 | Fails exactly when the parameters are rejected, with the error the source raises first. Otherwise it returns the space-joined windows `Spans(n, budget, overlap)` of the words. Empty input gives `[]`. |
| Chunking.ChunkTextBySentences | rag/tools.py:39-66 | Same contract as the word chunker: the sentence chunker's guard `i > 1` produces exactly the word chunker's windows. |
| Chunking.WordWindow | rag/tools.py:85-90 | The word chunker's chunk at cursor i joins the units of [WindowStart(i), min(i + budget, n)): it starts `overlap` units back once the cursor has left 0. |
| Chunking.SentenceWindow | rag/tools.py:56-61 | The sentence chunker's chunk at a cursor that is 0 or ≥ 2 is the word chunker's window. |
| Chunking.RenderAt | rag/tools.py:56-63 | Chunk k is the space-joined units of window k, so `SpanAt` describes each chunk's contents. |
| Chunking.SpansFromCount | rag/tools.py:55-64 | From cursor i, the loop emits ceil((n − i) / step) windows. This is stated as (c − 1)·step < n − i ≤ c·step. |
| Chunking.SpansFromAt | rag/tools.py:55-64 | Window k from cursor i is the window emitted at cursor i + k·step. |
| Chunking.SpanAt | rag/tools.py:55-64 | There are ceil(n / step) windows. Window k is exactly [max(0, k·step − overlap), min(k·step + budget, n)). |
| Chunking.WindowSizes | rag/tools.py:56-61 | The first window is [0, min(budget, n)). No window holds more than budget + overlap units. |
| Chunking.WindowsCoverInOrder | rag/tools.py:84-93 | The windows start at 0 and end at n. Each window starts no earlier than the previous one and no later than the previous one's end. |
| Chunking.UnitCovered | rag/tools.py:84-93 | Every unit j lies in window j / step, whose core [k·step, k·step + step) contains j. |
| Chunking.CoreUnique | rag/tools.py:84-93 | The cores [k·step, k·step + step) are disjoint: the only core holding unit j is that of window j / step. |
| Chunking.SevenByThree | rag/tools.py:53-64 | Seven units, three per chunk, no overlap give windows [0,3), [3,6) and [6,7). |
| Chunking.TwelveByFiveOverlapTwo | rag/tools.py:53-64 | Twelve units, five per chunk, overlap two give [0,5), [1,8), [4,11) and [7,12). |
| Chunking.PackChunks | rag/tools.py:11-26 | The packing loop returns the space-joined greedy pack `JoinEach(Pack(sentences, max))`. |
| Chunking.Reoverlap | rag/tools.py:28-35 | Output has the input's length. Output[0] is chunk 0. Output[i] is chunk i−1, a space and chunk i, for i ≥ 1. |
| Chunking.JoinNeighbours | rag/tools.py:30-32 | Joining the slice `chunks[max(0, i−1):i+1]` gives chunk 0 for i = 0, and chunk i−1, a space and chunk i otherwise. |
| Chunking.Chunker | rag/tools.py:3-35 | `chunker` has the same length as the packed list. Output[0] is packed[0]. Output[i] is packed[i−1] + " " + packed[i]. No sentences give `[]`. |
| Chunking.PackFromKeepsWords | rag/tools.py:14-26 | Packing from a buffer yields the buffer's words followed by all sentence words, in order. |
| Chunking.PackKeepsWords | rag/tools.py:14-26 | The packed chunks' words, concatenated in order, are exactly the document's words. |
| Chunking.PackFromBounded | rag/tools.py:18-22 | After the flushed buffer, every packed chunk is within budget or is one whole sentence. |
| Chunking.PackBounded | rag/tools.py:14-26 | A packed chunk exceeds the budget only if it is a single sentence, or the empty first chunk flushed from the empty buffer. |
| Chunking.PackFromNonEmpty | rag/tools.py:18-26 | From a non-empty buffer and non-empty sentences, no packed chunk is empty. |
| Chunking.EmptyChunkOnlyFirst | rag/tools.py:18-26 | With non-empty sentences, the pack is empty iff there are no sentences. The first chunk is empty iff the first sentence alone exceeds the budget. No later chunk is empty. |
| Chunking.FourSentencesOfForty | rag/tools.py:14-26 | Four 40-word sentences under a 60-word budget pack into four chunks. |
| Utilities.QuoteFreeRun | utilities.py:12 | The greedy `[^"]` run from j stays in bounds and contains no `"`. It ends at the end of the text or at a `"`. |
| Utilities.FirstMatchFrom | utilities.py:12-15 | Returns the leftmost position of a `filename="…"` match at or after p, or None exactly when there is none. |
| Utilities.CapturedAt | utilities.py:12-15 | The captured group is non-empty and contains no `"`. It sits right after the key and is followed by `"`. |
| Utilities.HasCharsetPrefix | utilities.py:16 | The two-prefix test equals a single case-insensitive test for `utf-8'`, so the `utf-8''` alternative is redundant. |
| Utilities.AfterLastApostropheSuffix | utilities.py:17 | The text after the last apostrophe is a suffix of the value with no apostrophe. It is the whole value or follows an apostrophe. |
| Utilities.PercentDecode | utilities.py:18 | Decoding never lengthens the text. A text without `%` is unchanged. |
| Utilities.DecodeEncode | utilities.py:18 | Percent-decoding inverts percent-encoding on ASCII text. |
| Utilities.GetFilenameFromCd | utilities.py:6-18 | None exactly for a missing header or one with no `filename="…"` match; an empty header is the case with no match. Otherwise the name is the leftmost match's captured value, without its charset prefix, percent-decoded, and no longer than that value. |
| Utilities.FirstMatchResult | utilities.py:12-18 | For any header whose leftmost match is at m, the result is the value captured at m, charset-stripped and percent-decoded. |
| Utilities.NoMatchBefore | utilities.py:12 | No match starts before the first occurrence of the key when no `"` precedes it. |
| Utilities.RunOver | utilities.py:12 | Over a quote-free value closed by `"`, the run is exactly the value. |
| Utilities.CapturedValue | utilities.py:12-18 | For `pre filename="v" rest` with no `"` in pre, the first match is right after pre and captures v. The result is v without its charset prefix, percent-decoded. |
| Utilities.PlainFilename | utilities.py:6-18 | A plain name (no `"`, no `%`, no charset prefix) comes back unchanged. |
| Utilities.ExtendedValue | utilities.py:16-17 | `utf-8''` followed by an encoded name has the charset prefix and strips to the encoded name. |
| Utilities.AfterApostrophes | utilities.py:17 | After a head ending in `'`, the text after the last apostrophe is the apostrophe-free tail. |
| Utilities.EncodedFilename | utilities.py:6-18 | `filename="utf-8''<percent-encoded name>"` yields the ASCII name back. |
| Utilities.RStrip | utilities.py:39 | `rstrip()` returns a prefix that does not end in whitespace, and removes only whitespace. A text not ending in whitespace is unchanged. |
| Utilities.RemoveAll | utilities.py:39 | `replace(pat, '')` either leaves the text unchanged or shortens it. |
| Utilities.RemoveAllUnchanged | utilities.py:39 | Removal leaves the text unchanged exactly when the pattern does not occur in it. |
| Utilities.CleanPath | utilities.py:39 | The cleaned path is the input or strictly shorter. |
| Utilities.CleanPathUnchanged | utilities.py:39 | The clean-up is the identity exactly when the path has no trailing whitespace and contains neither ` \n` nor `%0A`. |
| Utilities.CleanPathSinglePass | utilities.py:39 | One pass each: `%0%0AA` cleans to `%0A`, which still contains the pattern. |
| Utilities.IsUrl | utilities.py:40 | A path is a URL exactly when it starts with `http://` or `https://`, case-sensitively. |
| Ingest.RFind | rag_langchain/ingest.py:59 | `rfind` returns the last index holding the character, or −1 when there is none. |
| Ingest.RFindLast | rag_langchain/ingest.py:59 | Any index holding the character with none after it is the one `rfind` returns. |
| Ingest.Ext | rag_langchain/ingest.py:59 | The extension is a suffix of the path. When non-empty, it starts with `.` and holds no other `.` and no `/`. |
| Ingest.ExtOfStem | rag_langchain/ingest.py:59 | The general rule: after a directory, a last component `stem + ext` whose stem is not all dots and whose `ext` is a dot followed by no dot or `/` has extension `ext`. |
| Ingest.ExtWithoutDot | rag_langchain/ingest.py:59 | A last path component without a dot has no extension. |
| Ingest.ExtOfDoubleExtension | rag_langchain/ingest.py:59 | Only the last suffix counts: `notes.tar.gz` has extension `.gz`. |
| Ingest.ExtOfUpperCase | rag_langchain/ingest.py:59 | Case is kept: `docs/report.PDF` has extension `.PDF`, which is not a key of `DOCUMENT_MAP`, so the file is not accepted. |
| Ingest.ExtOfHiddenNames | rag_langchain/ingest.py:59 | Leading dots do not start an extension: `.bashrc` and `..py` have none. |
| Ingest.ExtOfDottedDirectory | rag_langchain/ingest.py:59 | A dot in a directory name does not start an extension: `release.d/README` has none. |
| Ingest.LoadSingleDocument | rag_langchain/ingest.py:56-70 | An extension missing from `DOCUMENT_MAP` gives None. A known one delegates to the mapped loader. |
| Ingest.SplitDocuments | rag_langchain/ingest.py:127-137 | The loop returns the prose documents and the Python documents as `Routed(docs, false)` and `Routed(docs, true)`. |
| Ingest.RouteDocument | rag_langchain/ingest.py:131-136 | One loop step appends a loaded `.py` document to the Python list, any other loaded document to the prose list, and nothing for a failed load. |
| Ingest.RoutedCount | rag_langchain/ingest.py:129-137 | The two list lengths sum to the number of loaded (non-None) documents. |
| Ingest.RoutedMembership | rag_langchain/ingest.py:131-136 | A document is in the Python list iff it was loaded and its extension is exactly `.py`, and in the prose list iff it was loaded and its extension is anything else. |
| Ingest.RoutedAppend | rag_langchain/ingest.py:130-137 | Routing preserves input order: routing a concatenation gives the concatenation of the two routings. |
| Ingest.JoinPath | rag_langchain/ingest.py:94 | `os.path.join` ends with the file name. |
| Ingest.CollectPaths | rag_langchain/ingest.py:89-96 | The nested walk loop returns `KeptPaths(walk)`: the accepted files, in walk order. |
| Ingest.CollectDirectory | rag_langchain/ingest.py:91-96 | The inner loop over one directory's files returns `KeptIn(root, files)`: its accepted files joined to the directory, in order. |
| Ingest.AcceptedFileKept | rag_langchain/ingest.py:90-96 | Every file whose extension is a key of `DOCUMENT_MAP` is collected, joined to its directory. |
| Ingest.KeptPathOrigin | rag_langchain/ingest.py:90-96 | Every collected path is an accepted file of the walk joined to its directory. |
| Ingest.KeptInOrigin | rag_langchain/ingest.py:91-96 | Within one directory, every collected path comes from an accepted file. |
| Ingest.KeptInHas | rag_langchain/ingest.py:91-96 | Within one directory, every accepted file is collected. |
| Ingest.IngestThreads | rag_langchain/ingest.py:45 | The thread budget is the CPU count when it is known and non-zero, else 8. It is always ≥ 1. |
| Ingest.NWorkers | rag_langchain/ingest.py:99 | 1 ≤ n_workers ≤ INGEST_THREADS and n_workers ≤ max(len(paths), 1). It equals one of the two bounds. |
| Ingest.RoundHalfEven | rag_langchain/ingest.py:100 | `round(a / b)` is within 1/2 of a/b (b·r is within b/2 of a), and a tie goes to the even integer. |
| Ingest.RoundHalfEvenUnique | rag_langchain/ingest.py:100 | Any integer with those two properties is the rounding. |
| Ingest.RoundingExamples | rag_langchain/ingest.py:100 | round(5/4) = 1, round(6/4) = 2, round(10/4) = 2, round(14/4) = 4. |
| Ingest.ChunkSize | rag_langchain/ingest.py:100 | `chunksize` is 0 for no paths. It is ≥ 1 when there is at least one path per worker, and nearest to len/n_workers. |
| Ingest.PlanBatches | rag_langchain/ingest.py:99-107 | Batching fails (`range` with step 0 raises) exactly when there are no paths. |
| Ingest.BatchesFromCover | rag_langchain/ingest.py:105-107 | The slices from a start index concatenate to the rest of the paths. Each slice holds between 1 and chunksize paths. |
| Ingest.PlanBatchesCover | rag_langchain/ingest.py:99-107 | For non-empty paths, the batches concatenate in order back to the paths. Each batch holds between 1 and chunksize paths. |
| Ingest.MoreBatchesThanWorkers | rag_langchain/ingest.py:99-107 | Five paths on four threads run as five batches: rounding down can yield more batches than workers. |
| Chat.HistoryLayout | instruct_pygame.py:14-16 | History turn k becomes the user message at 2k and the assistant message at 2k+1. There are 2·\|history\| messages. |
| Chat.FormatHistory | instruct_pygame.py:12-18 | The result has 2·\|history\| + 2 messages. It opens with the system prompt and closes with the user's new message. Turn k sits at positions 2k+1 and 2k+2. |
| Chat.Accumulate | instruct_pygame.py:24-28 | The k-th yielded value is the concatenation of the first k+1 tokens. Each yielded value is a prefix of the next. |
| Chat.GenerateResponse | instruct_pygame.py:21-28 | The yielded values are the growing prefixes of the token stream the model returns for `format_history`'s conversation. |

## Left out

- NLTK's `sent_tokenize` and `word_tokenize` are foreign. Their outputs are the chunkers' inputs.
- The `print("Nothing to chunk")` output of the windowed chunkers is I/O and is not modelled.
- Foreign services are not modelled: the Ollama chat and embedding calls, and the Chroma/chromadb clients.
- The streaming chat call of `generate_response` is the function parameter `chat` of `Chat.GenerateResponse`.
- LangChain's document loaders and text splitters are library behaviour. `Ingest.LoadSingleDocument` takes the loader as the parameter `load`; a loader that raises makes `load` return None.
- File and network I/O is not modelled: `download_file`, and the rest of `readtext` (MIME sniffing, PDF and HTML extraction, file removal).
- `getconfig`, `file_log` and the logging calls are I/O and are not modelled.
- The directory walk is an input: the sequence of `(root, files)` entries `os.walk` would produce.
- Concurrency is not modelled: the process and thread pools, `load_document_batch`, and the order in which `as_completed` returns results.
- `executor.submit` failures are not modelled.
- The pygame user interface, `wrap_text` (which depends on font pixel metrics), the Streamlit client and the import and tutorial scripts are not modelled.
- Utilities.PercentDecode: a `%XX` escape of a byte ≥ 0x80 decodes to the code point with that value. `unquote` instead assembles such bytes as UTF-8, with replacement characters for invalid sequences. The model is exact for ASCII escapes, which is what `Utilities.EncodedFilename` relies on.
- Utilities.AsciiLower: `str.lower` is modelled only on ASCII letters. This is exact for the `utf-8'` prefix test, because no other character lowers to one of its characters.
- Ingest.RoundHalfEven: `round` is applied to the exact rational len/n_workers. Python divides in floating point first, which gives the same result while the path count stays below 2^52. Above 2^52 the float quotient can land exactly on a tie that the exact quotient is not at. For example, 6755399441055748 / 3 is the float 2251799813685249.5, which rounds to even (…250), while the exact quotient rounds to …249.
- Chat.FormatHistory: history entries are modelled as pairs. A Python history entry of another length would raise ValueError on unpacking.
