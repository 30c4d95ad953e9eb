# Random text feed — verified model of the chunker, the extractors and the feed

The random text feed is a small web app. A user uploads PDF or plain-text
documents. The app cuts their text into sentence chunks of at most 280
characters and keeps every chunk, paired with its document's file name, in
a per-session corpus. Two buttons draw corpus entries at random and put them
at the front of a feed. The feed holds the ten most recent draws.

This project models that logic in Dafny and proves what it promises:

- `chunker.dfy` (module `Chunker`) models `split_into_sentences`. The regular
  expression split `(?<=[.!?])\s+` is an explicit function, `Candidates`. Its
  separators are given by `Gaps`. It is characterised in both directions:
  the split it computes is well formed and weaves back into the text, and any
  well-formed split of the text is the one it computes. `str.strip()` is
  modelled by `Strip`. Python's whitespace table (the characters for which
  `str.isspace()` holds) is written out once as `Whitespace`. The split and
  the strip both use it through `IsSpace`. The chunking loop is the method
  `SplitIntoSentences`. It is proved equal to the pure specification
  `Chunked`, and the chunk properties are proved about `Chunked`.
- `extraction.dfy` (module `Extraction`) models `extract_sentences_from_pdf`,
  `extract_sentences_from_txt` and the dispatch on the upload's MIME type.
  The PDF library's per-page texts and the UTF-8 decoder's output are inputs.
  A page without text is the empty string. A library or decoder failure is
  `None`.
- `session.dfy` (module `Session`) models the session state as the class
  `State`, with the corpus `texts` and the `feed`. It has the upload loop and
  the single-add and batch-add buttons. `random.choice` becomes indices that
  the caller supplies. `Valid()` is the invariant every operation keeps:
  - the feed holds at most ten entries;
  - every feed entry is a corpus entry;
  - no corpus text is longer than 280 characters.

## Model

| member | source | states |
|---|---|---|
| `Chunker.Candidates` | app.py:17 | The pieces `re.split(r'(?<=[.!?])\s+', text)` returns. There is always at least one piece. `CandidatesSplit` and `CandidatesUnique` characterise it in both directions. |
| `Chunker.Strip` | app.py:20 | `str.strip()`: the result is no longer than its argument, and a non-empty result neither starts nor ends with whitespace. `TrimStartSuffix`, `TrimEndPrefix`, `TrimStartRemovesSpace` and `TrimEndRemovesSpace` show that only whitespace at the ends is removed. `StripBlank` shows that nothing is left exactly for all-whitespace input. |
| `Chunker.SentenceChunks` | app.py:20-27 | The chunks of one candidate. There are none exactly when the trimmed candidate is empty. `ShortSentences`, `LongSentence` and `SentenceChunksBounded` pin down the other two branches. |
| `Chunker.SentenceChunksBounded` | app.py:23-27 | No chunk of one candidate is longer than `max_len`. |
| `Chunker.Chunked` | app.py:16-28 | The specification of `split_into_sentences`: the chunks of every candidate, in candidate order. Every chunk is at most `max_len` long. `ChunksKeepText` shows that it keeps every non-whitespace character in order. |
| `Chunker.SliceSentence` | app.py:26-27 | The inner `for` loop returns the trimmed fixed-width slices of a long candidate, in order. |
| `Chunker.CandidatesSplit` | app.py:17 | The pieces of the regex split are separated exactly at maximal whitespace runs that follow `.`, `!` or `?`. Each piece before a separator ends in its terminator. No piece contains a boundary. Putting the separators back gives the text. |
| `Chunker.CandidatesUnique` | app.py:17 | Any split with those properties that weaves back into the text is the one `re.split` returns, so the split is determined by the text. |
| `Chunker.StripBlank` | app.py:20-22 | `strip()` leaves nothing exactly when the candidate is all whitespace, so exactly those candidates are skipped. |
| `Chunker.ChunkSentence` | app.py:20-27 | The per-candidate loop body emits the chunks the specification gives for that candidate. These are none for a blank candidate, the trimmed candidate when it fits, and otherwise the trimmed fixed-width slices in order. |
| `Chunker.SplitIntoSentences` | app.py:16-28 | The nested loops return the chunks of every split candidate, in candidate order. |
| `Chunker.ChunkBound` | app.py:23-27 | For `max_len >= 1`, no chunk is longer than `max_len`. |
| `Chunker.ShortSentences` | app.py:19-24 | If every candidate trims to a non-empty string no longer than `max_len`, there is exactly one chunk per candidate, and it equals the trimmed candidate, in candidate order. |
| `Chunker.LongSentence` | app.py:25-27 | A trimmed candidate `s` longer than `max_len` gives `ceil(|s|/max_len)` chunks. Chunk `k` is `strip(s[k*max_len .. min((k+1)*max_len, |s|)])`. |
| `Chunker.SliceNumber` | app.py:26 | `range(0, len(s), max_len)` yields `ceil(len(s)/max_len)` slices. |
| `Chunker.SliceContent` | app.py:26-27 | Slice `k` starts at `k*max_len` inside the text and is the trimmed `max_len` characters from there. |
| `Chunker.BlankText` | app.py:17-22 | A text made only of whitespace, the empty text included, gives no chunks. |
| `Chunker.ChunksKeepText` | app.py:17-27 | The chunks, written one after the other, hold exactly the non-whitespace characters of the text in their original order. Only whitespace is lost. |
| `Chunker.ThreeSentences` | app.py:16-28 | `"Hello world. This is a test! Is it working?"` gives `["Hello world.", "This is a test!", "Is it working?"]`. |
| `Chunker.LongExample` | app.py:23-27 | `"A"*300 + "."` with width 280 gives `"A"*280` and `"A"*20 + "."`. |
| `Chunker.EmptySliceExample` | app.py:26-27 | A slice that is all whitespace is still emitted, as an empty chunk: `"a b"` at width 1 gives `["a", "", "b"]`. |
| `Extraction.Tag` | app.py:40 | The comprehension `[(title, s) for s in chunks]`: one entry per chunk, each carrying the title. `TagTexts` and `TagOfTexts` make it the inverse of taking the texts. |
| `Extraction.PdfChunks` | app.py:34-40 | The chunks of the pages that have text, in page order. None is longer than 280 characters. `PdfChunksPerPage` equates it with chunking every page. |
| `Extraction.FileEntries` | app.py:60-63 | What one uploaded file contributes. It fails exactly when the extractor its type selects fails. Otherwise every entry carries the file name. |
| `Extraction.TagTexts` | app.py:40 | Pairing chunks with a file name keeps every chunk, in order, and every pair carries that name. |
| `Extraction.TagOfTexts` | app.py:49 | Entries that all carry one name are recovered from their texts by pairing them with that name again. |
| `Extraction.ExtractFromPdf` | app.py:32-41 | The page loop returns the chunks of the pages that have text, page after page, each paired with the file name. |
| `Extraction.PdfChunksPerPage` | app.py:36-40 | Skipping pages without text loses nothing: the PDF's chunks are the concatenation of every page's chunks, in page order. |
| `Extraction.PdfEntries` | app.py:32-41 | Every entry of a PDF carries its file name, the entry texts are the per-page chunks in page order, and none is longer than 280 characters. |
| `Extraction.ExtractFromTxt` | app.py:45-49 | The text extractor returns the chunks of the whole decoded text, each paired with the file name. |
| `Extraction.TxtEntries` | app.py:45-49 | Every entry of a text file carries its file name, the entry texts are the chunks of the text in order, and none is longer than 280 characters. |
| `Extraction.ExtractedPrefix` | app.py:59-63 | The files before the returned position all extract without error, and the file at it, if any, fails. |
| `Extraction.FileEntriesShape` | app.py:60-63 | A file of type `application/pdf` is chunked page by page. Any other file is chunked as one decoded text. Either way its entries carry its name and are at most 280 characters long. |
| `Extraction.ExtractFile` | app.py:60-63 | The dispatch returns the entries of the extractor that the type selects, or the failure of that extractor. |
| `Extraction.BatchEntriesShort` | app.py:59-64 | Whatever a batch of uploads adds to the corpus is at most 280 characters per entry. |
| `Session.UploadStep` | app.py:59-64 | Appending one more extracted file's entries extends the batch by that file, keeps every earlier corpus entry and keeps the corpus short. |
| `Session.State.constructor` | app.py:9-13 | A new session has an empty corpus and an empty feed. |
| `Session.State.ProcessUploads` | app.py:58-64 | The new corpus is the old corpus followed by the entries of the uploaded files in upload order, so existing entries are unchanged. The loop stops at the first file whose extraction fails and reports its index. The files before it stay appended. |
| `Session.State.AddRandomEntry` | app.py:70-74 | With an empty corpus the feed is unchanged. Otherwise the new feed is `([texts[k]] + old feed)[:10]`. The invariant (feed at most ten entries, all from the corpus) is kept. |
| `Session.State.AddRandomBatch` | app.py:76-81 | With an empty corpus the feed is unchanged. Otherwise it gains exactly `min(5, |texts|)` drawn entries, the last drawn at the front, and is cut to ten once. Its length is `min(10, |old feed| + min(5, |texts|))` and the invariant is kept. |
| `Session.Pushed` | app.py:73-74 | `([e] + feed)[:10]`: its length is `min(10, |feed| + 1)` and its head is `e`. `PushedShape` and `PushedMembers` give the rest. |
| `Session.Drawn` | app.py:79-80 | The corpus entries at the drawn positions, in drawing order: entry `k` is `texts[picks[k]]`. |
| `Session.PushedBatch` | app.py:79-81 | The drawn entries put in front one at a time, then cut to ten once. Its length is `min(10, |feed| + |drawn|)`. `PushedBatchShape` and `BatchIsRepeatedSingles` give the rest. |
| `Session.PushedShape` | app.py:73-74 | After a single add, the length is `min(10, |old feed| + 1)`, the head is the chosen entry and the old entries follow in their old order. |
| `Session.PushedBatchShape` | app.py:79-81 | After a batch add, the drawn entries stand in reverse drawing order at the front and the old entries follow in their old order, up to ten in all. |
| `Session.BatchIsRepeatedSingles` | app.py:79-81 | On a feed within capacity, cutting back once after the batch gives the same feed as cutting back after each insertion. |
| `Session.PushedMembers` | app.py:73-74 | Every entry of the feed after a single add is the new entry or was in the old feed. |
| `Session.PushedBatchMembers` | app.py:79-81 | Every entry of the feed after a batch add was drawn or was in the old feed. |
| `Session.DrawnMembers` | app.py:79-80 | Every entry drawn by index is a corpus entry. |

Three behaviours are kept as the source has them:
- A file of any type other than `application/pdf` is read as text.
- A file that fails to extract aborts the rest of the batch. The entries of
  the files before it have already been appended and stay in the corpus.
- An all-whitespace slice of a long sentence is emitted as an empty chunk
  (`Chunker.EmptySliceExample`).

## Left out

- The page layout, title, uploader, buttons, success message and the feed's
  expandable cards are rendering with no logic of their own.
- The memoisation of the two extractors is not modelled. Extraction is
  modelled as pure functions, so a repeated call on the same input gives the
  same result by construction.
- How the session state is first created is modelled only by
  `Session.State.constructor`, not as per-user framework state.
- PDF parsing is not modelled. The per-page texts it would produce are an
  input, and a parsing failure is `None`.
- UTF-8 decoding is not modelled. The decoded text is an input, and a
  decoding failure is `None`.
- The app script is re-executed from the top on every widget interaction.
  While files remain in the uploader, the upload loop therefore runs again
  before each button handler, and appends the same entries to the corpus
  again. This per-interaction rerun, and the duplicate corpus entries it
  causes, are not modelled. `Session.State.ProcessUploads` models one pass of
  the loop. Its contract and `Valid()` hold for every repetition.
- `random.choice` is not modelled. The drawn positions are caller-supplied
  indices, so the uniformity of the draws is not captured.
- `Chunker.SplitIntoSentences`: requires `maxLen >= 1`. Every caller passes
  the default of 280. With 0, Python's `range` raises as soon as a non-blank
  candidate exists. With a negative width, long candidates would silently
  vanish. Neither case is modelled.
- `Chunker.IsSpace` uses Python's `str.isspace()` table as written out in
  `Whitespace`. The model does not track changes to that table across Python
  or Unicode versions.
