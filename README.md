# RAG chatbot core in Dafny

This project models the logic of a retrieval-augmented chatbot that answers questions about the National Electrical Code (NEC) and about Wattmonk's services.

**Ingestion**
- Text is pulled out of PDF files, one page at a time.
- It is cut into overlapping windows of characters.
- The chunks are stored either in a flat FAISS inner-product index with a pickled metadata list, or in a chromadb collection.

**Serving**
- A fixed set of keyword patterns routes each question to `general`, `nec` or `wattmonk`.
- For the two knowledge-base intents, a retriever fetches scored hits.
- An answer generator builds the chat prompt, calls the language model, and retries on rate limits with exponential back-off.
- The `/chat` endpoint combines all of this into the response body: answer, sources, intent and confidence. `/search` returns the hits directly.

Each external component becomes a plain input:
- the PDF reader: per-page outcomes;
- the walk of the directory: a list of `(dirpath, filenames)`;
- `os.path.relpath`: a function;
- the sentence encoder: a function;
- the FAISS search: the neighbour row it returns;
- the chromadb query: its result lists;
- the language model: a sequence of call outcomes.

The persist directory is a value, `RagTypes.FaissStore`, holding index files and metadata files by path. The chromadb client is a map from collection names to collections.

**Modules** (every `.dfy` file is one module):
- `Wrappers`: `Option` and `Result`.
- `PyText`: the Python string and list operations the code relies on, with Python's semantics:
  - `strip`, `lower`, slicing with negative and out-of-range bounds;
  - `join`, one-character `split` and `replace`;
  - `str(int)`.
- `IngestText`: `read_pdf_text` and `chunk_text`. These functions are the same in `ingestion/ingest_faiss.py` and `ingestion/ingest.py`, at lines 14-35 of the latter, so they are modelled once.
- `IngestFaiss` and `IngestChroma`: the two `ingest_dir` functions.
- `Intent`: `classify_intent`.
- `Generator`: `generate_answer`.
- `RagTypes`: metadata records, hits, the score formula, the persist directory, and chromadb collections.
- `RetrieverFaiss` and `RetrieverChroma`: the two `RAGRetriever` classes, as Dafny classes whose fields the constructor and `_load_data` fill.
- `ChatApi`: the `/chat` and `/search` handlers of `backend/main.py`.

**As-written behaviour the proofs establish**
- **The chunker does not terminate.**
  - `chunk_text` never returns on a non-empty text when the overlap is positive. Once a window reaches the end of the text, `start` falls back to `max(0, len - overlap)`, and that value is a fixed point.
  - The loop is therefore modelled with an iteration bound, `fuel`. Running out of fuel is reported as `None`, and this is proved to happen for every bound.
  - Both ingestion scripts call `chunk_text` with its defaults (1200 and 150). With the defaults, a run that reaches a PDF with any text never returns. A run returns only when no PDF has any text, and then it reports zero chunks and writes nothing.
- **The chroma script has a latent `NameError`.**
  - Its `ingest_dir` reads `sentence_model`, which is bound only inside `ensure_collection`. So it would raise `NameError` at the first file that has chunks, before anything is added to the collection.
  - With the chunker defaults that point is never reached: a file with text hangs the chunker first. The `NameError` fires only with an overlap of 0 or less.
- **The NEC patterns need a literal backslash.**
  - The patterns are raw strings with doubled backslashes, so every NEC pattern needs a literal backslash in the query, and `nec 310.15` is classified `general`.
  - The Wattmonk patterns match plain substrings: `translate` contains `sla`.
- **The FAISS score runs backwards.** The FAISS retriever scores an inner-product similarity with `1/(1+x)`, so the best match gets the lowest score.
- **An empty chat request is a 500.** `/chat` raises its "messages required" 400 inside a `try` whose `except` turns it into a 500 with detail `400: messages required`.

## Model

| member | source | states |
|---|---|---|
| PyText.StripShape | ingestion/ingest_faiss.py:32 | `strip()` returns a contiguous piece of its input with only white space before and after it, no white space at either of its ends, empty exactly when the input is all white space |
| PyText.StripIdempotent | ingestion/ingest_faiss.py:32 | stripping a stripped window changes nothing |
| PyText.LowerIdempotent | backend/rag/intent.py:21 | lowering twice is lowering once |
| PyText.ReplaceChar | ingestion/ingest_faiss.py:27 | one-character `replace` keeps the length and changes exactly the occurrences of that character |
| PyText.SliceBound | backend/rag/generator.py:29 | Python's normalisation of a slice bound: negative bounds count from the end, out-of-range bounds are clamped |
| PyText.Slice | backend/main.py:99 | `s[i:j]` is no longer than `s`, is `s[i..j]` for in-range bounds, and is at most `j - i` long for non-negative bounds |
| PyText.SplitJoin | ingestion/ingest_faiss.py:23 | splitting at the separator undoes a join when no part contains it |
| PyText.ParseNatToString | backend/rag/retriever_faiss.py:48 | `str(n)` is decimal digits that parse back to `n`, so distinct positions get distinct ids |
| IngestText.ReadPdfText | ingestion/ingest_faiss.py:15-23 | the loop over pages returns the page texts joined with newlines, a failing page or one without text giving `""` |
| IngestText.PdfTextSplitsIntoPages | ingestion/ingest_faiss.py:17-23 | when no page text contains a newline, splitting the result at newlines gives one entry per page, `""` for failed or empty pages |
| IngestText.NormalizeNewlines | ingestion/ingest_faiss.py:27 | carriage returns become newlines; the length and every other character are unchanged |
| IngestText.CrLfBecomesTwoNewlines | ingestion/ingest_faiss.py:27 | a CRLF pair becomes two newlines at the same position |
| IngestText.NonEmptyOnly | ingestion/ingest_faiss.py:36 | the filter keeps exactly the non-empty spans |
| IngestText.ChunkSpec | ingestion/ingest_faiss.py:26-36 | an empty text gives `[]` without entering the loop; a non-empty text needs at least one iteration |
| IngestText.ChunkText | ingestion/ingest_faiss.py:26-36 | the `while` loop, run at most `fuel` times, returns what the loop specification returns |
| IngestText.RunFrom | ingestion/ingest_faiss.py:29-35 | from any state the loop either exits after some `m` iterations, having appended the stripped windows at the `m` starts it visited, or still has the guard true when the fuel runs out |
| IngestText.ChunksAreWindows | ingestion/ingest_faiss.py:29-36 | the chunks are exactly the non-empty stripped windows at the starts the loop visits, in window order |
| IngestText.EmptyTextNoChunks | ingestion/ingest_faiss.py:29-36 | an empty text gives `[]` without entering the loop |
| IngestText.WindowIsChunk | ingestion/ingest_faiss.py:31-32 | each stripped window is at most `chunk_chars` long, occurs in the normalised text, and has no white space at either end |
| IngestText.ChunkBounds | ingestion/ingest_faiss.py:31-36 | every returned chunk is non-empty, at most `chunk_chars` long, a piece of the normalised text, and stripped |
| IngestText.NextStartCases | ingestion/ingest_faiss.py:31-35 | before the end the next start is `max(0, start + chunk_chars - overlap)`; once the window reaches the end it is `max(0, len - overlap)` |
| IngestText.NextStartInside | ingestion/ingest_faiss.py:33-35 | with a positive overlap the next start always lies inside a non-empty text |
| IngestText.RestartIsFixedPoint | ingestion/ingest_faiss.py:29-35 | `max(0, len - overlap)` lies inside the text and maps to itself |
| IngestText.RunNeverExits | ingestion/ingest_faiss.py:29-35 | with a positive overlap, a loop whose start lies inside the text never exits, for any fuel |
| IngestText.PositiveOverlapNeverExits | ingestion/ingest_faiss.py:26-35 | with a positive overlap (the default is 150) `chunk_text` does not return on a non-empty text |
| IngestText.NoOverlapStarts | ingestion/ingest_faiss.py:31-35 | with overlap 0, `k` iterations move `start` to `min(len, a + k * chunk_chars)` |
| IngestText.NoOverlapTiles | ingestion/ingest_faiss.py:31-35 | with overlap 0 the unstripped windows, concatenated, are exactly the text covered so far |
| IngestText.NoOverlapExits | ingestion/ingest_faiss.py:29-35 | with overlap 0 the loop exits within `fuel` iterations exactly when `fuel` windows cover the text |
| IngestFaiss.CollectPdfs | ingestion/ingest_faiss.py:46-50 | the nested walk loop returns the PDF paths of every directory, in walk order |
| IngestFaiss.PdfsInAreJoins | ingestion/ingest_faiss.py:47-50 | every collected path is a directory joined with one of its file names that ends in `.pdf` in any letter case |
| IngestFaiss.PdfNamesCollected | ingestion/ingest_faiss.py:47-50 | every file name ending in `.pdf` in any letter case is collected |
| IngestFaiss.FileMetas | ingestion/ingest_faiss.py:61-68 | one metadata record per chunk, in order, with exactly the keys `source` (the relative path), `namespace`, `file_name` (the base name) and `text` (the chunk) |
| IngestFaiss.ReadAndChunk | ingestion/ingest_faiss.py:56-57 | reading then chunking a file gives its chunks, or the reader's exception, or a chunker that never returns |
| IngestFaiss.AppendChunks | ingestion/ingest_faiss.py:61-68 | the inner loop appends every chunk to the texts and its record to the metadata |
| IngestFaiss.IngestDir | ingestion/ingest_faiss.py:39-88 | the whole `ingest_dir`, loops and write, computes the outcome and persist directory of the specification |
| IngestFaiss.IngestSpec | ingestion/ingest_faiss.py:39-88 | a returning run reports every collected PDF path; an aborted run leaves the persist directory as it was |
| IngestFaiss.GatherAppends | ingestion/ingest_faiss.py:55-69 | a loop that finishes has appended exactly the chunks of every file, in file order, and their records |
| IngestFaiss.IngestCounts | ingestion/ingest_faiss.py:52-88 | the file count includes PDFs without chunks; the chunk count is the number of chunks of all files; with a chunk, the index file becomes the embeddings of all chunks in file order, the metadata file their records, and no other file changes; with no chunk nothing is written |
| IngestFaiss.IngestRecords | ingestion/ingest_faiss.py:61-86 | a written metadata file has one record per vector, record `j` built for a chunk of one of the PDF files and vector `j` the embedding of that chunk |
| IngestFaiss.FailureWritesNothing | ingestion/ingest_faiss.py:55-88 | when a file aborts the run, the persist directory is unchanged |
| IngestFaiss.DefaultsNeverWrite | ingestion/ingest_faiss.py:55-86 | with the chunker defaults a returning run reports zero chunks and writes nothing |
| IngestChroma.EnsureCollection | ingestion/ingest.py:38-41 | the collection exists afterwards; an existing one is kept, a missing one is created empty |
| IngestChroma.FileRecords | ingestion/ingest.py:61-67 | ids and metadata records are one per chunk; each record has exactly `source`, `namespace` and `file_name`, and no text |
| IngestChroma.LoopFrom | ingestion/ingest.py:56-73 | a normal end of the loop reports all files and zero chunks; an exception is the `NameError` for `sentence_model` |
| IngestChroma.IngestDir | ingestion/ingest.py:44-75 | the loop computes the outcome and collections of the specification |
| IngestChroma.LoopFromCases | ingestion/ingest.py:56-73 | the loop returns exactly when every file is readable and chunkless, and raises `NameError` exactly at a first file with chunks |
| IngestChroma.ChromaOutcomes | ingestion/ingest.py:44-75 | a normal return reports all files and zero chunks; `NameError` happens exactly when some file has chunks and all earlier ones were chunkless; the collection exists afterwards, unchanged if it existed |
| IngestChroma.PositiveOverlapNoNameError | ingestion/ingest.py:56-70 | with a positive overlap, `NameError` is never reached: a file with text hangs the chunker first |
| IngestChroma.DefaultsNoNameError | ingestion/ingest.py:58-70 | with the chunker defaults the chroma `ingest_dir` never reaches the `NameError` |
| Intent.Classify | backend/rag/intent.py:20-28 | `nec` exactly when a NEC pattern matches the lowered query; `general` only when no Wattmonk pattern matches |
| Intent.IntentName | backend/rag/intent.py:5 | the intent is one of `general`, `nec`, `wattmonk` |
| Intent.AnySearchIff | backend/rag/intent.py:22-27 | the search loop finds a match exactly when some pattern of the list matches |
| Intent.ClassifyCases | backend/rag/intent.py:20-28 | `nec` exactly when a NEC pattern matches; `wattmonk` exactly when none does and a Wattmonk pattern does; `general` exactly when no pattern matches |
| Intent.ClassifyIgnoresCase | backend/rag/intent.py:21 | classifying a query and its lowercase give the same intent |
| Intent.NecNeedsBackslash | backend/rag/intent.py:7-12 | a NEC pattern match needs a backslash in the query |
| Intent.NoBackslashNeverNec | backend/rag/intent.py:7-24 | a query without a backslash is never `nec` |
| Intent.WattmonkWord | backend/rag/intent.py:14-27 | a query containing `permit`, `turnaround`, `sla`, `pricing` or `cad` is `wattmonk` unless a NEC pattern matched |
| Intent.PlainQueryIsGeneral | backend/rag/intent.py:7-28 | a query with no backslash and none of those five words is `general` |
| Intent.PlainNecReferenceIsGeneral | backend/rag/intent.py:7-12 | `nec 310.15` is classified `general` |
| Intent.TranslateIsWattmonk | backend/rag/intent.py:16 | `translate` is classified `wattmonk` |
| Intent.LiteralNecIsNec | backend/rag/intent.py:8 | a query containing the literal text `\bnec\b` is `nec` |
| Generator.BuildMessages | backend/rag/generator.py:27-34 | the prompt is the system message, the history slice and a final user message |
| Generator.Retry | backend/rag/generator.py:40-54 | from attempt `a` the loop makes between 1 and `4 - a` more calls and sleeps once before each further call, keeping earlier sleeps |
| Generator.RetrySpec | backend/rag/generator.py:40-54 | one to four calls, one sleep fewer than calls |
| Generator.GenerateAnswer | backend/rag/generator.py:24-57 | the history loop and the retry loop produce the specified prompt, answer, number of calls and sleeps |
| Generator.HistoryWindow | backend/rag/generator.py:28-31 | the history contributes the last six entries without the final one: at most five, in order, role and content copied |
| Generator.ShortHistoryIsDropped | backend/rag/generator.py:28-31 | no history, or a history of one entry, contributes nothing |
| Generator.PromptShape | backend/rag/generator.py:27-34 | the prompt is one system message with the system prompt, then the history slice, then one user message |
| Generator.UserContentEnds | backend/rag/generator.py:33 | the user message ends with `Question: ` and the query |
| Generator.ContextHeading | backend/rag/generator.py:32-33 | the `Context:` heading is present exactly when there are contexts |
| Generator.FirstEightContexts | backend/rag/generator.py:32 | the block is the first eight contexts, each under its `[Context i]` label, joined by blank lines |
| Generator.LaterContextsIgnored | backend/rag/generator.py:32 | contexts after the eighth do not change the prompt |
| Generator.RetryFrom | backend/rag/generator.py:40-54 | from attempt `a` the loop stops at the first outcome that is not a rate limit, or at the fourth attempt, with the doubling delays slept in between |
| Generator.RetryFacts | backend/rag/generator.py:40-54 | between one and four calls; the sleeps are the first `calls - 1` of 2, 4, 8; every earlier outcome was a rate limit; the answer is that of the last outcome |
| Generator.NeverRaises | backend/rag/generator.py:49-57 | the answer is a completion's content (or `""`) or the error text; nothing escapes |
| Generator.FourRateLimits | backend/rag/generator.py:40-54 | four rate limits give four calls, sleeps of 2, 4 and 8 seconds, and the fourth error as the answer |
| RagTypes.Get | backend/rag/retriever_faiss.py:49 | `m.get(k, default)` is the value if present, else the default |
| RagTypes.Score | backend/rag/retriever_faiss.py:50 | the score times `1 + raw` is 1 |
| RagTypes.ScoreRange | backend/rag/retriever_faiss.py:50 | above -1 the score is positive, at most 1 for non-negative raw values, and 1 at 0 |
| RagTypes.ScoreDecreasing | backend/rag/retriever_faiss.py:50 | the score strictly decreases as the raw value grows |
| RagTypes.PathJoin | ingestion/ingest_faiss.py:50 | an absolute second part replaces the first |
| RagTypes.Basename | ingestion/ingest_faiss.py:66 | the base name has no `/` and ends the path |
| RagTypes.BasenameOfJoin | ingestion/ingest_faiss.py:66 | the base name of a directory joined with a file name is that file name |
| RetrieverFaiss.LoadedIndex | backend/rag/retriever_faiss.py:22-31 | an index is loaded exactly when both files exist |
| RetrieverFaiss.LoadedMeta | backend/rag/retriever_faiss.py:22-31 | the metadata is the list written when both files exist, else `[]` |
| RetrieverFaiss.FaissRetriever.constructor | backend/rag/retriever_faiss.py:12-17 | the retriever holds what `_load_data` finds in its persist directory |
| RetrieverFaiss.FaissRetriever.LoadData | backend/rag/retriever_faiss.py:19-31 | the loop sets the index and metadata of `nec` and then `wattmonk`, each in step with the other |
| RetrieverFaiss.LoadedNamespaces | backend/rag/retriever_faiss.py:21-31 | after loading exactly `nec` and `wattmonk` have entries, each with the index and metadata its files give |
| RetrieverFaiss.PyIndex | backend/rag/retriever_faiss.py:46 | list indexing with Python's negative positions, failing exactly outside `-len..len-1` |
| RetrieverFaiss.FaissHit | backend/rag/retriever_faiss.py:47-52 | id is `str(idx)`, text is the record's `text` or `""`, source is its `source` or the namespace, score is `1/(1+raw)` |
| RetrieverFaiss.HitsSpec | backend/rag/retriever_faiss.py:44-52 | at most one hit per neighbour; the only exception is `IndexError` |
| RetrieverFaiss.FaissRetriever.Search | backend/rag/retriever_faiss.py:33-54 | no index gives `[]` and no query; otherwise `min(top_k, len(metadata))` neighbours are requested, a count of 0 or less is refused by FAISS, and otherwise the hits are those of the loop |
| RetrieverFaiss.IngestThenLoad | backend/rag/retriever_faiss.py:19-31 | after a FAISS ingestion that wrote chunks, the namespace loads the index of all chunk embeddings and their records, one per chunk |
| RetrieverFaiss.Kept | backend/rag/retriever_faiss.py:44-45 | kept neighbours come from the row and have a position below the metadata length |
| RetrieverFaiss.HitsCases | backend/rag/retriever_faiss.py:44-52 | `IndexError` exactly when some position is below `-len(metadata)`; otherwise one hit per kept neighbour, in row order, from the record at its Python position (a padding `-1` reads the last record) |
| RetrieverFaiss.ScoresAscend | backend/rag/retriever_faiss.py:50 | when FAISS lists neighbours from most to least similar, the scores of the hits do not decrease |
| RetrieverChroma.Column | backend/rag/retriever.py:35-38 | a missing key of the query result gives `[]` |
| RetrieverChroma.AtOr | backend/rag/retriever.py:40-44 | a short parallel list gives the default |
| RetrieverChroma.SourceOf | backend/rag/retriever.py:45 | the first truthy of `source`, `file_name`, namespace |
| RetrieverChroma.ChromaRetriever.constructor | backend/rag/retriever.py:11-15 | the retriever holds the client's collections |
| RetrieverChroma.ChromaRetriever.CollectionOf | backend/rag/retriever.py:17-23 | the collection `kb_<namespace>`, or none when it does not exist |
| RetrieverChroma.HitsUpTo | backend/rag/retriever.py:39-46 | a finished loop gives one hit per id; the only exception is `ZeroDivisionError` |
| RetrieverChroma.ChromaRetriever.Search | backend/rag/retriever.py:25-47 | a missing or empty collection gives `[]` and no query; otherwise `max(1, top_k)` results are requested and the hits are those of the specification |
| RetrieverChroma.HitsCases | backend/rag/retriever.py:39-46 | `ZeroDivisionError` exactly when a distance is -1; otherwise one hit per id, in id order, with its document or `""`, the score of its distance or of 0.0, and the chosen source |
| RetrieverChroma.SourceNonEmpty | backend/rag/retriever.py:45 | with a non-empty namespace the source is never empty |
| RetrieverChroma.ChromaScoreRange | backend/rag/retriever.py:44 | a non-negative distance scores in (0, 1]; a missing one scores 1 |
| ChatApi.SourceDocOf | backend/main.py:95-100 | a source entry carries the hit's source, id and score, and a snippet of at most 400 characters |
| ChatApi.SourceDocs | backend/main.py:94-102 | one source entry per hit, in order |
| ChatApi.Contexts | backend/main.py:93 | the contexts are the hit texts, in order |
| ChatApi.Scores | backend/main.py:106 | the scores are the hits' scores, in order |
| ChatApi.Confidence | backend/main.py:106-107 | 0.5 without scores, else the value that times the number of scores gives their sum |
| ChatApi.Chat | backend/main.py:75-120 | an empty message list is the 500 with detail `400: messages required`; every error is a 500; a response always has an intent among `general`, `nec`, `wattmonk` and a confidence |
| ChatApi.ChatUsesLastMessage | backend/main.py:83-104 | requests with the same last message content, `top_k` and `include_sources` get the same response |
| ChatApi.ChatCases | backend/main.py:76-120 | empty messages give status 500 with detail `400: messages required`; a general query is answered from `[]` with confidence 0.6 and no sources; otherwise the retriever's exception is a 500, and the response has the answer from the hit texts, the intent as source, one entry per hit exactly when sources are asked for, and the mean score as confidence |
| ChatApi.SnippetIsPrefix | backend/main.py:99 | the snippet is the first 400 characters of the text, or all of it |
| ChatApi.ConfidenceBounds | backend/main.py:106-107 | the confidence is 0.5 without scores and lies between the lowest and highest score otherwise |
| ChatApi.SearchEndpoint | backend/main.py:129-143 | an empty query is the 400 `query required`; errors are 400 or 500; a response has one entry per hit of a retrieval that succeeded |
| ChatApi.SearchCases | backend/main.py:129-143 | an empty query is a 400 `query required`; otherwise one source entry per hit, in order |

## Left out

- The embedding model, FAISS's index construction and search, chromadb's storage and query, pypdf's text extraction and the OpenAI client are not modelled. They enter as inputs: page outcomes, an embedding function, the neighbour row, the query result lists and the call outcomes.
- Which neighbours FAISS returns for a query, and that it returns exactly `k` of them, is not modelled. The row is an input.
- The filesystem is reduced to values.
  - `os.walk` is a given list of directories with their file names.
  - `os.path.relpath` is a given function.
  - `os.makedirs` is dropped.
  - Existence, `faiss.write_index`, `faiss.read_index` and `pickle` become lookups and updates in `RagTypes.FaissStore`.
  - A path is treated as holding an index file or a metadata file, not both.
- Environment lookups (`CHROMA_DB_DIR`, `OPENAI_MODEL`, `OPENAI_TEMPERATURE`, `CORS_ORIGINS`), `load_dotenv` and the scripts' `__main__` blocks are not modelled. The persist directory is a parameter.
- The model name, temperature and `max_tokens` passed to the language model are not modelled, and neither is the lazy creation of its client. A failure there is one of the oracle's error outcomes.
- Time is not modelled: `time.sleep` is recorded as the list of delays.
- The FastAPI application, CORS middleware, `/health`, the lazy component globals, `print` and the traceback are not modelled.
- Pydantic validation (status 422) is not modelled. The request types only admit valid roles and namespaces.
- The chroma ids come from a given function instead of `uuid.uuid4()`.
- That each chroma metadata record is a distinct dictionary object is not modelled. Records are values here.
- `collection.add` and its effect on the collection are not modelled, because the `NameError` always comes first.
- Chromadb query results with `None` entries, or with an empty outer list, are not modelled.
- An exception in `_ensure_components` or in the retriever constructor is not modelled.
- Floating point is modelled as reals, with no rounding, no `float32` conversion, no infinities and no NaN.
- `source` and `chunk_id` are always present in the response, because every hit carries them.
- The isinstance filter on scores is modelled as keeping every score, since every hit's score is a number.
- `PyText.Lower`: only lowercases ASCII letters. Python's `lower()` also maps other characters, and some of them land on pattern letters.
  - U+212A KELVIN SIGN becomes ASCII `k`, so `classify_intent` of `\bwattmon` + U+212A + `\b` is `wattmonk` in Python but `General` in the model.
  - U+0130 becomes two characters, which shifts positions.
- `IngestText.ChunkText`: runs at most `fuel` iterations and returns `None` when they run out. This is how non-termination is represented; behaviour beyond the bound is characterised only by the lemmas.
- `RagTypes.Score`: requires a raw value other than -1. At -1 numpy yields an infinite score, which reals cannot represent.
- `RetrieverFaiss.FaissRetriever.Search`: requires that no similarity in the row is exactly -1, for the same reason.
- `RetrieverFaiss.FaissRetriever.Search`: FAISS refuses `k <= 0`, which `/chat` reaches with `top_k <= 0` or an empty metadata list. The model represents that refusal as the error `CountRejected`, but not the exception's exact type or message.
- `RetrieverFaiss.FaissRetriever.Search` and `RetrieverChroma.ChromaRetriever.Search` do not compute the query embedding. `requested` records the count they would ask for.
- `ChatApi.Chat`: retriever and generator are given functions, so the endpoints are not linked to `RetrieverFaiss` and `Generator`. `/chat` never passes a conversation history, which `Generator.GenerateAnswer` takes as an input.
- `ChatApi.SearchEndpoint`: when the retriever raises, FastAPI's own 500 is represented by the detail `Internal Server Error`.
