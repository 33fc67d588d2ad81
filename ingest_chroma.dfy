/**
 * `ingest_dir` of the chromadb ingestion script. It gets or creates the
 * collection `kb_<namespace>`, collects and chunks the PDF files exactly as
 * the FAISS script does, and for the first file that has chunks evaluates
 * `sentence_model.encode(chunks)` — a name defined only inside
 * `ensure_collection`, so the call raises `NameError` before anything is
 * added to the collection.
 */
module IngestChroma {
  import opened Wrappers
  import opened PyText
  import opened IngestText
  import opened RagTypes
  import F = IngestFaiss

  /** How the chromadb `ingest_dir` ends. */
  datatype ChromaOutcome =
    | Ingested(fileCount: nat, chunkCount: nat)
    | Aborted(why: F.Abort)
    | NameError(name: string)

  /** The name `ingest_dir` reads but that is local to `ensure_collection`. */
  const UnboundName: string := "sentence_model"

  /**
   * `ensure_collection(client, name, embed_model)`, that is
   * `client.get_or_create_collection(name=name)`: an existing collection is
   * kept, a missing one is created empty.
   */
  function EnsureCollection(cols: ChromaCollections, name: string): (r: ChromaCollections)
    ensures name in r
    ensures name in cols ==> r == cols
    ensures name !in cols ==> r == cols[name := Collection([], [], [], [])]
  {
    if name in cols then cols else cols[name := Collection([], [], [], [])]
  }

  /** The metadata record the chromadb script builds for each chunk of `fpath`: like the FAISS one, without the text. */
  function ChromaMeta(env: F.IngestEnv, fpath: string): Meta {
    map["source" := env.relPath(fpath), "namespace" := env.namespace, "file_name" := Basename(fpath)]
  }

  /** The `ids` and `metas` lists built for the chunks of one file; `uuid4(i)` is the `i`-th id drawn for it. */
  datatype Records = Records(ids: seq<string>, metas: seq<Meta>)

  function FileRecords(env: F.IngestEnv, fpath: string, chunks: seq<string>, uuid4: nat -> string): (r: Records)
    ensures |r.ids| == |r.metas| == |chunks|
    ensures forall i | 0 <= i < |chunks| :: r.ids[i] == uuid4(i) && r.metas[i] == ChromaMeta(env, fpath)
    ensures forall i | 0 <= i < |chunks| :: r.metas[i].Keys == {"source", "namespace", "file_name"} && "text" !in r.metas[i]
  {
    Records(seq(|chunks|, i requires 0 <= i < |chunks| => uuid4(i)),
            seq(|chunks|, i requires 0 <= i < |chunks| => ChromaMeta(env, fpath)))
  }

  /** The loop over `files` from position `i`: the first file with chunks raises `NameError`, and `added_chunks` stays 0. */
  function LoopFrom(env: F.IngestEnv, files: seq<string>, i: nat): (r: ChromaOutcome)
    ensures r.Ingested? ==> r == Ingested(|files|, 0)
    ensures r.NameError? ==> r.name == UnboundName
    decreases |files| - i
  {
    if i >= |files| then Ingested(|files|, 0)
    else match F.FileChunks(env, files[i])
      case Err(e) => Aborted(e)
      case Ok(cs) => if cs == [] then LoopFrom(env, files, i + 1) else NameError(UnboundName)
  }

  /** The outcome of `ingest_dir` and the collections of the client afterwards. */
  datatype ChromaRun = ChromaRun(outcome: ChromaOutcome, collections: ChromaCollections)

  function ChromaSpec(env: F.IngestEnv, walk: seq<F.WalkEntry>, cols: ChromaCollections): ChromaRun {
    ChromaRun(LoopFrom(env, F.PdfPaths(walk), 0), EnsureCollection(cols, CollectionName(env.namespace)))
  }

  /** `ingest_dir(root, namespace, embed_model)`, with the client's collections and the directory walk given. */
  method IngestDir(env: F.IngestEnv, walk: seq<F.WalkEntry>, cols: ChromaCollections, uuid4: nat -> string)
    returns (outcome: ChromaOutcome, cols': ChromaCollections)
    ensures ChromaRun(outcome, cols') == ChromaSpec(env, walk, cols)
  {
    cols' := EnsureCollection(cols, CollectionName(env.namespace));
    var addedChunks: nat := 0;
    var files := F.CollectPdfs(walk);
    for i := 0 to |files|
      invariant addedChunks == 0
      invariant LoopFrom(env, files, i) == LoopFrom(env, files, 0)
    {
      var chunks := F.ReadAndChunk(env, files[i]);
      if chunks.Err? {
        return Aborted(chunks.error), cols';
      }
      if chunks.value == [] {
        continue;
      }
      var records := FileRecords(env, files[i], chunks.value, uuid4);
      // `sentence_model.encode(chunks)` raises before `collection.add(...)`
      return NameError(UnboundName), cols';
    }
    outcome := Ingested(|files|, addedChunks);
  }

  /** Files before position `i` that have no chunks, and no failure among them. */
  predicate QuietUpTo(env: F.IngestEnv, files: seq<string>, i: nat)
    requires i <= |files|
  {
    forall j | 0 <= j < i :: F.FileChunks(env, files[j]) == Ok([])
  }

  /**
   * From position `i` (with every earlier file quiet), the loop returns
   * normally exactly when every file is quiet, and raises `NameError` exactly
   * when some file has chunks and every file before it is quiet.
   */
  lemma {:induction false} LoopFromCases(env: F.IngestEnv, files: seq<string>, i: nat)
    requires i <= |files| && QuietUpTo(env, files, i)
    ensures LoopFrom(env, files, i).Ingested? <==> QuietUpTo(env, files, |files|)
    ensures LoopFrom(env, files, i).NameError? <==>
      exists k | i <= k < |files| :: QuietUpTo(env, files, k) && F.FileChunks(env, files[k]).Ok? && F.FileChunks(env, files[k]).value != []
    decreases |files| - i
  {
    if i < |files| {
      match F.FileChunks(env, files[i])
      case Err(_) =>
        assert !QuietUpTo(env, files, |files|);
      case Ok(cs) =>
        if cs == [] {
          assert QuietUpTo(env, files, i + 1);
          LoopFromCases(env, files, i + 1);
          if LoopFrom(env, files, i).NameError? {
            var k :| i + 1 <= k < |files| && QuietUpTo(env, files, k) && F.FileChunks(env, files[k]).Ok? && F.FileChunks(env, files[k]).value != [];
          }
        } else {
          assert !QuietUpTo(env, files, |files|);
          assert QuietUpTo(env, files, i) && F.FileChunks(env, files[i]).Ok? && F.FileChunks(env, files[i]).value != [];
        }
    }
  }

  /**
   * `ingest_dir` returns only when no PDF yields a chunk, and then reports 0
   * chunks; it raises `NameError` exactly when some PDF yields chunks and no
   * earlier one failed or had any. The collection exists afterwards either way,
   * holding what it held before.
   */
  lemma ChromaOutcomes(env: F.IngestEnv, walk: seq<F.WalkEntry>, cols: ChromaCollections)
    ensures var run := ChromaSpec(env, walk, cols); var files := F.PdfPaths(walk);
      && (run.outcome.Ingested? <==> QuietUpTo(env, files, |files|))
      && (run.outcome.Ingested? ==> run.outcome.fileCount == |files| && run.outcome.chunkCount == 0)
      && (run.outcome.NameError? <==>
            exists k | 0 <= k < |files| :: QuietUpTo(env, files, k) && F.FileChunks(env, files[k]).Ok? && F.FileChunks(env, files[k]).value != [])
      && CollectionName(env.namespace) in run.collections
      && (CollectionName(env.namespace) in cols ==> run.collections == cols)
  {
    LoopFromCases(env, F.PdfPaths(walk), 0);
  }

  /** With positive overlap (the default is 150) a file with text never returns from the chunker, so `NameError` cannot happen. */
  lemma {:induction false} PositiveOverlapNoNameError(env: F.IngestEnv, files: seq<string>, i: nat)
    requires 0 < env.overlap
    ensures !LoopFrom(env, files, i).NameError?
    decreases |files| - i
  {
    if i < |files| {
      match env.pdfs(files[i])
      case Unreadable =>
      case Pdf(pages) =>
        var text := PdfText(pages);
        if text != "" {
          PositiveOverlapNeverExits(text, env.chunkChars, env.overlap, env.fuel);
        } else {
          EmptyTextNoChunks(env.chunkChars, env.overlap, env.fuel);
          assert F.FileChunks(env, files[i]) == Ok([]);
          PositiveOverlapNoNameError(env, files, i + 1);
        }
    }
  }

  lemma DefaultsNoNameError(env: F.IngestEnv, walk: seq<F.WalkEntry>, cols: ChromaCollections)
    requires env.chunkChars == DefaultChunkChars && env.overlap == DefaultOverlap
    ensures !ChromaSpec(env, walk, cols).outcome.NameError?
  {
    PositiveOverlapNoNameError(env, F.PdfPaths(walk), 0);
  }
}
