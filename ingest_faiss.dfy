/**
 * `ingest_dir` of the FAISS ingestion script: collect the `.pdf` files under
 * a directory, read and chunk each, keep one text and one metadata record per
 * chunk, and, when there is at least one chunk, write a flat inner-product
 * index of their embeddings and the metadata list into the persist directory.
 *
 * The directory walk, the PDF reader, `os.path.relpath` and the sentence
 * encoder are oracles; the persist directory is a `FaissStore` value that the
 * operation returns updated.
 */
module IngestFaiss {
  import opened Wrappers
  import opened PyText
  import opened IngestText
  import opened RagTypes

  /** One `(dirpath, dirnames, filenames)` triple of `os.walk(root)`, without the directory names. */
  datatype WalkEntry = WalkEntry(dirPath: string, fileNames: seq<string>)

  /** What `PdfReader(path)` finds: a file it cannot open (it raises), or the outcomes of the pages. */
  datatype PdfFile = Unreadable | Pdf(pages: seq<PageOutcome>)

  /** The collaborators of one `ingest_dir(root, namespace)` call, and the chunker's parameters. */
  datatype IngestEnv = IngestEnv(
    namespace: string,
    pdfs: string -> PdfFile,          // PdfReader, by path
    relPath: string -> string,        // os.path.relpath(path, start=root)
    embed: string -> Embedding,       // sentence_model.encode, one text at a time
    chunkChars: int,                  // chunk_text is called with its defaults, 1200 ...
    overlap: int,                     // ... and 150
    fuel: nat)                        // bound on the chunker's loop iterations

  /** Why `ingest_dir` does not return: the PDF reader raises on a file, or `chunk_text` never returns on its text. */
  datatype Abort = PdfUnreadable(path: string) | ChunkerStuck(path: string)

  /** How `ingest_dir` ends: it returns `(len(files), added_chunks)`, or it is aborted. */
  datatype IngestOutcome = Ingested(fileCount: nat, chunkCount: nat) | Aborted(why: Abort)

  // ---------------------------------------------------------------------------
  // Collecting the files

  /** `fn.lower().endswith((".pdf",))` */
  predicate IsPdfName(fn: string) {
    EndsWith(Lower(fn), ".pdf")
  }

  /** The paths `os.path.join(dirpath, fn)` of the PDF names of one directory, in listing order. */
  function PdfsIn(dirPath: string, fileNames: seq<string>): (r: seq<string>)
    ensures |r| <= |fileNames|
    decreases |fileNames|
  {
    if fileNames == [] then []
    else
      var init := PdfsIn(dirPath, fileNames[..|fileNames| - 1]);
      var fn := fileNames[|fileNames| - 1];
      if IsPdfName(fn) then init + [PathJoin(dirPath, fn)] else init
  }

  /** The `files` list: the PDF paths of every directory of the walk, in walk order. */
  function PdfPaths(walk: seq<WalkEntry>): seq<string>
    decreases |walk|
  {
    if walk == [] then []
    else PdfPaths(walk[..|walk| - 1]) + PdfsIn(walk[|walk| - 1].dirPath, walk[|walk| - 1].fileNames)
  }

  /** The nested loop over `os.walk(root)` that fills `files`. */
  method CollectPdfs(walk: seq<WalkEntry>) returns (files: seq<string>)
    ensures files == PdfPaths(walk)
  {
    files := [];
    for w := 0 to |walk|
      invariant files == PdfPaths(walk[..w])
    {
      var entry := walk[w];
      assert walk[..w + 1][..w] == walk[..w];
      ghost var before := files;
      for f := 0 to |entry.fileNames|
        invariant files == before + PdfsIn(entry.dirPath, entry.fileNames[..f])
      {
        var fn := entry.fileNames[f];
        assert entry.fileNames[..f + 1][..f] == entry.fileNames[..f];
        if IsPdfName(fn) {
          files := files + [PathJoin(entry.dirPath, fn)];
        }
      }
      assert entry.fileNames[..|entry.fileNames|] == entry.fileNames;
    }
    assert walk[..|walk|] == walk;
  }

  /** Every collected path is a directory joined with a file name that ends in `.pdf` in any letter case. */
  lemma {:induction false} PdfsInAreJoins(dirPath: string, fileNames: seq<string>, k: nat)
    requires k < |PdfsIn(dirPath, fileNames)|
    ensures exists fn :: fn in fileNames && IsPdfName(fn) && PdfsIn(dirPath, fileNames)[k] == PathJoin(dirPath, fn)
    decreases |fileNames|
  {
    var init := PdfsIn(dirPath, fileNames[..|fileNames| - 1]);
    if k < |init| {
      PdfsInAreJoins(dirPath, fileNames[..|fileNames| - 1], k);
      var fn :| fn in fileNames[..|fileNames| - 1] && IsPdfName(fn) && init[k] == PathJoin(dirPath, fn);
      assert fn in fileNames;
    } else {
      assert fileNames[|fileNames| - 1] in fileNames;
    }
  }

  /** Conversely every file name that ends in `.pdf` in any letter case is collected, joined with its directory. */
  lemma {:induction false} PdfNamesCollected(dirPath: string, fileNames: seq<string>, fn: string)
    requires fn in fileNames && IsPdfName(fn)
    ensures PathJoin(dirPath, fn) in PdfsIn(dirPath, fileNames)
    decreases |fileNames|
  {
    var n := |fileNames| - 1;
    if fileNames[n] != fn {
      assert fn in fileNames[..n] by {
        var k :| 0 <= k < |fileNames| && fileNames[k] == fn;
        assert fileNames[..n][k] == fn;
      }
      PdfNamesCollected(dirPath, fileNames[..n], fn);
    }
  }

  // ---------------------------------------------------------------------------
  // Reading and chunking

  /** The metadata record `ingest_dir` keeps for one chunk of the file at `fpath`. */
  function ChunkMeta(env: IngestEnv, fpath: string, chunk: string): Meta {
    map["source" := env.relPath(fpath), "namespace" := env.namespace,
        "file_name" := Basename(fpath), "text" := chunk]
  }

  /** The records for all chunks of one file, one per chunk, in order. */
  function FileMetas(env: IngestEnv, fpath: string, chunks: seq<string>): (r: seq<Meta>)
    ensures |r| == |chunks|
    ensures forall i | 0 <= i < |chunks| ::
      && r[i].Keys == {"source", "namespace", "file_name", "text"}
      && r[i]["text"] == chunks[i] && r[i]["namespace"] == env.namespace
      && r[i]["source"] == env.relPath(fpath) && r[i]["file_name"] == Basename(fpath)
  {
    seq(|chunks|, i requires 0 <= i < |chunks| => ChunkMeta(env, fpath, chunks[i]))
  }

  /** `chunk_text(read_pdf_text(fpath))`, or the way it fails. */
  function FileChunks(env: IngestEnv, fpath: string): Result<seq<string>, Abort> {
    match env.pdfs(fpath)
    case Unreadable => Err(PdfUnreadable(fpath))
    case Pdf(pages) =>
      match ChunkSpec(PdfText(pages), env.chunkChars, env.overlap, env.fuel)
      case None => Err(ChunkerStuck(fpath))
      case Some(cs) => Ok(cs)
  }

  /** The accumulators `all_texts`, `all_metadata` and `added_chunks`. */
  datatype Acc = Acc(texts: seq<string>, metas: seq<Meta>, added: nat)

  /** The loop body for one file whose chunks are `chunks`: skip it when there are none, else append text and record per chunk. */
  function AddFile(env: IngestEnv, fpath: string, chunks: seq<string>, acc: Acc): Acc {
    if chunks == [] then acc
    else Acc(acc.texts + chunks, acc.metas + FileMetas(env, fpath, chunks), acc.added + |chunks|)
  }

  /** The loop over `files` from position `i` with the accumulators `acc`. */
  function GatherFrom(env: IngestEnv, files: seq<string>, i: nat, acc: Acc): Result<Acc, Abort>
    decreases |files| - i
  {
    if i >= |files| then Ok(acc)
    else match FileChunks(env, files[i])
      case Err(e) => Err(e)
      case Ok(cs) => GatherFrom(env, files, i + 1, AddFile(env, files[i], cs, acc))
  }

  /** `sentence_model.encode(all_texts)` */
  function Encode(env: IngestEnv, texts: seq<string>): (v: seq<Embedding>)
    ensures |v| == |texts|
    ensures forall i | 0 <= i < |texts| :: v[i] == env.embed(texts[i])
  {
    seq(|texts|, i requires 0 <= i < |texts| => env.embed(texts[i]))
  }

  /** The persist directory after writing the index and the pickled metadata for `namespace`. */
  function WriteIndex(store: FaissStore, persistDir: string, namespace: string, vectors: seq<Embedding>, metas: seq<Meta>): FaissStore {
    FaissStore(store.indexFiles[IndexPath(persistDir, namespace) := FlatIndex(vectors)],
               store.metaFiles[MetaPath(persistDir, namespace) := metas])
  }

  /** The outcome of `ingest_dir` and the persist directory afterwards. */
  datatype IngestRun = IngestRun(outcome: IngestOutcome, store: FaissStore)

  function IngestSpec(env: IngestEnv, persistDir: string, walk: seq<WalkEntry>, store: FaissStore): (r: IngestRun)
    ensures r.outcome.Ingested? ==> r.outcome.fileCount == |PdfPaths(walk)|
    ensures r.outcome.Aborted? ==> r.store == store
  {
    var files := PdfPaths(walk);
    match GatherFrom(env, files, 0, Acc([], [], 0))
    case Err(e) => IngestRun(Aborted(e), store)
    case Ok(acc) =>
      IngestRun(Ingested(|files|, acc.added),
                if acc.texts != [] then WriteIndex(store, persistDir, env.namespace, Encode(env, acc.texts), acc.metas) else store)
  }

  /** One step of the loop over `files`: a file whose chunks are `cs` moves on to the next with the accumulators updated. */
  lemma GatherStep(env: IngestEnv, files: seq<string>, i: nat, acc: Acc, cs: seq<string>)
    requires i < |files| && FileChunks(env, files[i]) == Ok(cs)
    ensures GatherFrom(env, files, i, acc) == GatherFrom(env, files, i + 1, AddFile(env, files[i], cs, acc))
  {
  }

  /** `chunk_text(read_pdf_text(fpath))`; an exception of the reader, or a chunker that never returns, is an `Err`. */
  method ReadAndChunk(env: IngestEnv, fpath: string) returns (r: Result<seq<string>, Abort>)
    ensures r == FileChunks(env, fpath)
  {
    var pdf := env.pdfs(fpath);
    if pdf.Unreadable? {
      return Err(PdfUnreadable(fpath));
    }
    var text := ReadPdfText(pdf.pages);
    var chunks := ChunkText(text, env.chunkChars, env.overlap, env.fuel);
    if chunks.None? {
      return Err(ChunkerStuck(fpath));
    }
    return Ok(chunks.value);
  }

  /** A file that aborts `ingest_dir` ends the loop with its reason. */
  lemma GatherStops(env: IngestEnv, files: seq<string>, i: nat, acc: Acc)
    requires i < |files| && FileChunks(env, files[i]).Err?
    ensures GatherFrom(env, files, i, acc) == Err(FileChunks(env, files[i]).error)
  {
  }

  /** The inner loop over the chunks of one file: one text and one record per chunk. */
  method AppendChunks(env: IngestEnv, fpath: string, chunks: seq<string>, texts: seq<string>, metas: seq<Meta>)
    returns (texts': seq<string>, metas': seq<Meta>)
    ensures texts' == texts + chunks
    ensures metas' == metas + FileMetas(env, fpath, chunks)
  {
    texts', metas' := texts, metas;
    for c := 0 to |chunks|
      invariant texts' == texts + chunks[..c]
      invariant metas' == metas + FileMetas(env, fpath, chunks[..c])
    {
      var chunk := chunks[c];
      texts' := texts' + [chunk];
      metas' := metas' + [ChunkMeta(env, fpath, chunk)];
      assert chunks[..c + 1] == chunks[..c] + [chunk];
      assert FileMetas(env, fpath, chunks[..c + 1]) == FileMetas(env, fpath, chunks[..c]) + [ChunkMeta(env, fpath, chunk)];
    }
    assert chunks[..|chunks|] == chunks;
  }

  /** `ingest_dir(root, namespace)`, with `persist_dir` and the directory walk given. */
  method IngestDir(env: IngestEnv, persistDir: string, walk: seq<WalkEntry>, store: FaissStore)
    returns (outcome: IngestOutcome, newStore: FaissStore)
    ensures IngestRun(outcome, newStore) == IngestSpec(env, persistDir, walk, store)
  {
    var files := CollectPdfs(walk);
    var allTexts: seq<string> := [];
    var allMetadata: seq<Meta> := [];
    var addedChunks: nat := 0;
    for i := 0 to |files|
      invariant GatherFrom(env, files, i, Acc(allTexts, allMetadata, addedChunks)) == GatherFrom(env, files, 0, Acc([], [], 0))
    {
      var fpath := files[i];
      var chunks := ReadAndChunk(env, fpath);
      if chunks.Err? {
        GatherStops(env, files, i, Acc(allTexts, allMetadata, addedChunks));
        return Aborted(chunks.error), store;
      }
      GatherStep(env, files, i, Acc(allTexts, allMetadata, addedChunks), chunks.value);
      if chunks.value == [] {
        continue;
      }
      allTexts, allMetadata := AppendChunks(env, fpath, chunks.value, allTexts, allMetadata);
      addedChunks := addedChunks + |chunks.value|;
    }
    outcome := Ingested(|files|, addedChunks);
    newStore := store;
    if allTexts != [] {
      newStore := WriteIndex(store, persistDir, env.namespace, Encode(env, allTexts), allMetadata);
    }
  }

  // ---------------------------------------------------------------------------
  // Properties

  /** The accumulators grow in lockstep: one text and one record per chunk, each record built for its own chunk from some file. */
  predicate Lockstep(env: IngestEnv, files: seq<string>, acc: Acc) {
    && |acc.texts| == |acc.metas| == acc.added
    && forall j | 0 <= j < |acc.metas| :: MetaFor(env, files, acc.metas[j], acc.texts[j])
  }

  /** `m` is the record of chunk `chunk` of one of `files`. */
  predicate MetaFor(env: IngestEnv, files: seq<string>, m: Meta, chunk: string) {
    exists f | f in files :: m == ChunkMeta(env, f, chunk)
  }

  lemma AddFileKeeps(env: IngestEnv, files: seq<string>, i: nat, chunks: seq<string>, acc: Acc)
    requires i < |files| && Lockstep(env, files, acc)
    ensures Lockstep(env, files, AddFile(env, files[i], chunks, acc))
    ensures |AddFile(env, files[i], chunks, acc).texts| == |acc.texts| + |chunks|
  {
    var r := AddFile(env, files[i], chunks, acc);
    if chunks != [] {
      forall j | 0 <= j < |r.metas| ensures MetaFor(env, files, r.metas[j], r.texts[j]) {
        if j >= |acc.metas| {
          assert r.metas[j] == ChunkMeta(env, files[i], r.texts[j]) && files[i] in files;
        } else {
          assert r.metas[j] == acc.metas[j] && r.texts[j] == acc.texts[j];
        }
      }
    }
  }

  lemma {:induction false} GatherKeeps(env: IngestEnv, files: seq<string>, i: nat, acc: Acc)
    requires Lockstep(env, files, acc)
    ensures GatherFrom(env, files, i, acc).Ok? ==> Lockstep(env, files, GatherFrom(env, files, i, acc).value)
    decreases |files| - i
  {
    if i < |files| {
      match FileChunks(env, files[i])
      case Err(_) =>
      case Ok(cs) =>
        AddFileKeeps(env, files, i, cs, acc);
        GatherKeeps(env, files, i + 1, AddFile(env, files[i], cs, acc));
    }
  }

  /** The chunks of the files from position `i` on, in file order (a file that fails contributes none). */
  function AllChunks(env: IngestEnv, files: seq<string>, i: nat): seq<string>
    decreases |files| - i
  {
    if i >= |files| then []
    else
      var cs := if FileChunks(env, files[i]).Ok? then FileChunks(env, files[i]).value else [];
      cs + AllChunks(env, files, i + 1)
  }

  /** The records of those chunks, file by file. */
  function AllMetas(env: IngestEnv, files: seq<string>, i: nat): seq<Meta>
    decreases |files| - i
  {
    if i >= |files| then []
    else
      var cs := if FileChunks(env, files[i]).Ok? then FileChunks(env, files[i]).value else [];
      FileMetas(env, files[i], cs) + AllMetas(env, files, i + 1)
  }

  /** The loop body appends the file's chunks and records, also when there are none. */
  lemma AddFileAppends(env: IngestEnv, fpath: string, cs: seq<string>, acc: Acc)
    ensures AddFile(env, fpath, cs, acc) == Acc(acc.texts + cs, acc.metas + FileMetas(env, fpath, cs), acc.added + |cs|)
  {
    if cs == [] {
      assert acc.texts + cs == acc.texts;
      assert acc.metas + FileMetas(env, fpath, cs) == acc.metas;
    }
  }

  /** A loop from position `i` that returns has appended exactly the chunks and records of the files from `i` on. */
  lemma {:induction false} GatherAppends(env: IngestEnv, files: seq<string>, i: nat, acc: Acc)
    ensures GatherFrom(env, files, i, acc).Ok? ==>
      GatherFrom(env, files, i, acc).value ==
        Acc(acc.texts + AllChunks(env, files, i), acc.metas + AllMetas(env, files, i),
            acc.added + |AllChunks(env, files, i)|)
    decreases |files| - i
  {
    if i >= |files| {
      assert acc.texts + [] == acc.texts && acc.metas + [] == acc.metas;
    } else if FileChunks(env, files[i]).Ok? {
      var cs := FileChunks(env, files[i]).value;
      var ms := FileMetas(env, files[i], cs);
      var restC, restM := AllChunks(env, files, i + 1), AllMetas(env, files, i + 1);
      assert AllChunks(env, files, i) == cs + restC;
      assert AllMetas(env, files, i) == ms + restM;
      AddFileAppends(env, files[i], cs, acc);
      GatherAppends(env, files, i + 1, Acc(acc.texts + cs, acc.metas + ms, acc.added + |cs|));
      assert acc.texts + cs + restC == acc.texts + (cs + restC);
      assert acc.metas + ms + restM == acc.metas + (ms + restM);
    }
  }

  /** `m` is the record of some chunk of one of `files`, and `v` the embedding of that chunk. */
  ghost predicate StoredFor(env: IngestEnv, files: seq<string>, m: Meta, v: Embedding) {
    exists f, chunk | f in files :: m == ChunkMeta(env, f, chunk) && v == env.embed(chunk)
  }

  /**
   * When `ingest_dir` returns, the file count is the number of PDF paths found,
   * including files that gave no chunks, and the chunk count is the number of
   * chunks of all files together. When there is a chunk, the index file holds
   * the embeddings of all chunks in file order and the metadata file their
   * records, file by file, and nothing else in the persist directory changes;
   * otherwise the persist directory is untouched.
   */
  lemma IngestCounts(env: IngestEnv, persistDir: string, walk: seq<WalkEntry>, store: FaissStore)
    ensures var run := IngestSpec(env, persistDir, walk, store);
      var ip, mp := IndexPath(persistDir, env.namespace), MetaPath(persistDir, env.namespace);
      var chunks := AllChunks(env, PdfPaths(walk), 0);
      run.outcome.Ingested? ==>
        && run.outcome.fileCount == |PdfPaths(walk)|
        && run.outcome.chunkCount == |chunks|
        && (run.outcome.chunkCount == 0 ==> run.store == store)
        && (run.outcome.chunkCount > 0 ==>
              && run.store.indexFiles == store.indexFiles[ip := FlatIndex(Encode(env, chunks))]
              && run.store.metaFiles == store.metaFiles[mp := AllMetas(env, PdfPaths(walk), 0)])
  {
    var files := PdfPaths(walk);
    GatherAppends(env, files, 0, Acc([], [], 0));
    var g := GatherFrom(env, files, 0, Acc([], [], 0));
    if g.Ok? {
      var chunks, metas := AllChunks(env, files, 0), AllMetas(env, files, 0);
      assert [] + chunks == chunks && [] + metas == metas;
      assert g.value == Acc(chunks, metas, |chunks|);
    }
  }

  /**
   * Record `j` of a written metadata file is the record of a chunk of one of
   * the PDF files, and vector `j` of the index the embedding of that chunk.
   */
  lemma IngestRecords(env: IngestEnv, persistDir: string, walk: seq<WalkEntry>, store: FaissStore)
    ensures var run := IngestSpec(env, persistDir, walk, store);
      var ip, mp := IndexPath(persistDir, env.namespace), MetaPath(persistDir, env.namespace);
      run.outcome.Ingested? && run.outcome.chunkCount > 0 ==>
        && ip in run.store.indexFiles && mp in run.store.metaFiles
        && |run.store.indexFiles[ip].vectors| == |run.store.metaFiles[mp]| == run.outcome.chunkCount
        && (forall j | 0 <= j < run.outcome.chunkCount ::
              StoredFor(env, PdfPaths(walk), run.store.metaFiles[mp][j], run.store.indexFiles[ip].vectors[j]))
  {
    var files := PdfPaths(walk);
    var g := GatherFrom(env, files, 0, Acc([], [], 0));
    GatherKeeps(env, files, 0, Acc([], [], 0));
    if g.Ok? {
      var acc := g.value;
      var run := IngestSpec(env, persistDir, walk, store);
      if acc.added > 0 {
        var ip, mp := IndexPath(persistDir, env.namespace), MetaPath(persistDir, env.namespace);
        assert run.store == WriteIndex(store, persistDir, env.namespace, Encode(env, acc.texts), acc.metas);
        forall j | 0 <= j < acc.added
          ensures StoredFor(env, files, run.store.metaFiles[mp][j], run.store.indexFiles[ip].vectors[j])
        {
          assert MetaFor(env, files, acc.metas[j], acc.texts[j]);
          var f :| f in files && acc.metas[j] == ChunkMeta(env, f, acc.texts[j]);
          assert run.store.indexFiles[ip].vectors[j] == env.embed(acc.texts[j]);
        }
      }
    }
  }

  /** A failure leaves the persist directory as it was: the exception escapes before anything is written. */
  lemma FailureWritesNothing(env: IngestEnv, persistDir: string, walk: seq<WalkEntry>, store: FaissStore)
    ensures var run := IngestSpec(env, persistDir, walk, store);
      !run.outcome.Ingested? ==> run.store == store
  {
  }

  /** With positive overlap the chunker returns only for empty text, and then with no chunks. */
  lemma {:induction false} GatherPositiveOverlap(env: IngestEnv, files: seq<string>, i: nat, acc: Acc)
    requires 0 < env.overlap
    ensures GatherFrom(env, files, i, acc).Ok? ==> GatherFrom(env, files, i, acc).value == acc
    decreases |files| - i
  {
    if i < |files| {
      match env.pdfs(files[i])
      case Unreadable =>
      case Pdf(pages) =>
        var text := PdfText(pages);
        if text != "" {
          PositiveOverlapNeverExits(text, env.chunkChars, env.overlap, env.fuel);
        } else {
          EmptyTextNoChunks(env.chunkChars, env.overlap, env.fuel);
          assert FileChunks(env, files[i]) == Ok([]);
          GatherPositiveOverlap(env, files, i + 1, acc);
        }
    }
  }

  /**
   * With the chunker's defaults (overlap 150), `ingest_dir` can only return
   * when no PDF has any text: it then reports zero chunks and writes nothing.
   */
  lemma DefaultsNeverWrite(env: IngestEnv, persistDir: string, walk: seq<WalkEntry>, store: FaissStore)
    requires env.chunkChars == DefaultChunkChars && env.overlap == DefaultOverlap
    ensures var run := IngestSpec(env, persistDir, walk, store);
      run.outcome.Ingested? ==> run.outcome.chunkCount == 0 && run.store == store
  {
    GatherPositiveOverlap(env, PdfPaths(walk), 0, Acc([], [], 0));
  }
}
