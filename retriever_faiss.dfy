/**
 * The FAISS-backed `RAGRetriever`: on construction it loads, for each of the
 * namespaces `nec` and `wattmonk`, the index and the metadata list the FAISS
 * ingestion wrote; `search` asks the namespace's index for the
 * `min(top_k, len(metadata))` nearest vectors and turns each neighbour whose
 * position is below the metadata length into a hit.
 *
 * The query encoder and the index search are outside the model: `Search`
 * receives the neighbours FAISS returns for the query.
 */
module RetrieverFaiss {
  import opened Wrappers
  import opened PyText
  import opened RagTypes
  import IF = IngestFaiss

  /** The namespaces `_load_data` loads, in order. */
  const Namespaces: seq<string> := ["nec", "wattmonk"]

  /** The exception FAISS raises when asked for `k <= 0` neighbours (its message is not modelled). */
  const CountRejected: string := "AssertionError"

  /** One entry of the first row of `index.search(...)`: an inner-product similarity and a vector position. */
  datatype Neighbor = Neighbor(raw: real, idx: int)

  /** The index `_load_data` keeps for `namespace`: present only when both files exist. */
  function LoadedIndex(persistDir: string, store: FaissStore, namespace: string): (r: Option<FlatIndex>)
    ensures r.Some? <==> IndexPath(persistDir, namespace) in store.indexFiles && MetaPath(persistDir, namespace) in store.metaFiles
    ensures r.Some? ==> r.value == store.indexFiles[IndexPath(persistDir, namespace)]
  {
    var ip, mp := IndexPath(persistDir, namespace), MetaPath(persistDir, namespace);
    if ip in store.indexFiles && mp in store.metaFiles then Some(store.indexFiles[ip]) else None
  }

  /** The metadata list `_load_data` keeps for `namespace`: the unpickled list, or `[]` when a file is missing. */
  function LoadedMeta(persistDir: string, store: FaissStore, namespace: string): (r: seq<Meta>)
    ensures LoadedIndex(persistDir, store, namespace).Some? ==> r == store.metaFiles[MetaPath(persistDir, namespace)]
    ensures LoadedIndex(persistDir, store, namespace).None? ==> r == []
  {
    var ip, mp := IndexPath(persistDir, namespace), MetaPath(persistDir, namespace);
    if ip in store.indexFiles && mp in store.metaFiles then store.metaFiles[mp] else []
  }

  /** The index map after `_load_data` has handled the namespaces `nss`, in order, starting from `m`. */
  function LoadIndices(m: map<string, Option<FlatIndex>>, persistDir: string, store: FaissStore, nss: seq<string>): map<string, Option<FlatIndex>>
    decreases |nss|
  {
    if nss == [] then m
    else LoadIndices(m, persistDir, store, nss[..|nss| - 1])[nss[|nss| - 1] := LoadedIndex(persistDir, store, nss[|nss| - 1])]
  }

  /** The metadata map after `_load_data` has handled the namespaces `nss`, in order, starting from `m`. */
  function LoadMetas(m: map<string, seq<Meta>>, persistDir: string, store: FaissStore, nss: seq<string>): map<string, seq<Meta>>
    decreases |nss|
  {
    if nss == [] then m
    else LoadMetas(m, persistDir, store, nss[..|nss| - 1])[nss[|nss| - 1] := LoadedMeta(persistDir, store, nss[|nss| - 1])]
  }

  /** `seq[i]` with Python's negative indices; `None` is an `IndexError`. */
  function PyIndex<T>(s: seq<T>, i: int): (r: Option<T>)
    ensures 0 <= i < |s| ==> r == Some(s[i])
    ensures -|s| <= i < 0 ==> r == Some(s[|s| + i])
    ensures r.None? <==> i < -|s| || |s| <= i
  {
    if 0 <= i < |s| then Some(s[i])
    else if -|s| <= i < 0 then Some(s[|s| + i])
    else None
  }

  /** The hit `search` builds for a neighbour whose metadata record is `m`. */
  function FaissHit(m: Meta, namespace: string, n: Neighbor): (h: Hit)
    requires n.raw != -1.0
    ensures h.id == IntToString(n.idx) && h.score == Score(n.raw)
    ensures h.text == Get(m, "text", "") && h.source == Get(m, "source", namespace)
  {
    Hit(IntToString(n.idx), Get(m, "text", ""), Score(n.raw), Get(m, "source", namespace))
  }

  /** No neighbour has similarity -1, where `1.0 / (1.0 + score)` is not a finite number. */
  predicate FiniteScores(row: seq<Neighbor>) {
    forall j | 0 <= j < |row| :: row[j].raw != -1.0
  }

  /** The loop of `search` over `row`: the hits, or `IndexError` for a position Python cannot index. */
  function HitsSpec(meta: seq<Meta>, namespace: string, row: seq<Neighbor>): (r: Result<seq<Hit>, string>)
    requires FiniteScores(row)
    ensures r.Ok? ==> |r.value| <= |row|
    ensures r.Err? ==> r.error == "IndexError"
    decreases |row|
  {
    if row == [] then Ok([])
    else
      var n := row[|row| - 1];
      match HitsSpec(meta, namespace, row[..|row| - 1])
      case Err(e) => Err(e)
      case Ok(hs) =>
        if n.idx < |meta| then
          match PyIndex(meta, n.idx)
          case None => Err("IndexError")
          case Some(m) => Ok(hs + [FaissHit(m, namespace, n)])
        else Ok(hs)
  }

  class FaissRetriever {
    var persistDir: string
    var indices: map<string, Option<FlatIndex>>
    var metadata: map<string, seq<Meta>>

    /** Every namespace with an index entry has a metadata entry, and conversely. */
    predicate Valid()
      reads this
    {
      indices.Keys == metadata.Keys
    }

    /** `RAGRetriever()`: the persist directory and what `_load_data` finds in it. */
    constructor (persistDir: string, store: FaissStore)
      ensures Valid()
      ensures this.persistDir == persistDir
      ensures indices == LoadIndices(map[], persistDir, store, Namespaces)
      ensures metadata == LoadMetas(map[], persistDir, store, Namespaces)
    {
      this.persistDir := persistDir;
      indices := map[];
      metadata := map[];
      new;
      LoadData(store);
    }

    /** `_load_data()`: for each namespace, the index and metadata when both files exist, else `None` and `[]`. */
    method LoadData(store: FaissStore)
      requires Valid()
      modifies this
      ensures Valid()
      ensures persistDir == old(persistDir)
      ensures indices == LoadIndices(old(indices), persistDir, store, Namespaces)
      ensures metadata == LoadMetas(old(metadata), persistDir, store, Namespaces)
    {
      for i := 0 to |Namespaces|
        invariant Valid()
        invariant persistDir == old(persistDir)
        invariant indices == LoadIndices(old(indices), persistDir, store, Namespaces[..i])
        invariant metadata == LoadMetas(old(metadata), persistDir, store, Namespaces[..i])
      {
        var namespace := Namespaces[i];
        var ip, mp := IndexPath(persistDir, namespace), MetaPath(persistDir, namespace);
        if ip in store.indexFiles && mp in store.metaFiles {
          indices := indices[namespace := Some(store.indexFiles[ip])];
          metadata := metadata[namespace := store.metaFiles[mp]];
        } else {
          indices := indices[namespace := None];
          metadata := metadata[namespace := []];
        }
        assert Namespaces[..i + 1][..i] == Namespaces[..i];
      }
      assert Namespaces[..|Namespaces|] == Namespaces;
    }

    /** The namespace has a loaded index, so `search` queries it. */
    predicate Searchable(namespace: string)
      reads this
    {
      namespace in indices && indices[namespace].Some?
    }

    /**
     * `search(query, namespace, top_k)`, given the neighbours `row` FAISS
     * returns. `requested` is the `k` passed to the index, `None` when there is
     * no index and `search` returns `[]` at once.
     */
    method Search(namespace: string, topK: int, row: seq<Neighbor>) returns (requested: Option<int>, hits: Result<seq<Hit>, string>)
      requires Valid() && FiniteScores(row)
      ensures !Searchable(namespace) ==> requested == None && hits == Ok([])
      ensures Searchable(namespace) ==> requested == Some(Min(topK, |metadata[namespace]|))
      ensures Searchable(namespace) && Min(topK, |metadata[namespace]|) <= 0 ==> hits == Err(CountRejected)
      ensures Searchable(namespace) && Min(topK, |metadata[namespace]|) > 0 ==>
        hits == HitsSpec(metadata[namespace], namespace, row)
    {
      if namespace !in indices || indices[namespace].None? {
        return None, Ok([]);
      }
      var meta := metadata[namespace];
      requested := Some(Min(topK, |meta|));
      if requested.value <= 0 {
        return requested, Err(CountRejected);
      }
      var results: seq<Hit> := [];
      for i := 0 to |row|
        invariant HitsSpec(meta, namespace, row[..i]) == Ok(results)
      {
        var n := row[i];
        assert row[..i + 1][..i] == row[..i];
        if n.idx < |meta| {
          var m := PyIndex(meta, n.idx);
          if m.None? {
            HitsErrorSticks(meta, namespace, row, i + 1);
            return requested, Err("IndexError");
          }
          results := results + [FaissHit(m.value, namespace, n)];
        }
      }
      assert row[..|row|] == row;
      hits := Ok(results);
    }
  }

  // ---------------------------------------------------------------------------
  // Properties

  /** Once a prefix of the row raises, the whole loop raises the same error. */
  lemma {:induction false} HitsErrorSticks(meta: seq<Meta>, namespace: string, row: seq<Neighbor>, i: nat)
    requires FiniteScores(row) && i <= |row| && HitsSpec(meta, namespace, row[..i]).Err?
    ensures HitsSpec(meta, namespace, row) == HitsSpec(meta, namespace, row[..i])
    decreases |row| - i
  {
    if i < |row| {
      assert row[..i + 1][..i] == row[..i];
      HitsErrorSticks(meta, namespace, row, i + 1);
    } else {
      assert row[..i] == row;
    }
  }

  /** The neighbours `search` keeps: those whose position is below the metadata length. */
  function Kept(meta: seq<Meta>, row: seq<Neighbor>): (r: seq<Neighbor>)
    ensures |r| <= |row|
    ensures forall n | n in r :: n in row && n.idx < |meta|
    decreases |row|
  {
    if row == [] then []
    else
      var init := Kept(meta, row[..|row| - 1]);
      if row[|row| - 1].idx < |meta| then init + [row[|row| - 1]] else init
  }

  /** A position Python rejects: below `-len(metadata)`. */
  predicate Unindexable(meta: seq<Meta>, n: Neighbor) {
    n.idx < -|meta|
  }

  /**
   * `search` raises `IndexError` exactly when some neighbour has a position
   * below `-len(metadata)`; otherwise it returns one hit per kept neighbour,
   * in FAISS's order, built from the record at that (Python) position.
   */
  lemma {:induction false} HitsCases(meta: seq<Meta>, namespace: string, row: seq<Neighbor>)
    requires FiniteScores(row)
    ensures HitsSpec(meta, namespace, row).Err? <==> exists j | 0 <= j < |row| :: Unindexable(meta, row[j])
    ensures HitsSpec(meta, namespace, row).Ok? ==>
      var hs, kept := HitsSpec(meta, namespace, row).value, Kept(meta, row);
      && |hs| == |kept|
      && forall j | 0 <= j < |hs| :: PyIndex(meta, kept[j].idx).Some? && hs[j] == FaissHit(PyIndex(meta, kept[j].idx).value, namespace, kept[j])
    decreases |row|
  {
    if row != [] {
      var init := row[..|row| - 1];
      var n := row[|row| - 1];
      assert FiniteScores(init);
      HitsCases(meta, namespace, init);
      if exists j | 0 <= j < |init| :: Unindexable(meta, init[j]) {
        var j :| 0 <= j < |init| && Unindexable(meta, init[j]);
        assert row[j] == init[j];
      } else if Unindexable(meta, n) {
        assert forall j | 0 <= j < |init| :: !Unindexable(meta, row[j]) by {
          forall j | 0 <= j < |init| ensures !Unindexable(meta, row[j]) {
            assert row[j] == init[j];
          }
        }
      } else {
        forall j | 0 <= j < |row| ensures !Unindexable(meta, row[j]) {
          if j < |init| {
            assert row[j] == init[j];
          }
        }
      }
    }
  }

  /**
   * After `_load_data`, exactly `nec` and `wattmonk` have entries; each has an
   * index exactly when both of its files exist, and then the metadata is the
   * list written; otherwise the metadata is empty.
   */
  lemma LoadedNamespaces(persistDir: string, store: FaissStore, namespace: string)
    ensures var indices := LoadIndices(map[], persistDir, store, Namespaces);
      var metadata := LoadMetas(map[], persistDir, store, Namespaces);
      && (namespace in indices <==> namespace in Namespaces)
      && (namespace in metadata <==> namespace in Namespaces)
      && (namespace in Namespaces ==>
            && indices[namespace] == LoadedIndex(persistDir, store, namespace)
            && metadata[namespace] == LoadedMeta(persistDir, store, namespace))
  {
    assert Namespaces[..1] == ["nec"] && Namespaces[..1][..0] == [];
  }

  /**
   * A FAISS ingestion that returns with chunks leaves a persist directory
   * from which the namespace loads: the index of the embeddings of all its
   * chunks, and their records, one per chunk.
   */
  lemma IngestThenLoad(env: IF.IngestEnv, persistDir: string, walk: seq<IF.WalkEntry>, store: FaissStore)
    ensures var run := IF.IngestSpec(env, persistDir, walk, store);
      var files := IF.PdfPaths(walk);
      run.outcome.Ingested? && run.outcome.chunkCount > 0 ==>
        && LoadedIndex(persistDir, run.store, env.namespace) == Some(FlatIndex(IF.Encode(env, IF.AllChunks(env, files, 0))))
        && LoadedMeta(persistDir, run.store, env.namespace) == IF.AllMetas(env, files, 0)
        && |LoadedMeta(persistDir, run.store, env.namespace)| == run.outcome.chunkCount
  {
    IF.IngestCounts(env, persistDir, walk, store);
    IF.IngestRecords(env, persistDir, walk, store);
  }

  /** Similarities that do not increase along the row (FAISS's order). */
  predicate Descending(row: seq<Neighbor>) {
    forall i, j | 0 <= i < j < |row| :: row[i].raw >= row[j].raw
  }

  /**
   * The reported score treats the inner product as a distance: when FAISS
   * lists neighbours from most to least similar (all above -1), the scores of
   * the hits do not decrease, so the best match has the lowest score.
   */
  lemma ScoresAscend(meta: seq<Meta>, namespace: string, row: seq<Neighbor>)
    requires FiniteScores(row) && Descending(row)
    requires forall j | 0 <= j < |row| :: row[j].raw > -1.0
    requires HitsSpec(meta, namespace, row).Ok?
    ensures var hs := HitsSpec(meta, namespace, row).value;
      forall i, j | 0 <= i < j < |hs| :: hs[i].score <= hs[j].score
  {
    HitsCases(meta, namespace, row);
    var kept := Kept(meta, row);
    KeptDescending(meta, row);
    var hs := HitsSpec(meta, namespace, row).value;
    forall i, j | 0 <= i < j < |hs| ensures hs[i].score <= hs[j].score {
      assert kept[i] in kept && kept[j] in kept;
      if kept[i].raw > kept[j].raw {
        ScoreDecreasing(kept[j].raw, kept[i].raw);
      }
    }
  }

  /** Keeping a subsequence keeps the order. */
  lemma {:induction false} KeptDescending(meta: seq<Meta>, row: seq<Neighbor>)
    requires Descending(row)
    ensures Descending(Kept(meta, row))
    decreases |row|
  {
    if row != [] {
      var init := row[..|row| - 1];
      var n := row[|row| - 1];
      assert Descending(init) by {
        forall i, j | 0 <= i < j < |init| ensures init[i].raw >= init[j].raw {
          assert init[i] == row[i] && init[j] == row[j];
        }
      }
      KeptDescending(meta, init);
      var k := Kept(meta, init);
      if n.idx < |meta| {
        forall i | 0 <= i < |k| ensures k[i].raw >= n.raw {
          assert k[i] in init;
          var p :| 0 <= p < |init| && init[p] == k[i];
          assert row[p] == k[i];
        }
        var r := k + [n];
        forall i, j | 0 <= i < j < |r| ensures r[i].raw >= r[j].raw {
          if j < |k| {
            assert r[i] == k[i] && r[j] == k[j];
          } else {
            assert r[i] == k[i] && r[j] == n;
          }
        }
      }
    }
  }
}
