/**
 * The chromadb-backed `RAGRetriever`: `search` looks up the collection
 * `kb_<namespace>`, returns no hits when it is missing or empty, and
 * otherwise queries it for `max(1, top_k)` results and turns each returned id
 * into a hit, falling back to defaults where a parallel list is short.
 *
 * The query encoder and the collection's nearest-neighbour query are outside
 * the model: `Search` receives the query's result.
 */
module RetrieverChroma {
  import opened Wrappers
  import opened PyText
  import opened RagTypes

  /**
   * The first inner list of each key of `col.query(...)`'s result; `None` is a
   * key the result lacks, for which `res.get(key, [[]])[0]` is `[]`.
   */
  datatype QueryResult = QueryResult(
    ids: Option<seq<string>>,
    documents: Option<seq<string>>,
    metadatas: Option<seq<Meta>>,
    distances: Option<seq<real>>)

  /** `res.get(key, [[]])[0]` */
  function Column<T>(c: Option<seq<T>>): (r: seq<T>)
    ensures c.Some? ==> r == c.value
    ensures c.None? ==> r == []
  {
    c.GetOr([])
  }

  /** `seq[i] if i < len(seq) else default` */
  function AtOr<T>(s: seq<T>, i: nat, default: T): (r: T)
    ensures i < |s| ==> r == s[i]
    ensures |s| <= i ==> r == default
  {
    if i < |s| then s[i] else default
  }

  /** `meta.get("source") or meta.get("file_name") or namespace` */
  function SourceOf(m: Meta, namespace: string): (r: string)
    ensures Truthy(m, "source") ==> r == m["source"]
    ensures !Truthy(m, "source") && Truthy(m, "file_name") ==> r == m["file_name"]
    ensures !Truthy(m, "source") && !Truthy(m, "file_name") ==> r == namespace
  {
    if Truthy(m, "source") then m["source"]
    else if Truthy(m, "file_name") then m["file_name"]
    else namespace
  }

  /** The hit for position `i` of the result, or `ZeroDivisionError` for a distance of -1. */
  function HitAt(res: QueryResult, namespace: string, i: nat): Result<Hit, string>
    requires i < |Column(res.ids)|
  {
    var meta := AtOr(Column(res.metadatas), i, map[]);
    var dist := AtOr(Column(res.distances), i, 0.0);
    if dist == -1.0 then Err("ZeroDivisionError")
    else Ok(Hit(Column(res.ids)[i], AtOr(Column(res.documents), i, ""), Score(dist), SourceOf(meta, namespace)))
  }

  /** The loop of `search` over the first `n` ids. */
  function HitsUpTo(res: QueryResult, namespace: string, n: nat): (r: Result<seq<Hit>, string>)
    requires n <= |Column(res.ids)|
    ensures r.Ok? ==> |r.value| == n
    ensures r.Err? ==> r.error == "ZeroDivisionError"
  {
    if n == 0 then Ok([])
    else match HitsUpTo(res, namespace, n - 1)
      case Err(e) => Err(e)
      case Ok(hs) =>
        match HitAt(res, namespace, n - 1)
        case Err(e) => Err(e)
        case Ok(h) => Ok(hs + [h])
  }

  class ChromaRetriever {
    var collections: ChromaCollections

    /** `RAGRetriever()` over a persistent client whose collections are `collections`. */
    constructor (collections: ChromaCollections)
      ensures this.collections == collections
    {
      this.collections := collections;
    }

    /** `_collection(namespace)`: the collection `kb_<namespace>`, or `None` when `get_collection` raises. */
    function CollectionOf(namespace: string): (r: Option<Collection>)
      reads this
      ensures r.Some? <==> CollectionName(namespace) in collections
      ensures r.Some? ==> r.value == collections[CollectionName(namespace)]
    {
      var name := CollectionName(namespace);
      if name in collections then Some(collections[name]) else None
    }

    /**
     * `search(query, namespace, top_k)`, given the result `res` of the
     * collection's query. `requested` is the `n_results` asked for, `None`
     * when the collection is missing or empty and no query is made.
     */
    method Search(namespace: string, topK: int, res: QueryResult) returns (requested: Option<int>, hits: Result<seq<Hit>, string>)
      ensures var col := CollectionOf(namespace);
        col.None? || col.value.Count() == 0 ==> requested == None && hits == Ok([])
      ensures var col := CollectionOf(namespace);
        col.Some? && col.value.Count() > 0 ==>
          requested == Some(Max(1, topK)) && hits == HitsUpTo(res, namespace, |Column(res.ids)|)
    {
      var col := CollectionOf(namespace);
      if col.None? || col.value.Count() == 0 {
        return None, Ok([]);
      }
      requested := Some(Max(1, topK));
      var ids := Column(res.ids);
      var docs := Column(res.documents);
      var metas := Column(res.metadatas);
      var dists := Column(res.distances);
      var results: seq<Hit> := [];
      for i := 0 to |ids|
        invariant HitsUpTo(res, namespace, i) == Ok(results)
      {
        var meta := if i < |metas| then metas[i] else map[];
        var dist := if i < |dists| then dists[i] else 0.0;
        if dist == -1.0 {
          HitsErrorSticks(res, namespace, i + 1);
          return requested, Err("ZeroDivisionError");
        }
        var text := if i < |docs| then docs[i] else "";
        results := results + [Hit(ids[i], text, Score(dist), SourceOf(meta, namespace))];
      }
      hits := Ok(results);
    }
  }

  // ---------------------------------------------------------------------------
  // Properties

  /** Once the first `n` ids raise, the whole loop raises the same error. */
  lemma {:induction false} HitsErrorSticks(res: QueryResult, namespace: string, n: nat)
    requires n <= |Column(res.ids)| && HitsUpTo(res, namespace, n).Err?
    ensures HitsUpTo(res, namespace, |Column(res.ids)|) == HitsUpTo(res, namespace, n)
    decreases |Column(res.ids)| - n
  {
    if n < |Column(res.ids)| {
      HitsErrorSticks(res, namespace, n + 1);
    }
  }

  /** A returned distance of exactly -1. */
  predicate ZeroDenominator(res: QueryResult, i: nat) {
    i < |Column(res.distances)| && Column(res.distances)[i] == -1.0
  }

  /**
   * The first `n` ids raise `ZeroDivisionError` exactly when one of them has
   * distance -1; otherwise they give one hit each, with that id, the document
   * at the same position (or `""`), the score of the distance (or of 0.0),
   * and the source chosen from the metadata (or `{}`).
   */
  lemma {:induction false} HitsCases(res: QueryResult, namespace: string, n: nat)
    requires n <= |Column(res.ids)|
    ensures HitsUpTo(res, namespace, n).Err? <==> exists i | 0 <= i < n :: ZeroDenominator(res, i)
    ensures HitsUpTo(res, namespace, n).Ok? ==>
      var hs := HitsUpTo(res, namespace, n).value;
      && |hs| == n
      && forall i | 0 <= i < n ::
           && !ZeroDenominator(res, i)
           && hs[i].id == Column(res.ids)[i]
           && hs[i].text == AtOr(Column(res.documents), i, "")
           && hs[i].score == Score(AtOr(Column(res.distances), i, 0.0))
           && hs[i].source == SourceOf(AtOr(Column(res.metadatas), i, map[]), namespace)
  {
    if n > 0 {
      HitsCases(res, namespace, n - 1);
      var prev := HitsUpTo(res, namespace, n - 1);
      if prev.Ok? {
        if ZeroDenominator(res, n - 1) {
          assert HitAt(res, namespace, n - 1).Err?;
        } else {
          var hs := HitsUpTo(res, namespace, n).value;
          assert hs == prev.value + [HitAt(res, namespace, n - 1).value];
          forall i | 0 <= i < n ensures !ZeroDenominator(res, i) {
          }
        }
      }
    }
  }

  /** Every hit has a non-empty source when the namespace is non-empty. */
  lemma SourceNonEmpty(m: Meta, namespace: string)
    requires namespace != ""
    ensures SourceOf(m, namespace) != ""
  {
  }

  /** A distance of 0, or a missing one, scores 1; any non-negative distance scores in (0, 1]. */
  lemma ChromaScoreRange(res: QueryResult, i: nat)
    requires !ZeroDenominator(res, i) && 0.0 <= AtOr(Column(res.distances), i, 0.0)
    ensures var s := Score(AtOr(Column(res.distances), i, 0.0)); 0.0 < s <= 1.0
    ensures |Column(res.distances)| <= i ==> Score(AtOr(Column(res.distances), i, 0.0)) == 1.0
  {
    ScoreRange(AtOr(Column(res.distances), i, 0.0));
  }
}
