/**
 * The values the ingestion scripts, the retrievers and the API pass between
 * them: chunk metadata records, search hits and their score, the files the
 * FAISS ingestion leaves in the persist directory, and the chromadb
 * collections.
 */
module RagTypes {
  import opened PyText

  /** A metadata record: a dict from string keys to string values. */
  type Meta = map<string, string>

  /** `m.get(k, default)` */
  function Get(m: Meta, k: string, default: string): (v: string)
    ensures k in m ==> v == m[k]
    ensures k !in m ==> v == default
  {
    if k in m then m[k] else default
  }

  /** `m.get(k)` is truthy: present and not the empty string. */
  predicate Truthy(m: Meta, k: string) {
    k in m && m[k] != ""
  }

  /** A search hit as the retrievers return it: `{"id", "text", "score", "source"}`. */
  datatype Hit = Hit(id: string, text: string, score: real, source: string)

  /** `1.0 / (1.0 + raw)`: the score a retriever reports for a raw similarity or distance. */
  function Score(raw: real): (s: real)
    requires raw != -1.0
    ensures s * (1.0 + raw) == 1.0
  {
    1.0 / (1.0 + raw)
  }

  lemma MulStrict(p: real, q: real, c: real)
    requires p < q && 0.0 < c
    ensures p * c < q * c
  {
    assert (q - p) * c > 0.0;
  }

  lemma MulStrictLeft(c: real, p: real, q: real)
    requires p < q && 0.0 < c
    ensures c * p < c * q
  {
    assert c * (q - p) > 0.0;
  }

  lemma MulLe(p: real, q: real, c: real)
    requires p <= q && 0.0 < c
    ensures p * c <= q * c
  {
    assert (q - p) * c >= 0.0;
  }

  lemma PosProduct(p: real, c: real)
    requires 0.0 < c && 0.0 < p * c
    ensures 0.0 < p
  {
  }

  /** Above -1 the score is positive; for a non-negative raw value it is at most 1, and exactly 1 at 0. */
  lemma ScoreRange(raw: real)
    requires -1.0 < raw
    ensures 0.0 < Score(raw)
    ensures 0.0 <= raw ==> Score(raw) <= 1.0
    ensures raw == 0.0 ==> Score(raw) == 1.0
  {
    var s := Score(raw);
    PosProduct(s, 1.0 + raw);
    if 0.0 <= raw && s > 1.0 {
      MulStrict(1.0, s, 1.0 + raw);
    }
  }

  /** Above -1 the score strictly decreases as the raw value grows. */
  lemma ScoreDecreasing(a: real, b: real)
    requires -1.0 < a < b
    ensures Score(a) > Score(b)
  {
    ScoreRange(b);
    ReciprocalDecreasing(1.0 + a, 1.0 + b, Score(a), Score(b));
  }

  /** Of two positive numbers the larger has the smaller reciprocal. */
  lemma ReciprocalDecreasing(x: real, y: real, rx: real, ry: real)
    requires 0.0 < x < y && rx * x == 1.0 && ry * y == 1.0 && 0.0 < ry
    ensures rx > ry
  {
    if rx <= ry {
      MulLe(rx, ry, x);
      MulStrictLeft(ry, x, y);
    }
  }

  /** An embedding vector, as the sentence encoder returns it for one text. */
  type Embedding = seq<real>

  /** A `faiss.IndexFlatIP` holding one vector per chunk, in insertion order. */
  datatype FlatIndex = FlatIndex(vectors: seq<Embedding>)

  /** The two kinds of file the FAISS ingestion writes into the persist directory, by path. */
  datatype FaissStore = FaissStore(indexFiles: map<string, FlatIndex>, metaFiles: map<string, seq<Meta>>)

  /** `os.path.join(a, b)` for POSIX paths. */
  function PathJoin(a: string, b: string): (p: string)
    ensures |b| > 0 && b[0] == '/' ==> p == b
  {
    if |b| > 0 && b[0] == '/' then b
    else if a == "" || EndsWith(a, "/") then a + b
    else a + "/" + b
  }

  /** The position after the last `/` of `p`, or 0 when there is none. */
  function AfterLastSlash(p: string): (i: nat)
    ensures i <= |p|
    ensures i > 0 ==> p[i - 1] == '/'
    ensures forall k | i <= k < |p| :: p[k] != '/'
    decreases |p|
  {
    if p == [] then 0
    else if p[|p| - 1] == '/' then |p|
    else AfterLastSlash(p[..|p| - 1])
  }

  /** `os.path.basename(p)`: the part after the last `/`. */
  function Basename(p: string): (b: string)
    ensures '/' !in b
    ensures EndsWith(p, b)
  {
    p[AfterLastSlash(p)..]
  }

  /** The base name of a joined path whose file name has no `/` is that file name. */
  lemma BasenameOfJoin(dir: string, fn: string)
    requires '/' !in fn
    ensures Basename(PathJoin(dir, fn)) == fn
  {
    var p := PathJoin(dir, fn);
    var pre := if dir == "" || EndsWith(dir, "/") then dir else dir + "/";
    assert p == pre + fn;
    BasenameOfSuffix(pre, fn);
  }

  lemma {:induction false} BasenameOfSuffix(pre: string, fn: string)
    requires '/' !in fn
    requires pre == [] || pre[|pre| - 1] == '/'
    ensures AfterLastSlash(pre + fn) == |pre|
    decreases |fn|
  {
    if fn == [] {
      assert pre + fn == pre;
    } else {
      var s := pre + fn;
      assert s[|s| - 1] == fn[|fn| - 1];
      assert s[..|s| - 1] == pre + fn[..|fn| - 1];
      BasenameOfSuffix(pre, fn[..|fn| - 1]);
    }
  }

  /** `os.path.join(persist_dir, f"{namespace}_index.faiss")` */
  function IndexPath(persistDir: string, namespace: string): string {
    PathJoin(persistDir, namespace + "_index.faiss")
  }

  /** `os.path.join(persist_dir, f"{namespace}_metadata.pkl")` */
  function MetaPath(persistDir: string, namespace: string): string {
    PathJoin(persistDir, namespace + "_metadata.pkl")
  }

  /** A chromadb collection's stored records, in insertion order. */
  datatype Collection = Collection(ids: seq<string>, documents: seq<string>, metadatas: seq<Meta>, embeddings: seq<Embedding>)
  {
    /** `collection.count()` */
    function Count(): nat {
      |ids|
    }
  }

  /** The collections of a chromadb client, by name. */
  type ChromaCollections = map<string, Collection>

  /** `f"kb_{namespace}"` */
  function CollectionName(namespace: string): string {
    "kb_" + namespace
  }
}
