/**
 * The `/chat` and `/search` endpoints of the FastAPI backend: how a request
 * becomes an intent, a retrieval, a generated answer and a response body, or
 * an HTTP error.
 *
 * The intent classifier is the one modelled in `Intent`; the retriever and the
 * answer generator are parameters: `search(query, namespace, top_k)` gives the
 * hits or the message of the exception it raises, and `generate(query,
 * contexts)` the answer (`generate_answer` turns every failure into an
 * answer).
 */
module ChatApi {
  import opened Wrappers
  import opened PyText
  import opened RagTypes
  import I = Intent

  /** `ChatMessage.role` */
  datatype Role = User | Assistant | System

  datatype ChatMessage = ChatMessage(role: Role, content: string)

  /** `ChatRequest`; the defaults of `top_k` and `include_sources` are 5 and true. */
  datatype ChatRequest = ChatRequest(messages: seq<ChatMessage>, topK: int, includeSources: bool)

  /** `SourceDoc` */
  datatype SourceDoc = SourceDoc(source: string, chunkId: Option<string>, score: Option<real>, snippet: Option<string>)

  /** `ChatResponse` */
  datatype ChatResponse = ChatResponse(
    answer: string,
    source: Option<string>,
    sources: Option<seq<SourceDoc>>,
    intent: Option<string>,
    confidence: Option<real>)

  /** A response body, or an `HTTPException` with its status code and detail. */
  datatype Http<T> = Body(body: T) | HttpError(status: nat, detail: string)

  /** `SearchRequest.namespace` */
  type SearchNamespace = s: string | s == "nec" || s == "wattmonk" witness "nec"

  datatype SearchRequest = SearchRequest(query: string, namespace: SearchNamespace, topK: int)

  /** The length `/chat` and `/search` cut a hit's text to for its snippet. */
  const SnippetChars: int := 400

  /** The confidence of a general answer, and of an answer with no scored hits. */
  const GeneralConfidence: real := 0.6
  const NoScoreConfidence: real := 0.5

  /** `str(HTTPException(400, "messages required"))`, the detail of the 500 that the handler's `except` turns it into. */
  const MessagesRequired: string := "400: messages required"

  /** The `SourceDoc` for one hit: its source (the hit always has one), id, score and the first 400 characters of its text. */
  function SourceDocOf(h: Hit): (d: SourceDoc)
    ensures d.source == h.source && d.chunkId == Some(h.id) && d.score == Some(h.score)
    ensures d.snippet.Some? && |d.snippet.value| <= SnippetChars
  {
    SourceDoc(h.source, Some(h.id), Some(h.score), Some(Slice(h.text, 0, SnippetChars)))
  }

  /** `[SourceDoc(...) for r in results]` */
  function SourceDocs(hits: seq<Hit>): (r: seq<SourceDoc>)
    ensures |r| == |hits|
    ensures forall i | 0 <= i < |hits| :: r[i] == SourceDocOf(hits[i])
  {
    seq(|hits|, i requires 0 <= i < |hits| => SourceDocOf(hits[i]))
  }

  /** `[r["text"] for r in results]` */
  function Contexts(hits: seq<Hit>): (r: seq<string>)
    ensures |r| == |hits|
    ensures forall i | 0 <= i < |hits| :: r[i] == hits[i].text
  {
    seq(|hits|, i requires 0 <= i < |hits| => hits[i].text)
  }

  /** `[r.get("score") for r in results]`: every hit's score is a float. */
  function Scores(hits: seq<Hit>): (r: seq<real>)
    ensures |r| == |hits|
    ensures forall i | 0 <= i < |hits| :: r[i] == hits[i].score
  {
    seq(|hits|, i requires 0 <= i < |hits| => hits[i].score)
  }

  function Sum(xs: seq<real>): real
    decreases |xs|
  {
    if xs == [] then 0.0 else Sum(xs[..|xs| - 1]) + xs[|xs| - 1]
  }

  /** `float(sum(scores) / len(scores)) if scores else 0.5` */
  function Confidence(scores: seq<real>): (c: real)
    ensures scores == [] ==> c == NoScoreConfidence
    ensures scores != [] ==> c * (|scores| as real) == Sum(scores)
  {
    if scores == [] then NoScoreConfidence else Sum(scores) / (|scores| as real)
  }

  /** The `/chat` handler. */
  function Chat(req: ChatRequest, search: (string, string, int) -> Result<seq<Hit>, string>,
                generate: (string, seq<string>) -> string): (r: Http<ChatResponse>)
    ensures req.messages == [] ==> r == HttpError(500, MessagesRequired)
    ensures r.HttpError? ==> r.status == 500
    ensures r.Body? ==> r.body.intent.Some? && r.body.intent.value in ["general", "nec", "wattmonk"] && r.body.confidence.Some?
  {
    if req.messages == [] then HttpError(500, MessagesRequired)
    else
      var userMsg := req.messages[|req.messages| - 1].content;
      var intent := I.IntentName(I.Classify(userMsg));
      if intent == "general" then
        Body(ChatResponse(generate(userMsg, []), None, None, Some(intent), Some(GeneralConfidence)))
      else
        match search(userMsg, intent, req.topK)
        case Err(e) => HttpError(500, e)
        case Ok(hits) =>
          var sources := if req.includeSources then Some(SourceDocs(hits)) else None;
          var answer := generate(userMsg, Contexts(hits));
          Body(ChatResponse(answer, Some(intent), sources, Some(intent), Some(Confidence(Scores(hits)))))
  }

  /** The `/search` handler; an exception of the retriever becomes FastAPI's plain 500. */
  function SearchEndpoint(req: SearchRequest, search: (string, string, int) -> Result<seq<Hit>, string>): (r: Http<seq<SourceDoc>>)
    ensures req.query == "" ==> r == HttpError(400, "query required")
    ensures r.HttpError? ==> r.status == 400 || r.status == 500
    ensures r.Body? ==> search(req.query, req.namespace, req.topK).Ok? && |r.body| == |search(req.query, req.namespace, req.topK).value|
  {
    if req.query == "" then HttpError(400, "query required")
    else
      match search(req.query, req.namespace, req.topK)
      case Err(_) => HttpError(500, "Internal Server Error")
      case Ok(hits) => Body(SourceDocs(hits))
  }

  // ---------------------------------------------------------------------------
  // Properties

  /**
   * `/chat` answers from the last message alone: two requests whose last
   * messages have the same content, with the same `top_k` and
   * `include_sources`, get the same response, whatever came before.
   */
  lemma ChatUsesLastMessage(r1: ChatRequest, r2: ChatRequest, search: (string, string, int) -> Result<seq<Hit>, string>,
                            generate: (string, seq<string>) -> string)
    requires r1.messages != [] && r2.messages != []
    requires r1.messages[|r1.messages| - 1].content == r2.messages[|r2.messages| - 1].content
    requires r1.topK == r2.topK && r1.includeSources == r2.includeSources
    ensures Chat(r1, search, generate) == Chat(r2, search, generate)
  {
  }

  /**
   * The outcomes of `/chat`: an empty message list is a 500 whose detail is
   * the 400 it wraps; a general question is answered without retrieval and
   * with confidence 0.6; otherwise the retriever is asked in the intent's
   * namespace, its exception is a 500 with the message, and the answer is
   * generated from the hits' texts, reported with the intent as source, one
   * source entry per hit when asked for, and the mean score as confidence.
   */
  lemma ChatCases(req: ChatRequest, search: (string, string, int) -> Result<seq<Hit>, string>,
                  generate: (string, seq<string>) -> string)
    ensures req.messages == [] ==> Chat(req, search, generate) == HttpError(500, MessagesRequired)
    ensures req.messages != [] ==>
      var msg := req.messages[|req.messages| - 1].content;
      var intent := I.Classify(msg);
      var r := Chat(req, search, generate);
      && (intent == I.General ==>
            r == Body(ChatResponse(generate(msg, []), None, None, Some("general"), Some(GeneralConfidence))))
      && (intent != I.General ==>
            var ns := I.IntentName(intent);
            && ns in ["nec", "wattmonk"]
            && (search(msg, ns, req.topK).Err? ==> r == HttpError(500, search(msg, ns, req.topK).error))
            && (search(msg, ns, req.topK).Ok? ==>
                  var hits := search(msg, ns, req.topK).value;
                  && r.Body?
                  && r.body.answer == generate(msg, Contexts(hits))
                  && r.body.source == Some(ns) && r.body.intent == Some(ns)
                  && (req.includeSources <==> r.body.sources.Some?)
                  && (req.includeSources ==> r.body.sources.value == SourceDocs(hits))
                  && r.body.confidence == Some(Confidence(Scores(hits)))))
  {
    if req.messages != [] {
      var intent := I.Classify(req.messages[|req.messages| - 1].content);
      assert intent != I.General ==> I.IntentName(intent) != "general";
    }
  }

  /** A snippet is the first 400 characters of the hit's text, or all of it when shorter. */
  lemma SnippetIsPrefix(h: Hit)
    ensures SourceDocOf(h).snippet == Some(h.text[..Min(SnippetChars, |h.text|)])
  {
  }

  lemma {:induction false} SumBounds(xs: seq<real>, lo: real, hi: real)
    requires forall i | 0 <= i < |xs| :: lo <= xs[i] <= hi
    ensures lo * (|xs| as real) <= Sum(xs) <= hi * (|xs| as real)
    decreases |xs|
  {
    if xs != [] {
      SumBounds(xs[..|xs| - 1], lo, hi);
    }
  }

  lemma DivBounds(x: real, n: real, lo: real, hi: real)
    requires 0.0 < n && lo * n <= x <= hi * n
    ensures lo <= x / n <= hi
  {
    var q := x / n;
    if q < lo {
      MulStrict(q, lo, n);
    }
    if q > hi {
      MulStrict(hi, q, n);
    }
  }

  /** The confidence lies between the lowest and highest score; with no scores it is 0.5. */
  lemma ConfidenceBounds(scores: seq<real>, lo: real, hi: real)
    requires forall i | 0 <= i < |scores| :: lo <= scores[i] <= hi
    ensures scores == [] ==> Confidence(scores) == NoScoreConfidence
    ensures scores != [] ==> lo <= Confidence(scores) <= hi
  {
    if scores != [] {
      SumBounds(scores, lo, hi);
      DivBounds(Sum(scores), |scores| as real, lo, hi);
    }
  }

  /**
   * `/search` rejects an empty query with a 400 before retrieving; otherwise
   * it returns one `SourceDoc` per hit, in order, or a 500 when the retriever
   * raises.
   */
  lemma SearchCases(req: SearchRequest, search: (string, string, int) -> Result<seq<Hit>, string>)
    ensures req.query == "" <==> SearchEndpoint(req, search) == HttpError(400, "query required")
    ensures req.query != "" && search(req.query, req.namespace, req.topK).Ok? ==>
      var hits := search(req.query, req.namespace, req.topK).value;
      && SearchEndpoint(req, search).Body?
      && |SearchEndpoint(req, search).body| == |hits|
      && forall i | 0 <= i < |hits| :: SearchEndpoint(req, search).body[i] == SourceDocOf(hits[i])
  {
  }
}
