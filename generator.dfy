/**
 * `generate_answer`: assemble the chat prompt (system message, a slice of
 * the conversation history, at most eight labelled contexts and the
 * question), then call the language model up to four times, sleeping
 * 2, 4 and 8 seconds between rate-limited attempts. Every failure becomes an
 * answer text starting with "Error generating answer: "; nothing is raised.
 *
 * The model is an oracle: `outcomes[i]` is what the `i`-th call would do.
 * Sleeping is recorded as the list of delays passed to `time.sleep`.
 */
module Generator {
  import opened Wrappers
  import opened PyText

  const SystemPrompt: string :=
    "You are a helpful assistant. If provided with context snippets, use them to answer. "
    + "Always be accurate and concise. If the answer is not in the provided context, say you "
    + "don't have enough information and provide a helpful general answer if possible."

  /** A chat message `{"role": ..., "content": ...}`. */
  datatype Message = Message(role: string, content: string)

  // ---------------------------------------------------------------------------
  // Prompt assembly

  /** `conversation_history[-6:][:-1]` when the history is truthy, else nothing. */
  function HistoryMessages(history: Option<seq<Message>>): seq<Message> {
    if history.None? || history.value == [] then []
    else var h := history.value; Slice(Slice(h, -6, |h|), 0, -1)
  }

  /** `f"[Context {i+1}]\n{c}"` */
  function Label(i: nat, c: string): string {
    "[Context " + NatToString(i + 1) + "]\n" + c
  }

  /** The labelled contexts, numbered from 1. */
  function Labelled(cs: seq<string>): (r: seq<string>)
    ensures |r| == |cs|
  {
    seq(|cs|, i requires 0 <= i < |cs| => Label(i, cs[i]))
  }

  /** The `context_block`: the first eight contexts, labelled and separated by blank lines; `""` when there are none. */
  function ContextBlock(contexts: seq<string>): string {
    if contexts == [] then "" else Join("\n\n", Labelled(Slice(contexts, 0, 8)))
  }

  /** `current_content`: the context block under a "Context:" heading when there is one, then the question. */
  function UserContent(query: string, block: string): string {
    (if block != "" then "Context:\n" + block + "\n\n" else "") + "Question: " + query
  }

  /** The `messages` list sent to the model. */
  function BuildMessages(query: string, contexts: seq<string>, history: Option<seq<Message>>): (r: seq<Message>)
    ensures |r| == |HistoryMessages(history)| + 2
    ensures r[0] == Message("system", SystemPrompt) && r[|r| - 1].role == "user"
  {
    [Message("system", SystemPrompt)] + HistoryMessages(history)
    + [Message("user", UserContent(query, ContextBlock(contexts)))]
  }

  // ---------------------------------------------------------------------------
  // The retry loop

  /** What one `client.chat.completions.create` call does. */
  datatype LlmOutcome =
    | RateLimited(error: string)        // raises RateLimitError; `str(e)` is `error`
    | Failed(error: string)             // raises any other exception
    | Completed(content: Option<string>) // returns; `content` may be None

  /** The answer returned, how many calls were made and the delays slept, in order. */
  datatype Reply = Reply(answer: string, calls: nat, sleeps: seq<nat>)

  const Attempts: nat := 4
  const FirstDelay: nat := 2

  function ErrorAnswer(msg: string): string {
    "Error generating answer: " + msg
  }

  /** The answer an outcome yields when the loop stops at it. */
  function OutcomeAnswer(o: LlmOutcome): string {
    match o
    case Completed(c) => c.GetOr("")
    case Failed(m) => ErrorAnswer(m)
    case RateLimited(m) => ErrorAnswer(m)
  }

  /** The loop from attempt `attempt` on, with `delay` the next sleep and `slept` the sleeps so far. */
  function Retry(outcomes: seq<LlmOutcome>, attempt: nat, delay: nat, slept: seq<nat>): (r: Reply)
    requires attempt < Attempts <= |outcomes|
    ensures attempt < r.calls <= Attempts
    ensures |r.sleeps| == |slept| + (r.calls - 1 - attempt) && r.sleeps[..|slept|] == slept
    decreases Attempts - attempt
  {
    match outcomes[attempt]
    case Completed(c) => Reply(c.GetOr(""), attempt + 1, slept)
    case Failed(m) => Reply(ErrorAnswer(m), attempt + 1, slept)
    case RateLimited(m) =>
      if attempt == Attempts - 1 then Reply(ErrorAnswer(m), attempt + 1, slept)
      else Retry(outcomes, attempt + 1, delay * 2, slept + [delay])
  }

  /** The reply of the whole retry loop. */
  function RetrySpec(outcomes: seq<LlmOutcome>): (r: Reply)
    requires Attempts <= |outcomes|
    ensures 1 <= r.calls <= Attempts && |r.sleeps| == r.calls - 1
  {
    Retry(outcomes, 0, FirstDelay, [])
  }

  /** `generate_answer(query, contexts, conversation_history)`, also returning the prompt sent, the number of calls and the sleeps. */
  method GenerateAnswer(query: string, contexts: seq<string>, history: Option<seq<Message>>, outcomes: seq<LlmOutcome>)
    returns (answer: string, prompt: seq<Message>, calls: nat, sleeps: seq<nat>)
    requires Attempts <= |outcomes|
    ensures prompt == BuildMessages(query, contexts, history)
    ensures Reply(answer, calls, sleeps) == RetrySpec(outcomes)
  {
    prompt := [Message("system", SystemPrompt)];
    if history.Some? && history.value != [] {
      var h := history.value;
      var recent := Slice(h, -6, |h|);
      var older := Slice(recent, 0, -1);
      for i := 0 to |older|
        invariant prompt == [Message("system", SystemPrompt)] + older[..i]
      {
        var msg := older[i];
        prompt := prompt + [Message(msg.role, msg.content)];
      }
      assert older[..|older|] == older;
    }
    var block := ContextBlock(contexts);
    prompt := prompt + [Message("user", UserContent(query, block))];

    var attempt: nat := 0;
    var delay: nat := FirstDelay;
    sleeps := [];
    calls := 0;
    while true
      invariant attempt < Attempts && calls == attempt
      invariant Retry(outcomes, attempt, delay, sleeps) == RetrySpec(outcomes)
      decreases Attempts - attempt
    {
      calls := calls + 1;
      match outcomes[attempt]
      case Completed(c) =>
        answer := c.GetOr("");
        return;
      case Failed(m) =>
        answer := ErrorAnswer(m);
        return;
      case RateLimited(m) =>
        if attempt == Attempts - 1 {
          answer := ErrorAnswer(m);
          return;
        }
        sleeps := sleeps + [delay];
        delay := delay * 2;
        attempt := attempt + 1;
    }
  }

  // ---------------------------------------------------------------------------
  // Properties of the prompt

  /** The history contributes the last six entries without the final one: at most five, in order, copied. */
  lemma HistoryWindow(history: seq<Message>)
    requires history != []
    ensures var r := HistoryMessages(Some(history));
      var w := Min(|history|, 6);
      && |r| == w - 1 <= 5
      && forall i | 0 <= i < |r| :: r[i] == history[|history| - w + i]
  {
  }

  /** A history of length one, or none at all, contributes nothing. */
  lemma ShortHistoryIsDropped(history: Option<seq<Message>>)
    requires history.None? || |history.value| <= 1
    ensures HistoryMessages(history) == []
  {
  }

  /** The prompt is one system message carrying the system prompt, the history slice, and one user message last. */
  lemma PromptShape(query: string, contexts: seq<string>, history: Option<seq<Message>>)
    ensures var p := BuildMessages(query, contexts, history);
      var h := HistoryMessages(history);
      && |p| == |h| + 2
      && p[0] == Message("system", SystemPrompt)
      && p[1..|p| - 1] == h
      && p[|p| - 1].role == "user"
      && EndsWith(p[|p| - 1].content, "Question: " + query)
  {
    var p := BuildMessages(query, contexts, history);
    assert p[1..|p| - 1] == HistoryMessages(history);
    UserContentEnds(query, ContextBlock(contexts));
  }

  lemma UserContentEnds(query: string, block: string)
    ensures EndsWith(UserContent(query, block), "Question: " + query)
  {
    var u := UserContent(query, block);
    var pre := if block != "" then "Context:\n" + block + "\n\n" else "";
    assert u == pre + ("Question: " + query);
    assert u[|u| - |"Question: " + query|..] == "Question: " + query;
  }

  /** The "Context:" heading is present exactly when there are contexts. */
  lemma ContextHeading(query: string, contexts: seq<string>)
    ensures var u := UserContent(query, ContextBlock(contexts));
      (contexts != [] <==> StartsAt(u, 0, "Context:\n"))
      && (contexts == [] ==> u == "Question: " + query)
  {
    var block := ContextBlock(contexts);
    var u := UserContent(query, block);
    if contexts != [] {
      var parts := Labelled(Slice(contexts, 0, 8));
      JoinContainsParts("\n\n", parts, 0);
      assert |Label(0, Slice(contexts, 0, 8)[0])| > 0;
      assert block != "";
      assert u[0..9] == "Context:\n";
    } else {
      assert u == "Question: " + query;
      assert u[0] == 'Q';
      assert u[0..9][0] == 'Q';
    }
  }

  /** Only the first eight contexts are used, in order, each under its own label. */
  lemma FirstEightContexts(contexts: seq<string>)
    requires contexts != []
    ensures var used := Slice(contexts, 0, 8);
      && |used| == Min(|contexts|, 8)
      && used == contexts[..|used|]
      && ContextBlock(contexts) == Join("\n\n", Labelled(used))
      && forall i | 0 <= i < |used| :: Labelled(used)[i] == "[Context " + NatToString(i + 1) + "]\n" + contexts[i]
  {
  }

  /** Contexts after the eighth make no difference to the prompt. */
  lemma LaterContextsIgnored(contexts: seq<string>, extra: seq<string>)
    requires |contexts| >= 8
    ensures ContextBlock(contexts + extra) == ContextBlock(contexts)
  {
    assert Slice(contexts + extra, 0, 8) == Slice(contexts, 0, 8);
  }

  // ---------------------------------------------------------------------------
  // Properties of the retry loop

  /** The delay before attempt `a + 1`: 2, 4, 8, ... */
  function DelayAt(a: nat): nat {
    if a == 0 then FirstDelay else 2 * DelayAt(a - 1)
  }

  const Delays: seq<nat> := [2, 4, 8]

  lemma {:induction false} RetryFrom(outcomes: seq<LlmOutcome>, a: nat)
    requires a < Attempts <= |outcomes|
    ensures var r := Retry(outcomes, a, DelayAt(a), Delays[..a]);
      && a < r.calls <= Attempts
      && r.sleeps == Delays[..r.calls - 1]
      && (forall i | a <= i < r.calls - 1 :: outcomes[i].RateLimited?)
      && (r.calls < Attempts ==> !outcomes[r.calls - 1].RateLimited?)
      && r.answer == OutcomeAnswer(outcomes[r.calls - 1])
    decreases Attempts - a
  {
    if outcomes[a].RateLimited? && a < Attempts - 1 {
      assert DelayAt(a + 1) == DelayAt(a) * 2;
      assert Delays[..a] + [DelayAt(a)] == Delays[..a + 1];
      RetryFrom(outcomes, a + 1);
    }
  }

  /**
   * The loop makes at most four calls and stops at the first outcome that is
   * not a rate limit, or at the fourth call. Only rate limits are retried, the
   * sleeps before the retries are 2, 4 and 8, and the answer is the content of
   * the call it stopped at (`""` for None) or the error text of its exception.
   */
  lemma RetryFacts(outcomes: seq<LlmOutcome>)
    requires Attempts <= |outcomes|
    ensures var r := RetrySpec(outcomes);
      && 1 <= r.calls <= Attempts
      && r.sleeps == Delays[..r.calls - 1]
      && (forall i | 0 <= i < r.calls - 1 :: outcomes[i].RateLimited?)
      && (r.calls < Attempts ==> !outcomes[r.calls - 1].RateLimited?)
      && r.answer == OutcomeAnswer(outcomes[r.calls - 1])
  {
    RetryFrom(outcomes, 0);
  }

  /** Errors never escape: the answer is a completion's content or starts with the error prefix. */
  lemma NeverRaises(outcomes: seq<LlmOutcome>)
    requires Attempts <= |outcomes|
    ensures var r := RetrySpec(outcomes);
      (exists c :: outcomes[r.calls - 1] == Completed(c) && r.answer == c.GetOr(""))
      || StartsAt(r.answer, 0, "Error generating answer: ")
  {
    RetryFacts(outcomes);
    var r := RetrySpec(outcomes);
    match outcomes[r.calls - 1]
    case Completed(c) =>
    case Failed(m) =>
      assert r.answer[0..|"Error generating answer: "|] == "Error generating answer: ";
    case RateLimited(m) =>
      assert r.answer[0..|"Error generating answer: "|] == "Error generating answer: ";
  }

  /** Four rate limits in a row: four calls, sleeps of 2, 4 and 8 seconds, and the fourth error as the answer. */
  lemma FourRateLimits(outcomes: seq<LlmOutcome>)
    requires Attempts <= |outcomes|
    requires forall i | 0 <= i < Attempts :: outcomes[i].RateLimited?
    ensures RetrySpec(outcomes) == Reply(ErrorAnswer(outcomes[3].error), 4, [2, 4, 8])
  {
    RetryFacts(outcomes);
  }
}
