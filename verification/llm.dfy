/** The completion wrappers of backend/groq_client.py with the completion
    call itself abstracted: what the service answered is an input. */
module Llm {
  import opened Wrappers
  import opened Text

  /** Upper bound on a stored summary, in characters. */
  const SummaryLimit: nat := 250

  /** The raw question/answer text `"Q: {prompt}\nA: {response}"`. */
  function QaText(prompt: string, response: string): (t: string)
    ensures |t| == |prompt| + |response| + 7
    ensures t[..3] == "Q: " && t[3..3 + |prompt|] == prompt
    ensures t[3 + |prompt|..7 + |prompt|] == "\nA: " && t[7 + |prompt|..] == response
  {
    "Q: " + prompt + "\nA: " + response
  }

  /** What a completion call produced: the reply text, or the text of the
      exception it raised (`str(e)`). */
  datatype Reply = Content(text: string) | Raised(message: string)

  const ErrorMarker: string := "[LLM error] "

  /** `generate_response`: an exception never escapes, it becomes the reply
      text `"[LLM error] " + str(e)`. */
  function GenerateResponse(reply: Reply): (r: string)
    ensures reply.Content? ==> r == reply.text
    ensures reply.Raised? ==> ErrorMarker <= r && r[|ErrorMarker|..] == reply.message
  {
    match reply
    case Content(t) => t
    case Raised(m) => ErrorMarker + m
  }

  /** `summarize_node`: `completion` is the content of the first choice, or
      `None` when there was no usable message or the call raised (both paths
      fall back to the same truncated raw text). */
  function SummarizeNode(prompt: string, response: string, completion: Option<string>): (r: string)
    ensures |r| <= SummaryLimit
    ensures completion.Some? ==> r <= completion.value
    ensures completion.None? ==> r <= QaText(prompt, response)
    ensures completion.Some? ==> |r| == if |completion.value| <= SummaryLimit then |completion.value| else SummaryLimit
    ensures completion.None? ==> |r| == if |prompt| + |response| + 7 <= SummaryLimit then |prompt| + |response| + 7 else SummaryLimit
  {
    match completion
    case Some(content) => Take(content, SummaryLimit)
    case None => Take(QaText(prompt, response), SummaryLimit)
  }

  /** A short raw text survives summarisation failure unchanged. */
  lemma ShortFallbackIsVerbatim(prompt: string, response: string)
    requires |QaText(prompt, response)| <= SummaryLimit
    ensures SummarizeNode(prompt, response, None) == QaText(prompt, response)
  {
  }
}
