/** The context-compression policy of `chat` (backend/main.py): what text of
    the parent node is forwarded with a new message, and how the forwarded
    prompt is laid out. */
module Context {
  import opened Wrappers
  import opened Text
  import opened Models
  import opened Llm

  /** Raw parent text longer than this is replaced by a summary. */
  const ContextLimit: nat := 250

  /** Which parent text is used: the raw Q/A text, the cached summary, or a
      summary generated now (one `summarize_node` call, stored on the parent). */
  datatype Choice = Raw(text: string) | Cached(text: string) | Fresh(text: string)

  /** The cached summary is missing or whitespace only, so a new one is made. */
  predicate NeedsSummary(summary: Option<string>)
  {
    summary.None? || Strip(summary.value) == []
  }

  /** Lines 100-110 of `chat`. `completion` is what the summariser's
      completion call would answer, consulted only on the `Fresh` path. */
  function ChooseContext(parent: Node, completion: Option<string>): (c: Choice)
    ensures var raw := QaText(parent.prompt, parent.response);
      (|raw| <= ContextLimit ==> c == Raw(raw))
      && (|raw| > ContextLimit && parent.summary.Some? && !IsBlank(parent.summary.value) ==> c == Cached(parent.summary.value))
      && (|raw| > ContextLimit && (parent.summary.None? || IsBlank(parent.summary.value)) ==>
            c == Fresh(SummarizeNode(parent.prompt, parent.response, completion)))
    ensures c.Fresh? ==> |c.text| <= SummaryLimit
  {
    var raw := QaText(parent.prompt, parent.response);
    if |raw| > ContextLimit then
      if parent.summary.Some? then StripEmptyIffBlank(parent.summary.value); ChooseLong(parent, completion)
      else ChooseLong(parent, completion)
    else Raw(raw)
  }

  function ChooseLong(parent: Node, completion: Option<string>): Choice
  {
    if NeedsSummary(parent.summary) then Fresh(SummarizeNode(parent.prompt, parent.response, completion))
    else Cached(parent.summary.value)
  }

  const Header: string := "Previous context:\n"
  const Bridge: string := "\n\nNow, answer this:\n"

  /** The prompt sent to the generator: the bare message without a parent,
      otherwise the parent context and the message in a fixed frame. */
  function Forwarded(message: string, context: Option<string>): (r: string)
    ensures context.None? ==> r == message
    ensures context.Some? ==>
      && |r| == |Header| + |context.value| + |Bridge| + |message|
      && r[..|Header|] == Header
      && r[|Header|..|Header| + |context.value|] == context.value
      && r[|Header| + |context.value|..|r| - |message|] == Bridge
      && r[|r| - |message|..] == message
  {
    match context
    case None => message
    case Some(c) => Header + c + Bridge + message
  }

  /** The frame loses nothing: the same message with two different contexts
      gives two different forwarded prompts, and so does the same context
      with two different messages. */
  lemma ForwardedInjective(m1: string, c1: string, m2: string, c2: string)
    requires Forwarded(m1, Some(c1)) == Forwarded(m2, Some(c2))
    requires |m1| == |m2| || |c1| == |c2|
    ensures m1 == m2 && c1 == c2
  {
    var r := Forwarded(m1, Some(c1));
    assert |c1| == |c2| && |m1| == |m2|;
    assert c1 == r[|Header|..|Header| + |c1|] == c2;
    assert m1 == r[|r| - |m1|..] == m2;
  }

  /** The forwarded context is bounded when every stored summary is. */
  lemma ContextBounded(parent: Node, completion: Option<string>)
    requires parent.summary.Some? ==> |parent.summary.value| <= SummaryLimit
    ensures |ChooseContext(parent, completion).text| <= ContextLimit
  {
  }
}
