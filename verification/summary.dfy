/**
 * `generate_summary` (app.py): the request sent to the model is the prompt
 * followed directly by the content, and any failure of the model call is
 * reported and yields no summary. The model endpoint is the parameter
 * `model`, called with the credential and the request text.
 */
module Summary {
  import opened Outcomes

  /** The request text: `prompt + content_text`. */
  function Payload(prompt: string, content: string): (p: string)
    ensures |p| == |prompt| + |content|
    ensures p[..|prompt|] == prompt && p[|prompt|..] == content
  {
    prompt + content
  }

  /** What one call reports: the request it sent, the summary and the messages shown. */
  datatype SummaryOutcome = SummaryOutcome(payload: string, summary: Option<string>, messages: seq<Message>)

  /** `generate_summary`, with the model as `model(credential, request)` (`None`: the call raised). */
  function GenerateSummary(content: string, prompt: string, apiKey: string,
                           model: (string, string) -> Option<string>): (r: SummaryOutcome)
    ensures r.payload == Payload(prompt, content)
    ensures r.summary == model(apiKey, r.payload)
    ensures r.summary.None? <==> r.messages == [Error(GenerationError)]
    ensures r.summary.Some? ==> r.messages == []
  {
    var payload := Payload(prompt, content);
    match model(apiKey, payload)
    case None => SummaryOutcome(payload, None, [Error(GenerationError)])
    case Some(text) => SummaryOutcome(payload, Some(text), [])
  }

  /** Content "X" under prompt "P: " is sent as "P: X", with no separator in between. */
  lemma PayloadExample()
    ensures Payload("P: ", "X") == "P: X"
  {
  }
}
