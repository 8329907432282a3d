/**
 * The "Get Detailed Notes" actions (app.py): extract the content, ask for a
 * summary only when the extracted text is truthy (neither missing nor empty),
 * and show the notes only when the summary is truthy. Widgets, layout and
 * styling are not modelled; a run starts at the button press.
 */
module Notes {
  import opened Outcomes
  import opened Transcript
  import opened Website
  import opened Summary

  const YouTubePrompt: string := "You are a YouTube video summarizer. You will be taking the transcript text and summarizing the entire video and providing the important summary in points within 250 words. Please provide the summary of the text given here: "

  const WebsitePrompt: string := "You are a website summarizer. You will be taking the content of the website and summarizing the entire content and providing the important summary in points within 250 words. Please provide the summary of the content given here: "

  /** One run of an action: the extracted text, the request sent (if any), the notes shown (if any), and every message. */
  datatype NotesRun = NotesRun(
    extracted: Option<string>,
    payload: Option<string>,
    notes: Option<string>,
    messages: seq<Message>)

  /** The gated part shared by both actions: summarise only truthy text, show only a truthy summary. */
  function SummariseIfPresent(extracted: Option<string>, extractMessages: seq<Message>, prompt: string,
                              apiKey: string, model: (string, string) -> Option<string>): (run: NotesRun)
    ensures run.extracted == extracted
    ensures run.payload.Some? <==> Truthy(extracted)
    ensures run.payload.Some? ==> run.payload.value == prompt + extracted.value
    ensures run.notes.Some? <==> run.payload.Some? && Truthy(model(apiKey, run.payload.value))
    ensures run.notes.Some? ==> run.notes == model(apiKey, run.payload.value)
    ensures run.payload.None? ==> run.messages == extractMessages
    ensures run.payload.Some? ==>
      run.messages == extractMessages + (if model(apiKey, run.payload.value).None? then [Error(GenerationError)] else [])
  {
    if Truthy(extracted) then
      var s := GenerateSummary(extracted.value, prompt, apiKey, model);
      assert s.payload == prompt + extracted.value;
      NotesRun(extracted, Some(s.payload), if Truthy(s.summary) then s.summary else None, extractMessages + s.messages)
    else
      NotesRun(extracted, None, None, extractMessages)
  }

  /** The YouTube action (app.py lines 77-83). */
  function YouTubeNotes(link: string, apiKey: string, listTranscripts: string -> Option<Tracks>,
                        model: (string, string) -> Option<string>): (run: NotesRun)
    ensures run.extracted == ExtractTranscript(link, listTranscripts).text
    ensures run.payload.Some? <==> Truthy(run.extracted)
    ensures run.payload.Some? ==> run.payload.value == YouTubePrompt + run.extracted.value
    ensures run.notes.Some? <==> run.payload.Some? && Truthy(model(apiKey, run.payload.value))
    ensures run.notes.Some? ==> run.notes == model(apiKey, run.payload.value)
    ensures run.payload.None? ==> run.messages == ExtractTranscript(link, listTranscripts).messages
    ensures run.payload.Some? ==>
      run.messages == ExtractTranscript(link, listTranscripts).messages + (if model(apiKey, run.payload.value).None? then [Error(GenerationError)] else [])
  {
    var t := ExtractTranscript(link, listTranscripts);
    SummariseIfPresent(t.text, t.messages, YouTubePrompt, apiKey, model)
  }

  /** The website action (app.py lines 89-95). */
  function WebsiteNotes(link: string, apiKey: string, get: string -> HttpResponse,
                        model: (string, string) -> Option<string>): (run: NotesRun)
    ensures run.extracted == ExtractWebsiteText(link, get).text
    ensures run.payload.Some? <==> Truthy(run.extracted)
    ensures run.payload.Some? ==> run.payload.value == WebsitePrompt + run.extracted.value
    ensures run.notes.Some? <==> run.payload.Some? && Truthy(model(apiKey, run.payload.value))
    ensures run.notes.Some? ==> run.notes == model(apiKey, run.payload.value)
    ensures run.payload.None? ==> run.messages == ExtractWebsiteText(link, get).messages
    ensures run.payload.Some? ==>
      run.messages == ExtractWebsiteText(link, get).messages + (if model(apiKey, run.payload.value).None? then [Error(GenerationError)] else [])
  {
    var w := ExtractWebsiteText(link, get);
    SummariseIfPresent(w.text, w.messages, WebsitePrompt, apiKey, model)
  }

  /**
   * A video link without "v=" ends the run with the malformed-link error: no
   * request, no notes. In the running app this run is never reached for such a
   * link: the thumbnail split at app.py line 73 raises first, before the button
   * is drawn. The lemma states what the guarded split inside
   * `extract_transcript_details` does on its own.
   */
  lemma MalformedLinkGivesNoNotes(link: string, apiKey: string, listTranscripts: string -> Option<Tracks>,
                                  model: (string, string) -> Option<string>)
    requires !PyStr.Contains(link, "v=")
    ensures var run := YouTubeNotes(link, apiKey, listTranscripts, model);
      run.payload.None? && run.notes.None? && run.messages == [Error(MalformedUrl)]
  {
    MalformedLinkRequestsNothing(link, listTranscripts);
  }

  /**
   * A page without paragraphs gives the empty text, which is falsy: the summary
   * is not requested, and no message is shown either.
   */
  lemma EmptyPageSkipsSummary(link: string, apiKey: string, get: string -> HttpResponse,
                              model: (string, string) -> Option<string>)
    requires get(link) == Response(true, [])
    ensures var run := WebsiteNotes(link, apiKey, get, model);
      run.extracted == Some("") && run.payload.None? && run.notes.None? && run.messages == []
  {
    NoParagraphsIsEmptyText(link, get);
  }

  /** A failing model call is reported and shows no notes. */
  lemma GenerationFailureShowsNothing(link: string, apiKey: string, get: string -> HttpResponse,
                                     model: (string, string) -> Option<string>)
    requires Truthy(ExtractWebsiteText(link, get).text)
    requires model(apiKey, WebsitePrompt + ExtractWebsiteText(link, get).text.value).None?
    ensures var run := WebsiteNotes(link, apiKey, get, model);
      run.notes.None? && run.messages == [Error(GenerationError)]
  {
  }

  /** A model that answers with the empty text shows no notes, and reports nothing. */
  lemma EmptySummaryShowsNothing(link: string, apiKey: string, listTranscripts: string -> Option<Tracks>,
                                 model: (string, string) -> Option<string>)
    requires Truthy(ExtractTranscript(link, listTranscripts).text)
    requires model(apiKey, YouTubePrompt + ExtractTranscript(link, listTranscripts).text.value) == Some("")
    ensures var run := YouTubeNotes(link, apiKey, listTranscripts, model);
      run.payload.Some? && run.notes.None? && Warnings(run.messages) == run.messages
  {
  }
}
