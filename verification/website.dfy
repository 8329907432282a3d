/**
 * `extract_website_text` (app.py): fetch the page, stop on a failing status,
 * otherwise join the text of every paragraph element with single spaces.
 * The HTTP client and the HTML parser are the parameter `get`, which hands
 * back the response's status verdict and its paragraph texts in document order.
 */
module Website {
  import opened Outcomes
  import opened PyStr

  /** What fetching a URL gives: no answer at all, or a status verdict and the page's paragraph texts. */
  datatype HttpResponse = Unreachable | Response(statusOk: bool, paragraphs: seq<string>)

  /** What one call reports: the text, and the messages shown. */
  datatype WebOutcome = WebOutcome(text: Option<string>, messages: seq<Message>)

  /** `extract_website_text`. */
  function ExtractWebsiteText(url: string, get: string -> HttpResponse): (r: WebOutcome)
    ensures r.text.Some? <==> get(url).Response? && get(url).statusOk
    ensures r.text.Some? ==> r.text.value == Join(" ", get(url).paragraphs) && r.messages == []
    ensures get(url).Unreachable? ==> r.messages == [Error(FetchFailed)]
    ensures get(url).Response? && !get(url).statusOk ==> r.messages == [Error(HttpError)]
  {
    match get(url)
    case Unreachable => WebOutcome(None, [Error(FetchFailed)])
    case Response(ok, paragraphs) =>
      if !ok then WebOutcome(None, [Error(HttpError)])
      else WebOutcome(Some(Join(" ", paragraphs)), [])
  }

  /** A failing status stops before the body is looked at: the paragraphs make no difference. */
  lemma FailingStatusIgnoresBody(url: string, get1: string -> HttpResponse, get2: string -> HttpResponse)
    requires get1(url).Response? && !get1(url).statusOk
    requires get2(url).Response? && !get2(url).statusOk
    ensures ExtractWebsiteText(url, get1) == ExtractWebsiteText(url, get2)
    ensures ExtractWebsiteText(url, get1).text.None?
  {
  }

  /** The text of a page is its paragraphs in document order, each followed by one space except the last. */
  lemma {:induction false} WebsiteTextInOrder(url: string, get: string -> HttpResponse, k: nat)
    requires get(url).Response? && get(url).statusOk && k < |get(url).paragraphs|
    ensures
      var ps := get(url).paragraphs;
      var text := ExtractWebsiteText(url, get).text.value;
      var at := Offset(" ", ps, k);
      && at + |ps[k]| <= |text|
      && text[at..at + |ps[k]|] == ps[k]
      && (k + 1 < |ps| ==> at + |ps[k]| < |text| && text[at + |ps[k]|] == ' ')
  {
    var ps := get(url).paragraphs;
    var text := Join(" ", ps);
    JoinPieceAt(" ", ps, k);
    var at := Offset(" ", ps, k) + |ps[k]|;
    if k + 1 < |ps| {
      assert text[at..at + 1] == " ";
    }
  }

  /** A page without paragraphs yields the empty text, which is not a failure. */
  lemma NoParagraphsIsEmptyText(url: string, get: string -> HttpResponse)
    requires get(url) == Response(true, [])
    ensures ExtractWebsiteText(url, get) == WebOutcome(Some(""), [])
  {
  }

  /** Paragraphs ["Hello", "World"] give "Hello World". */
  lemma HelloWorldExample(url: string, get: string -> HttpResponse)
    requires get(url) == Response(true, ["Hello", "World"])
    ensures ExtractWebsiteText(url, get).text == Some("Hello World")
  {
    var ps := ["Hello", "World"];
    assert ps[1..] == ["World"];
    assert Join(" ", ps) == "Hello" + " " + "World" == "Hello World";
  }
}
