# Content-summary helper: extraction rules in Dafny

This project models the deterministic part of a small Streamlit tool. The tool takes a YouTube link or a website URL, extracts the text, and sends it to a language model for a summary ("Detailed Notes"). The model covers four things, all as pure functions:

- **Video id parsing.** The link is cut with Python's `url.split("v=")[1].split("&")[0]`.
- **Transcript choice.** English is tried first. Hindi is tried second and shows a warning. If neither exists, an error is shown and there is no text.
- **Text assembly.** Caption-segment texts or website paragraph texts are joined with single spaces, in order.
- **Summary request and gating.** The request is the prompt followed directly by the content. The summariser runs only for truthy extracted text, and notes are shown only for a truthy summary.

External services become parameters:

- `listTranscripts`: the transcript service.
- `get`: the HTTP client and the HTML paragraph extraction together.
- `model`: the summarisation endpoint.

Each message the tool shows with `st.warning` or `st.error` becomes a tagged `Message` value.

Modules:

- `Outcomes` (outcomes.dfy): `Option`, the failure and warning tags, and Python truthiness.
- `PyStr` (pystr.dfy): Python's `find`, `split` and `join` for a non-empty separator. It holds their round-trip, length and ordering lemmas.
- `Transcript` (transcript.dfy): models `extract_transcript_details`.
- `Website` (website.dfy): models `extract_website_text`.
- `Summary` (summary.dfy): models `generate_summary`.
- `Notes` (notes.dfy): the two "Get Detailed Notes" actions, from the button press onward.

Two behaviours of the code differ from what a reader might expect. The model keeps both as written:

- The id is cut after the first occurrence of the text `v=` anywhere in the link, not after the `v` query parameter. So `"?dev=1&v=abc"` gives `"1"`. See `Transcript.VideoIdMatchesInsideLongerName`.
- A page with no paragraphs gives the empty text. That text is falsy at app.py line 90, so the summariser is not called and nothing is shown. See `Notes.EmptyPageSkipsSummary`.

## Model

| member | source | states |
|---|---|---|
| Outcomes.Truthy | app.py:78 | Python truthiness of an optional text, as tested by `if transcript_text:`, `if summary:` and `if content_text:` at lines 78, 81, 90 and 93: only `None` and `""` are falsy |
| PyStr.Find | app.py:14 | A position returned by `find` is one where the separator really occurs |
| PyStr.FindFirst | app.py:14 | `find` returns the first occurrence, and returns none only when the separator occurs nowhere |
| PyStr.FindNone | app.py:14 | `find` gives none exactly when the separator is not in the string |
| PyStr.FindIsFirstOccurrence | app.py:14 | Any first occurrence of the separator is what `find` returns |
| PyStr.Join | app.py:30 | `" ".join` (also used at line 43) of no pieces is `""`, and otherwise the join starts with the first piece; its round trip with `split`, its length and the position of every piece are stated by the lemmas below |
| PyStr.Split | app.py:14 | `split` always yields at least one piece, so piece 0 always exists |
| PyStr.SplitPiecesFree | app.py:14 | No piece produced by `split` contains the separator |
| PyStr.SplitHeadBoundary | app.py:14 | The first piece is a prefix of the string that is either the whole string or followed by the separator |
| PyStr.JoinSplit | app.py:14 | Joining the pieces of a split with the same separator gives back the original string |
| PyStr.SplitJoin | app.py:30 | Splitting the join of a non-empty list on a one-character separator gives back the pieces when no piece contains the separator; for the empty list the split gives `[""]` (see `PyStr.SplitOfEmptyJoin`) |
| PyStr.SplitOfEmptyJoin | app.py:30 | Joining no pieces and splitting the result gives one empty piece, not the empty list |
| PyStr.JoinLength | app.py:30 | An empty list joins to `""`; otherwise the length is the sum of piece lengths plus one separator per neighbouring pair |
| PyStr.JoinAppend | app.py:30 | Joining two non-empty runs of pieces is joining each run and putting one separator between them |
| PyStr.JoinPieceAt | app.py:30 | Each piece appears in the join at its offset, in order, followed by the separator unless it is the last |
| PyStr.JoinExample | app.py:30 | Joining `["a","b","c"]` with a space gives `"a b c"` |
| Transcript.VideoId | app.py:14 | `url.split("v=")[1].split("&")[0]`: there is no id exactly when `find` locates no `v=` in the link; what the id is, is stated by `VideoIdFree`, `VideoIdPosition` and `VideoIdOfWellFormed` |
| Transcript.VideoIdMissing | app.py:14 | Id extraction fails exactly when the link contains no `v=` |
| Transcript.VideoIdFree | app.py:14 | An extracted id never contains `&` or `v=` |
| Transcript.VideoIdPosition | app.py:14 | The id starts right after the first `v=` and ends at the link's end, at an `&`, or at the next `v=` |
| Transcript.VideoIdOfWellFormed | app.py:14 | `p + "v=" + id + s` gives exactly `id` when `p` has no `v=`, `id` has no `&` or `v=`, and `s` is empty or starts with `&` or `v=` |
| Transcript.VideoIdMatchesInsideLongerName | app.py:14 | `v=` also matches inside a longer parameter name: `"?dev=1&v=abc"` gives `"1"` |
| Transcript.FirstAvailable | app.py:17-28 | Returns the first preferred language that is available, and none exactly when no preferred language is available |
| Transcript.SelectLanguage | app.py:17-28 | English is used without fallback when present; otherwise Hindi is used as a fallback; otherwise nothing is chosen |
| Transcript.Texts | app.py:30 | Takes the `text` field of every segment, in order |
| Transcript.ExtractTranscript | app.py:12-34 | Asks the service for the parsed id. A language is chosen exactly when the language choice over the listed transcripts selects one, and it is that language. Text exists exactly when a language was chosen, and it is the space-join of that transcript's segment texts. English gives no message and Hindi exactly one warning. Each failure gives exactly one error and no text: the malformed-link error, the listing error, or the "no suitable transcript" error |
| Transcript.MalformedLinkRequestsNothing | app.py:32-34 | A link without `v=` asks the service for nothing, gives no text, and reports the malformed-link error |
| Transcript.EnglishPreferred | app.py:18-20 | When English is available it is chosen, its segments are joined, and no warning is shown |
| Transcript.HindiFallback | app.py:21-25 | When English is missing and Hindi is present, Hindi is used with exactly one warning |
| Transcript.NoSuitableTranscript | app.py:26-28 | With neither English nor Hindi there is no text and exactly the "no suitable transcript" error |
| Transcript.SegmentsJoinExample | app.py:30 | Segments `"a"`, `"b"`, `"c"` give `"a b c"` |
| Website.ExtractWebsiteText | app.py:37-47 | Text exists exactly when the page was fetched with a passing status, and it is the space-join of the paragraphs. An unreachable page or a failing status gives its own single error |
| Website.FailingStatusIgnoresBody | app.py:39-42 | With a failing status the paragraphs make no difference to the outcome, and there is no text |
| Website.WebsiteTextInOrder | app.py:42-43 | Each paragraph appears in the text at its offset, in document order, followed by a space unless it is the last |
| Website.NoParagraphsIsEmptyText | app.py:42-44 | A page with no paragraphs gives `""` and no message, not a failure |
| Website.HelloWorldExample | app.py:43 | Paragraphs `"Hello"` and `"World"` give `"Hello World"` |
| Summary.Payload | app.py:54 | The request is exactly as long as prompt plus content, starts with the prompt, and the rest is the content, with nothing inserted |
| Summary.GenerateSummary | app.py:50-58 | Sends `Payload(prompt, content)` to the model with the credential and returns the model's answer. A failed call gives exactly the generation error and no summary |
| Summary.PayloadExample | app.py:54 | Content `"X"` with prompt `"P: "` is sent as `"P: X"` |
| Notes.SummariseIfPresent | app.py:78-83 | A request is sent exactly when the extracted text is truthy, and it is prompt plus text. Notes are shown exactly when the model's answer is truthy, and they are that answer. The messages are the extraction's, plus the generation error if the call failed |
| Notes.YouTubeNotes | app.py:76-83 | The YouTube action summarises only truthy transcript text, using the video prompt. It shows notes only for a truthy summary, and the notes are that summary. The messages are the transcript extraction's, plus the generation error if the call failed |
| Notes.WebsiteNotes | app.py:88-95 | The website action summarises only truthy page text, using the website prompt. It shows notes only for a truthy summary, and the notes are that summary. The messages are the page extraction's, plus the generation error if the call failed |
| Notes.MalformedLinkGivesNoNotes | app.py:73-78 | A video link without `v=` sends no request and shows no notes; only the malformed-link error is shown. The running app never reaches this run for such a link, because the unguarded split at line 73 raises first |
| Notes.EmptyPageSkipsSummary | app.py:89-90 | A page with no paragraphs gives `""`, so no request is sent, no notes are shown, and no message appears |
| Notes.GenerationFailureShowsNothing | app.py:92-93 | If the model call fails after truthy page text, no notes are shown and the only message is the generation error |
| Notes.EmptySummaryShowsNothing | app.py:80-81 | An empty summary is falsy: the request was sent, no notes are shown, and no error is reported |

## Left out

- The widget, layout and styling calls of the Streamlit interface (app.py lines 9 and 61-122) are not modelled. That covers the page setup, title, credential and link inputs, the content-type selector, buttons, the thumbnail image and the CSS. A run in the model starts at the button press. The `if` checks and the notes display at lines 76-83 and 88-95 are modelled, in `Notes`.
- The id split at app.py line 73 is not modelled. It builds the thumbnail URL and is not inside a `try`. In the running app, a video link without `v=` therefore raises before the button appears. The model covers only the guarded split inside `extract_transcript_details`, which reports the error instead.
- `requests.get` and `raise_for_status` (lines 39-40) become a `Response(statusOk, paragraphs)` or `Unreachable` value. Status codes and the exact rule that decides a failing status are not modelled.
- BeautifulSoup parsing, `find_all('p')` and `get_text()` (lines 41-43) are not modelled. The page's paragraph texts are given in document order, and a parse error is not modelled.
- `YouTubeTranscriptApi.list_transcripts`, `find_transcript` and `fetch` (lines 15, 20, 24) become a map from language code to segments, or `None` when listing fails. In the source, a missing language and a failing `fetch` raise inside the same `try`, so both lead to the same fallback. The model therefore treats a language whose fetch fails as absent.
- Transcript.Segment always has a text field. The `KeyError` that a segment without `"text"` would raise is not modelled.
- Gemini `configure`, `GenerativeModel("gemini-pro")` and `generate_content` (lines 52-55) become one function from credential and request text to an optional answer. A failure while reading `response.text` counts as a failed call.
- The wording of the `st.warning` and `st.error` messages, including the exception text they embed, is not modelled. Each message is a tag.
