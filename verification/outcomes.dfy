/**
 * Values shared by the extraction and summary steps: an optional value, and
 * the user-visible messages that the application shows instead of raising
 * (each `st.warning` / `st.error` call becomes one `Message`).
 */
module Outcomes {

  datatype Option<+T> = None | Some(value: T)

  /** The failure kinds a step can report. */
  datatype Failure =
    | MalformedUrl          // the video link has no "v=" parameter
    | ProviderUnavailable   // listing the video's transcripts failed
    | NoTranscriptFound     // no transcript in any language of the fallback order
    | FetchFailed           // the website could not be reached
    | HttpError             // the website answered with a failing status
    | GenerationError       // the summarisation endpoint failed

  /** The non-fatal notices a step can report. */
  datatype Notice = FallbackLanguageUsed

  /** One message shown to the user. */
  datatype Message = Warning(notice: Notice) | Error(failure: Failure)

  /** Python truthiness of a `str` result that may be `None`: only `None` and `""` are falsy. */
  predicate Truthy(s: Option<string>)
    ensures Truthy(s) <==> s != None && s != Some("")
  {
    s.Some? && s.value != ""
  }

  /** The warnings among `ms`, in order. */
  function Warnings(ms: seq<Message>): (ws: seq<Message>)
    ensures |ws| <= |ms|
    ensures forall k :: 0 <= k < |ws| ==> ws[k].Warning?
    ensures forall m :: m in ms && m.Warning? ==> m in ws
    ensures forall m :: m in ws ==> m in ms
  {
    if ms == [] then []
    else if ms[0].Warning? then [ms[0]] + Warnings(ms[1..])
    else Warnings(ms[1..])
  }
}
