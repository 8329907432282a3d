/**
 * `extract_transcript_details` (app.py): the video id is cut out of the link
 * with two Python splits, the transcripts of that video are listed, English is
 * tried first and Hindi second, and the chosen transcript's segment texts are
 * joined with single spaces. Every failure is reported as a message and yields
 * no text. The transcript service is the parameter `listTranscripts`.
 */
module Transcript {
  import opened Outcomes
  import opened PyStr

  /**
   * `url.split("v=")[1].split("&")[0]`. A link without "v=" has a one-piece
   * split, so taking piece 1 raises; that exception is caught and reported,
   * which is the `None` here.
   */
  function VideoId(url: string): (r: Option<string>)
    ensures r.None? <==> Find(url, "v=").None?
  {
    SplitMore(url, "v=");
    var parts := Split(url, "v=");
    if |parts| < 2 then None
    else Some(Split(parts[1], "&")[0])
  }

  /** The id is missing exactly when the link holds no "v=". */
  lemma VideoIdMissing(url: string)
    ensures VideoId(url).None? <==> !Contains(url, "v=")
  {
    FindNone(url, "v=");
  }

  /** The id never holds "&" or "v=". */
  lemma VideoIdFree(url: string)
    requires VideoId(url).Some?
    ensures !Contains(VideoId(url).value, "&") && !Contains(VideoId(url).value, "v=")
  {
    var parts := Split(url, "v=");
    var id := Split(parts[1], "&")[0];
    SplitPiecesFree(url, "v=");
    SplitPiecesFree(parts[1], "&");
    SplitHead(parts[1], "&");
    assert !Contains(parts[1], "v=");
    PrefixNotContains(parts[1], id, "v=");
  }

  /**
   * The id is the text that starts right after the first "v=" and runs up to
   * the next "&", the next "v=" or the end of the link.
   */
  lemma VideoIdPosition(url: string)
    requires VideoId(url).Some?
    ensures Find(url, "v=").Some?
    ensures
      var rest := url[Find(url, "v=").value + 2..];
      var id := VideoId(url).value;
      && id <= rest
      && (id == rest || rest[|id|] == '&' || OccursAt(rest, "v=", |id|))
  {
    var parts := Split(url, "v=");
    var i := Find(url, "v=").value;
    var rest := url[i + 2..];
    var head := parts[1];
    SplitAt(url, "v=", i);
    assert head == Split(rest, "v=")[0];
    SplitHeadBoundary(rest, "v=");
    SplitHeadBoundary(head, "&");
    ComposeBoundaries(rest, head, Split(head, "&")[0]);
  }

  /**
   * A prefix cut at "&" of a prefix cut at "v=" ends where the text ends, at
   * an "&" or at a "v=".
   */
  lemma ComposeBoundaries(rest: string, head: string, id: string)
    requires head <= rest && (head == rest || OccursAt(rest, "v=", |head|))
    requires id <= head && (id == head || OccursAt(head, "&", |id|))
    ensures id <= rest
    ensures id == rest || rest[|id|] == '&' || OccursAt(rest, "v=", |id|)
  {
    if id != head {
      assert head[|id|..|id| + 1] == "&";
      assert rest[|id|] == head[|id|];
    }
  }

  /** After a first "v=" that follows `p`, the second piece of the split is the first piece of what follows. */
  lemma SecondPieceAfterMarker(p: string, r: string)
    requires !Contains(p, "v=")
    ensures |Split(p + ("v=" + r), "v=")| > 1
    ensures Split(p + ("v=" + r), "v=")[1] == Split(r, "v=")[0]
  {
    var url := p + ("v=" + r);
    assert OccursAt(url, "v=", |p|) by {
      assert url[|p|..] == "v=" + r;
      assert url[|p|..|p| + 2] == ("v=" + r)[..2];
    }
    assert Find(url, "v=") == Some(|p|) by {
      NoOccurrenceBefore(p, "v=" + r, "v=");
      FindIsFirstOccurrence(url, "v=", |p|);
    }
    SplitAt(url, "v=", |p|);
    assert url[|p| + 2..] == r;
  }

  /** An id followed by "&" is cut back to the id: the second split stops at that "&". */
  lemma IdBeforeAmpersand(id: string, s: string)
    requires !Contains(id, "&") && !Contains(id, "v=")
    requires |s| > 0 && s[0] == '&'
    ensures Split(Split(id + s, "v=")[0], "&")[0] == id
  {
    var head := Split(id + s, "v=")[0];
    SplitHeadPast(id, s, "v=");
    assert !OccursAt(id + s, "v=", |id|) by { assert (id + s)[|id|] == '&'; }
    assert id + "&" <= head;
    var t := head[|id|..];
    assert head == id + t;
    SplitHeadPast(id, t, "&");
    assert OccursAt(head, "&", |id|) by { assert head[|id|..|id| + 1] == "&"; }
  }

  /** An id followed by another "v=" is cut back to the id by the first split already. */
  lemma IdBeforeMarker(id: string, s: string)
    requires !Contains(id, "&") && !Contains(id, "v=")
    requires |s| >= 2 && s[..2] == "v="
    ensures Split(Split(id + s, "v=")[0], "&")[0] == id
  {
    SplitHeadPast(id, s, "v=");
    assert OccursAt(id + s, "v=", |id|) by { assert (id + s)[|id|..|id| + 2] == s[..2]; }
    SplitWithoutSep(id, "&");
  }

  /** An id that ends the link is kept whole. */
  lemma IdAtEnd(id: string)
    requires !Contains(id, "&") && !Contains(id, "v=")
    ensures Split(Split(id, "v=")[0], "&")[0] == id
  {
    SplitWithoutSep(id, "v=");
    SplitWithoutSep(id, "&");
  }

  /**
   * A link of the form `p + "v=" + id + s` yields exactly `id`, when `p` holds
   * no "v=", `id` holds neither "&" nor "v=", and `s` is empty or starts the
   * next parameter with "&" (or repeats "v=").
   */
  lemma VideoIdOfWellFormed(p: string, id: string, s: string)
    requires !Contains(p, "v=")
    requires !Contains(id, "&") && !Contains(id, "v=")
    requires s == [] || s[0] == '&' || (|s| >= 2 && s[..2] == "v=")
    ensures VideoId(p + "v=" + id + s) == Some(id)
  {
    assert p + "v=" + id + s == p + ("v=" + (id + s));
    SecondPieceAfterMarker(p, id + s);
    if s == [] {
      assert id + s == id;
      IdAtEnd(id);
    } else if s[0] == '&' {
      IdBeforeAmpersand(id, s);
    } else {
      IdBeforeMarker(id, s);
    }
  }

  /** "v=" is also found inside a longer parameter name: the id of "?dev=1&v=abc" is "1". */
  lemma VideoIdMatchesInsideLongerName()
    ensures VideoId("?dev=1&v=abc") == Some("1")
  {
    forall j: nat ensures !OccursAt("?de", "v=", j) {
      if j < 3 { assert "?de"[j] != 'v'; }
    }
    forall j: nat ensures !OccursAt("1", "v=", j) && !OccursAt("1", "&", j) {
      if j == 0 { assert "1"[0..1] == "1"; }
    }
    assert "?de" + "v=" + "1" + "&v=abc" == "?dev=1&v=abc";
    VideoIdOfWellFormed("?de", "1", "&v=abc");
  }

  /** One caption chunk returned by the transcript service. */
  datatype Segment = Segment(text: string)

  /** What listing a video's transcripts returns: the segments of each transcript, by language code. */
  type Tracks = map<string, seq<Segment>>

  /** The languages tried, in order: English, then Hindi. */
  const FallbackOrder: seq<string> := ["en", "hi"]

  /** The position of the first preferred language that is available. */
  function FirstAvailable(prefs: seq<string>, available: set<string>): (r: Option<nat>)
    ensures r.Some? ==> r.value < |prefs| && prefs[r.value] in available
    ensures r.Some? ==> forall j :: 0 <= j < r.value ==> prefs[j] !in available
    ensures r.None? <==> forall j :: 0 <= j < |prefs| ==> prefs[j] !in available
  {
    if prefs == [] then None
    else if prefs[0] in available then Some(0)
    else
      match FirstAvailable(prefs[1..], available)
      case None => None
      case Some(k) => Some(k + 1)
  }

  /** The outcome of the language choice: a language, and whether it was a fallback. */
  datatype Selection = Selected(language: string, fallback: bool) | NoneSuitable

  /** Try English, then Hindi (a fallback), and give up if neither is available. */
  function SelectLanguage(available: set<string>): (sel: Selection)
    ensures "en" in available ==> sel == Selected("en", false)
    ensures "en" !in available && "hi" in available ==> sel == Selected("hi", true)
    ensures "en" !in available && "hi" !in available ==> sel == NoneSuitable
  {
    match FirstAvailable(FallbackOrder, available)
    case None =>
      assert FallbackOrder[0] == "en" && FallbackOrder[1] == "hi";
      NoneSuitable
    case Some(k) => Selected(FallbackOrder[k], k > 0)
  }

  /** The `text` field of each segment, in order. */
  function Texts(segments: seq<Segment>): (texts: seq<string>)
    ensures |texts| == |segments|
    ensures forall k :: 0 <= k < |segments| ==> texts[k] == segments[k].text
  {
    seq(|segments|, k requires 0 <= k < |segments| => segments[k].text)
  }

  /** What one call reports: the id it asked the service for, the language it used, the text and the messages. */
  datatype TranscriptOutcome = TranscriptOutcome(
    requested: Option<string>,
    language: Option<string>,
    text: Option<string>,
    messages: seq<Message>)

  /** `extract_transcript_details`, with the transcript service as `listTranscripts` (`None`: the listing raised). */
  function ExtractTranscript(url: string, listTranscripts: string -> Option<Tracks>): (r: TranscriptOutcome)
    ensures r.requested == VideoId(url)
    ensures r.text.Some? <==> r.language.Some?
    ensures r.text.Some? ==> r.requested.Some? && listTranscripts(r.requested.value).Some?
    ensures r.text.Some? ==>
      var tracks := listTranscripts(r.requested.value).value;
      && r.language.value in tracks
      && r.text.value == Join(" ", Texts(tracks[r.language.value]))
    ensures r.text.Some? ==> r.messages == if r.language.value == "en" then [] else [Warning(FallbackLanguageUsed)]
    ensures r.text.None? ==> |r.messages| == 1 && r.messages[0].Error?
    ensures r.requested.None? ==> r.messages == [Error(MalformedUrl)]
    ensures r.requested.Some? && listTranscripts(r.requested.value).None? ==> r.messages == [Error(ProviderUnavailable)]
    ensures r.requested.Some? && listTranscripts(r.requested.value).Some? ==>
      var sel := SelectLanguage(listTranscripts(r.requested.value).value.Keys);
      && (r.language.Some? <==> sel.Selected?)
      && (r.language.Some? ==> r.language.value == sel.language)
      && (sel.NoneSuitable? ==> r.messages == [Error(NoTranscriptFound)])
  {
    match VideoId(url)
    case None => TranscriptOutcome(None, None, None, [Error(MalformedUrl)])
    case Some(id) =>
      match listTranscripts(id)
      case None => TranscriptOutcome(Some(id), None, None, [Error(ProviderUnavailable)])
      case Some(tracks) =>
        match SelectLanguage(tracks.Keys)
        case NoneSuitable => TranscriptOutcome(Some(id), None, None, [Error(NoTranscriptFound)])
        case Selected(lang, fallback) =>
          var text := Join(" ", Texts(tracks[lang]));
          TranscriptOutcome(Some(id), Some(lang), Some(text), if fallback then [Warning(FallbackLanguageUsed)] else [])
  }

  /** A link without "v=" is reported as malformed, and no transcript is asked for. */
  lemma MalformedLinkRequestsNothing(url: string, listTranscripts: string -> Option<Tracks>)
    requires !Contains(url, "v=")
    ensures var r := ExtractTranscript(url, listTranscripts);
      r.requested.None? && r.text.None? && r.messages == [Error(MalformedUrl)]
  {
  }

  /** When English is available it is used, with no warning. */
  lemma EnglishPreferred(url: string, listTranscripts: string -> Option<Tracks>, tracks: Tracks)
    requires VideoId(url).Some? && listTranscripts(VideoId(url).value) == Some(tracks)
    requires "en" in tracks
    ensures var r := ExtractTranscript(url, listTranscripts);
      && r.language == Some("en")
      && r.text == Some(Join(" ", Texts(tracks["en"])))
      && Warnings(r.messages) == []
  {
  }

  /** When English is missing and Hindi is present, Hindi is used with exactly one warning. */
  lemma HindiFallback(url: string, listTranscripts: string -> Option<Tracks>, tracks: Tracks)
    requires VideoId(url).Some? && listTranscripts(VideoId(url).value) == Some(tracks)
    requires "en" !in tracks && "hi" in tracks
    ensures var r := ExtractTranscript(url, listTranscripts);
      && r.language == Some("hi")
      && r.text == Some(Join(" ", Texts(tracks["hi"])))
      && r.messages == [Warning(FallbackLanguageUsed)]
      && |Warnings(r.messages)| == 1
  {
    assert Warnings([Warning(FallbackLanguageUsed)]) == [Warning(FallbackLanguageUsed)];
  }

  /** With neither English nor Hindi, no text is produced and "no suitable transcript" is reported. */
  lemma NoSuitableTranscript(url: string, listTranscripts: string -> Option<Tracks>, tracks: Tracks)
    requires VideoId(url).Some? && listTranscripts(VideoId(url).value) == Some(tracks)
    requires "en" !in tracks && "hi" !in tracks
    ensures var r := ExtractTranscript(url, listTranscripts);
      r.language.None? && r.text.None? && r.messages == [Error(NoTranscriptFound)]
  {
  }

  /** Segment texts ["a", "b", "c"] give "a b c". */
  lemma SegmentsJoinExample()
    ensures Join(" ", Texts([Segment("a"), Segment("b"), Segment("c")])) == "a b c"
  {
    assert Texts([Segment("a"), Segment("b"), Segment("c")]) == ["a", "b", "c"];
  }
}
