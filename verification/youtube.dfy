/** The home page's promotional video URL (`HomePageConfig` in
    `despacho_django/proyectos/models.py`): common YouTube link shapes are rewritten to the
    embeddable form, anything else is kept as typed. */
module YouTube {
  import opened Wrappers
  import opened Text

  const EMBED_PREFIX := "https://www.youtube.com/embed/"
  const EMBED_MARKER := "youtube.com/embed/"
  const SHORT_MARKER := "youtu.be/"
  const WATCH_MARKER := "youtube.com/watch"
  const VIDEO_PARAM := "v="

  /** The id in a short link: the text after the first `youtu.be/`, up to the first `?`
      and then up to the first `&`. */
  function ShortLinkId(raw: string): (id: string)
    requires Contains(raw, SHORT_MARKER)
    ensures '?' !in id && '&' !in id
    ensures var rest := After(raw, SHORT_MARKER).value;
      |id| <= |rest| && id == rest[..|id|] && ('?' !in rest && '&' !in rest ==> id == rest)
    ensures var rest := After(raw, SHORT_MARKER).value;
      |id| == |rest| || rest[|id|] == '?' || rest[|id|] == '&'
  {
    var rest := After(raw, SHORT_MARKER).value;
    var id := Before(Before(rest, "?"), "&");
    ContainsChar(Before(rest, "?"), '?');
    ContainsChar(id, '&');
    ContainsChar(id, '?');
    ContainsChar(rest, '?');
    ContainsChar(Before(rest, "?"), '&');
    assert forall c :: c in id ==> c in Before(rest, "?");
    id
  }

  /** The id in a watch link: the text after the first `v=`, up to the first `&`. */
  function WatchId(raw: string): (id: string)
    requires Contains(raw, VIDEO_PARAM)
    ensures '&' !in id
    ensures var rest := After(raw, VIDEO_PARAM).value;
      |id| <= |rest| && id == rest[..|id|] && ('&' !in rest ==> id == rest)
    ensures var rest := After(raw, VIDEO_PARAM).value;
      |id| == |rest| || rest[|id|] == '&'
  {
    var rest := After(raw, VIDEO_PARAM).value;
    var id := Before(rest, "&");
    ContainsChar(id, '&');
    ContainsChar(rest, '&');
    id
  }

  /** The id `_youtube_embed` extracts from a trimmed, non-embed URL, or "" when none: the
      short-link form takes precedence over the watch form. */
  function VideoId(raw: string): (id: string)
    ensures Contains(raw, SHORT_MARKER) ==> id == ShortLinkId(raw)
    ensures !Contains(raw, SHORT_MARKER) && Contains(raw, WATCH_MARKER) && Contains(raw, VIDEO_PARAM) ==>
      id == WatchId(raw)
    ensures !Contains(raw, SHORT_MARKER) && !(Contains(raw, WATCH_MARKER) && Contains(raw, VIDEO_PARAM)) ==> id == ""
  {
    if Contains(raw, SHORT_MARKER) then ShortLinkId(raw)
    else if Contains(raw, WATCH_MARKER) && Contains(raw, VIDEO_PARAM) then WatchId(raw)
    else ""
  }

  /** `HomePageConfig._youtube_embed(url)`; `None` is Python's `None`. */
  function YouTubeEmbed(url: Option<string>): (r: string)
    ensures var raw := Strip(Py, url.GetOr(""));
      && (r == "" <==> raw == "")
      && (raw != "" && Contains(raw, EMBED_MARKER) ==> r == raw)
      && (raw != "" && !Contains(raw, EMBED_MARKER) && VideoId(raw) != "" ==> r == EMBED_PREFIX + VideoId(raw))
      && (raw != "" && !Contains(raw, EMBED_MARKER) && VideoId(raw) == "" ==> r == raw)
  {
    var raw := Strip(Py, url.GetOr(""));
    if raw == "" then ""
    else if Contains(raw, EMBED_MARKER) then raw
    else
      var id := VideoId(raw);
      if id != "" then EMBED_PREFIX + id else raw
  }

  /** The home page configuration; only the video URL matters here. */
  datatype HomePageConfig = HomePageConfig(carconVideoUrl: string)

  /** `carcon_video_embed_url`: blank exactly when the stored URL is blank. */
  function CarconVideoEmbedUrl(config: HomePageConfig): (r: string)
    ensures r == "" <==> AllSpace(Py, config.carconVideoUrl)
    ensures Contains(Strip(Py, config.carconVideoUrl), EMBED_MARKER) ==> r == Strip(Py, config.carconVideoUrl)
  {
    YouTubeEmbed(Some(config.carconVideoUrl))
  }

  /** Every embed URL the rewriter builds contains the marker that makes it pass through
      unchanged next time. */
  lemma EmbedPrefixHasMarker(id: string)
    ensures Contains(EMBED_PREFIX + id, EMBED_MARKER)
  {
    var s := EMBED_PREFIX + id;
    assert s[12..30] == EMBED_PREFIX[12..30];
    assert OccursAt(s, EMBED_MARKER, 12);
  }

  /** Rewriting is idempotent whenever its output has no whitespace at the ends: embed URLs
      and pass-through values come back unchanged. */
  lemma EmbedIdempotent(url: Option<string>)
    requires IsStripped(Py, YouTubeEmbed(url))
    ensures YouTubeEmbed(Some(YouTubeEmbed(url))) == YouTubeEmbed(url)
  {
    var r := YouTubeEmbed(url);
    var raw := Strip(Py, url.GetOr(""));
    StripStripped(Py, r);
    StripIdempotent(Py, url.GetOr(""));
    if r != "" && r != raw {
      EmbedPrefixHasMarker(VideoId(raw));
    }
  }

  /** The output has no whitespace at its ends when the input has no whitespace at all,
      which a URL field's value never has. */
  lemma EmbedStrippedWithoutSpaces(url: string)
    requires NoSpace(Py, url)
    ensures IsStripped(Py, YouTubeEmbed(Some(url)))
  {
    StripStripped(Py, url);
    var r := YouTubeEmbed(Some(url));
    if r != "" && r != url {
      IdHasNoSpace(url);
      EmbedUrlStripped(VideoId(url));
    }
  }

  lemma EmbedUrlStripped(id: string)
    requires id != "" && NoSpace(Py, id)
    ensures IsStripped(Py, EMBED_PREFIX + id)
  {
    var r := EMBED_PREFIX + id;
    assert r[0] == 'h';
    assert r[|r| - 1] == id[|id| - 1];
  }

  /** A prefix of what follows a separator is a piece of the input, so it inherits the
      input's lack of whitespace. */
  lemma PieceHasNoSpace(raw: string, sep: string, id: string)
    requires NoSpace(Py, raw) && After(raw, sep).Some?
    requires |id| <= |After(raw, sep).value| && id == After(raw, sep).value[..|id|]
    ensures NoSpace(Py, id)
  {
    var j :| OccursAt(raw, sep, j) && After(raw, sep).value == raw[j + |sep|..];
    forall k | 0 <= k < |id|
      ensures !IsSpace(Py, id[k])
    {
      assert id[k] == raw[j + |sep| + k];
    }
  }

  /** An extracted id is a piece of the input, so it inherits the input's lack of whitespace. */
  lemma IdHasNoSpace(raw: string)
    requires NoSpace(Py, raw)
    ensures NoSpace(Py, VideoId(raw))
  {
    if Contains(raw, SHORT_MARKER) {
      PieceHasNoSpace(raw, SHORT_MARKER, ShortLinkId(raw));
    } else if Contains(raw, WATCH_MARKER) && Contains(raw, VIDEO_PARAM) {
      PieceHasNoSpace(raw, VIDEO_PARAM, WatchId(raw));
    }
  }

  /** A short link whose id is followed by a space before the query string is not a fixed
      point: the first pass keeps the space, the second trims it away. */
  lemma EmbedNotIdempotentOnInnerSpace()
    ensures YouTubeEmbed(Some("youtu.be/abc ?t=1")) == EMBED_PREFIX + "abc "
    ensures YouTubeEmbed(Some(EMBED_PREFIX + "abc ")) == EMBED_PREFIX + "abc"
  {
    ShortLinkKeepsSpace();
    EmbedTrimsSpace();
  }

  lemma ShortLinkKeepsSpace()
    ensures YouTubeEmbed(Some("youtu.be/abc ?t=1")) == EMBED_PREFIX + "abc "
  {
    var u := "youtu.be/abc ?t=1";
    assert IsStripped(Py, u);
    StripStripped(Py, u);
    ShortExampleId(u);
  }

  /** The example is a short link, not an embed link, and its id keeps the space. */
  lemma ShortExampleId(u: string)
    requires u == "youtu.be/abc ?t=1"
    ensures !Contains(u, EMBED_MARKER)
    ensures VideoId(u) == "abc "
  {
    assert |u| < |EMBED_MARKER|;
    ShortMarkerAtStart(u);
    ShortIdOfExample();
  }

  lemma ShortIdOfExample()
    ensures ShortLinkId("youtu.be/abc ?t=1") == "abc "
  {
    var u := "youtu.be/abc ?t=1";
    ShortMarkerAtStart(u);
    var rest := After(u, SHORT_MARKER).value;
    assert rest == "abc ?t=1";
    FirstQuestionMark(rest);
    assert Before(rest, "?") == "abc ";
    NoAmpersand("abc ");
  }

  lemma ShortMarkerAtStart(u: string)
    requires u == "youtu.be/abc ?t=1"
    ensures After(u, SHORT_MARKER) == Some("abc ?t=1")
  {
    assert OccursAt(u, SHORT_MARKER, 0);
    assert IndexOf(u, SHORT_MARKER) == Some(0);
    assert u[9..] == "abc ?t=1";
  }

  lemma NoAmpersand(s: string)
    requires s == "abc "
    ensures Before(s, "&") == s
  {
    ContainsChar(s, '&');
  }

  lemma FirstQuestionMark(rest: string)
    requires rest == "abc ?t=1"
    ensures IndexOf(rest, "?") == Some(4)
    ensures Before(rest, "?") == "abc "
  {
    assert OccursAt(rest, "?", 4);
    forall j | 0 <= j < 4
      ensures !OccursAt(rest, "?", j)
    {
      assert rest[j..j + 1][0] == rest[j];
    }
    assert rest[..4] == "abc ";
  }

  lemma EmbedTrimsSpace()
    ensures YouTubeEmbed(Some(EMBED_PREFIX + "abc ")) == EMBED_PREFIX + "abc"
  {
    var e := EMBED_PREFIX + "abc ";
    var t := EMBED_PREFIX + "abc";
    StripExample(e, t);
    EmbedPrefixHasMarker("abc");
  }

  lemma StripExample(e: string, t: string)
    requires e == EMBED_PREFIX + "abc " && t == EMBED_PREFIX + "abc"
    ensures Strip(Py, e) == t
  {
    assert e == t + " ";
    assert e[..|e| - 1] == t;
    assert TrailingSpace(Py, t) == |t|;
    assert TrailingSpace(Py, e) == |t|;
    assert LeadingSpace(Py, e) == 0;
  }
}
