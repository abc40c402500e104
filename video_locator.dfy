/**
 * Resolution of the active tab to the video URL sent to the transcript
 * service (`getVideoUrl` in src/popup.js). The in-page search for a YouTube
 * iframe is not modelled; its answer arrives as the `probe` argument, with
 * `None` when the search finds no player.
 */
module VideoLocator {
  import opened Wrappers
  import opened JsString

  /** The three substrings that mark a tab already showing a video. */
  const WatchMarker := "youtube.com/watch?v="
  const ShortsMarker := "youtube.com/shorts"
  const ShortLinkMarker := "youtu.be/"

  /** The separator the embed source is split on, and the one that ends the id. */
  const Embed := "embed/"
  const Query := "?"

  /** The canonical URL an embedded video id is turned into. */
  const WatchPrefix := "https://www.youtube.com/watch?v="

  /**
   * The tab URL is accepted as it is: it contains one of the three markers,
   * so it is at least as long as the shortest of them, `youtu.be/`.
   */
  predicate IsDirect(url: string)
    ensures IsDirect(url) ==> |url| >= |ShortLinkMarker|
  {
    Includes(url, WatchMarker) || Includes(url, ShortsMarker) || Includes(url, ShortLinkMarker)
  }

  /**
   * `src.split('embed/')[1]?.split('?')[0]`: the text between the first
   * `embed/` and the next one, cut at its first `?`; `None` when `src` has no
   * `embed/` (the optional chain yields `undefined`).
   */
  function EmbedVideoId(src: string): (id: Option<string>)
    ensures id.None? <==> !Includes(src, Embed)
    ensures id.Some? ==> !Includes(id.value, Query) && !Includes(id.value, Embed)
  {
    CutBetween(src, Embed, Query)
  }

  /**
   * `getVideoUrl(tab)` with the probe's answer given: a missing tab URL reads
   * as `''`; a direct video URL is returned as it is; otherwise a non-empty
   * probe result yields the watch URL of its embedded id when that id is
   * non-empty, and every other case yields `None` (JavaScript's `null`).
   */
  function Resolve(tabUrl: Option<string>, probe: Option<string>): (r: Option<string>)
    ensures r.Some? ==> r.value != ""
    ensures IsDirect(tabUrl.GetOr("")) ==> r == Some(tabUrl.GetOr(""))
    ensures !IsDirect(tabUrl.GetOr("")) ==>
      (r.Some? <==> probe.Some? && EmbedVideoId(probe.value).Some? && EmbedVideoId(probe.value).value != "")
    ensures !IsDirect(tabUrl.GetOr("")) && r.Some? ==>
      r.value == WatchPrefix + EmbedVideoId(probe.value).value
  {
    var url := tabUrl.GetOr("");
    if IsDirect(url) then
      Some(url)
    else if probe.Some? && probe.value != "" then
      match EmbedVideoId(probe.value)
      case Some(id) => if id != "" then Some(WatchPrefix + id) else None
      case None => None
    else
      None
  }

  /** `embed/` cannot overlap itself and does not contain `?`. */
  lemma EmbedSeparators()
    ensures NoBorder(Embed) && |Query| == 1 && Query[0] !in Embed
  {
    forall d | 0 < d < |Embed| ensures Embed[d..] != Embed[..|Embed| - d] {
      if d == 3 {
        assert Embed[d..][1] != Embed[..|Embed| - d][1];
      } else {
        assert Embed[d..][0] != Embed[..|Embed| - d][0];
      }
    }
  }

  /**
   * A source made of a prefix without `embed/`, then `embed/`,
   * then an id free of `?` and `embed/`, then the end, a `?` or another
   * `embed/`, yields exactly that id.
   */
  lemma EmbedVideoIdOf(pre: string, id: string, tail: string)
    requires !Includes(pre, Embed)
    requires !Includes(id, Embed) && !Includes(id, Query)
    requires tail == [] || OccursAt(tail, Query, 0) || OccursAt(tail, Embed, 0)
    ensures EmbedVideoId(pre + Embed + id + tail) == Some(id)
  {
    EmbedSeparators();
    CutBetweenOf(pre, id, tail, Embed, Query);
  }

  /** A tab showing an embedded player resolves to the watch URL of the player's id. */
  lemma ResolveEmbedded(tabUrl: Option<string>, pre: string, id: string, tail: string)
    requires !IsDirect(tabUrl.GetOr(""))
    requires !Includes(pre, Embed)
    requires id != "" && !Includes(id, Embed) && !Includes(id, Query)
    requires tail == [] || OccursAt(tail, Query, 0) || OccursAt(tail, Embed, 0)
    ensures Resolve(tabUrl, Some(pre + Embed + id + tail)) == Some(WatchPrefix + id)
  {
    EmbedVideoIdOf(pre, id, tail);
  }

  /** A URL with the watch marker in it is a direct video URL. */
  lemma DirectWithWatchMarker(host: string, rest: string)
    ensures IsDirect(host + WatchMarker + rest)
  {
    IncludesMiddle(host, WatchMarker, rest);
  }

  /** The watch page of the example video resolves to its own URL, whatever the probe would say. */
  lemma ResolveWatchPage(url: string, probe: Option<string>)
    requires url == "https://www.youtube.com/watch?v=abc123"
    ensures Resolve(Some(url), probe) == Some(url)
  {
    ExampleWatchUrl(url);
    DirectWithWatchMarker("https://www.", "abc123");
  }

  /** The example watch URL carries the watch marker after its host. */
  lemma ExampleWatchUrl(url: string)
    requires url == "https://www.youtube.com/watch?v=abc123"
    ensures url == "https://www." + WatchMarker + "abc123"
  {
  }

  /** All three markers contain a `y`, so a URL without one is not a direct video URL. */
  lemma NotDirectWithoutY(url: string)
    requires 'y' !in url
    ensures !IsDirect(url)
  {
    ExcludedByChar(url, WatchMarker, 0);
    ExcludedByChar(url, ShortsMarker, 0);
    ExcludedByChar(url, ShortLinkMarker, 0);
  }

  /** The pieces of the example embed source have the shape the extraction expects. */
  lemma ExampleEmbedPieces(pre: string, id: string, tail: string)
    requires pre == "https://www.youtube.com/" && id == "xyz789" && tail == "?foo=bar"
    ensures !Includes(pre, Embed) && !Includes(id, Embed) && !Includes(id, Query)
    ensures OccursAt(tail, Query, 0)
  {
    ExcludedByChar(pre, Embed, 4);
    ExcludedByChar(id, Embed, 0);
    ExcludedByChar(id, Query, 0);
  }

  /** The example embed source is made of those pieces around `embed/`. */
  lemma ExampleEmbedSource(src: string, pre: string, id: string, tail: string)
    requires src == "https://www.youtube.com/embed/xyz789?foo=bar"
    requires pre == "https://www.youtube.com/" && id == "xyz789" && tail == "?foo=bar"
    ensures src == pre + Embed + id + tail
  {
  }

  /** A page embedding a player resolves through the probe's iframe source. */
  lemma ResolveEmbeddingPage(url: string, src: string)
    requires url == "https://example.com/embed-host"
    requires src == "https://www.youtube.com/embed/xyz789?foo=bar"
    ensures Resolve(Some(url), Some(src)) == Some(WatchPrefix + "xyz789")
  {
    var pre, id, tail := "https://www.youtube.com/", "xyz789", "?foo=bar";
    NotDirectWithoutY(url);
    ExampleEmbedPieces(pre, id, tail);
    ExampleEmbedSource(src, pre, id, tail);
    ResolveEmbedded(Some(url), pre, id, tail);
  }

  /** A page with neither a video URL nor an answer from the probe resolves to nothing. */
  lemma ResolveOtherPage(url: string)
    requires url == "https://example.com/page"
    ensures Resolve(Some(url), None) == None
  {
    NotDirectWithoutY(url);
  }
}
