/** Stream extraction: the watch page of one episode yields its title, the
    `src` of the first embedded player and the download links; a page
    without a player URL is an error, not an empty record. */
module Stream {
  import opened Wrappers
  import opened Text
  import opened Page

  /** One `.download ul li` row: the text of its `strong` (empty when
      absent, not yet trimmed) and the `href` of its first `a`. */
  datatype DownloadRow = DownloadRow(strongText: string, anchorHref: Option<string>)

  /** What a watch page offers: the text of `.venutama h1`, the `src` of the
      first `.responsive-embed-stream iframe`, and the download rows. */
  datatype EpisodePage = EpisodePage(
    headingText: string,
    iframeSrc: Option<string>,
    downloadRows: seq<Node<DownloadRow>>)

  /** One emitted download link. */
  datatype DownloadLink = DownloadLink(quality: string, url: string)

  /** The emitted stream record. */
  datatype EpisodeStream = EpisodeStream(
    title: string,
    streamUrl: string,
    downloadLinks: seq<DownloadLink>,
    episodeSlug: string)

  /** The message of the error raised when the page has no player URL. */
  const StreamUrlMissing: string := "Stream URL not found"

  /** One download row: kept when its trimmed quality label and its link are
      both non-empty. The quality is trimmed, the link is kept verbatim. */
  function DownloadStep(row: DownloadRow): (r: Option<DownloadLink>)
    ensures r.Some? <==> Trim(row.strongText) != "" && HasText(row.anchorHref)
    ensures r.Some? ==> r.value.quality != "" && r.value.url != ""
    ensures r.Some? ==> r.value.quality == Trim(row.strongText) && Some(r.value.url) == row.anchorHref
  {
    var quality := Trim(row.strongText);
    if quality != "" && HasText(row.anchorHref) then Some(DownloadLink(quality, row.anchorHref.value))
    else None
  }

  /** The download links of the rows, in document order; each has a quality
      and a URL. */
  function DownloadLinks(rows: seq<DownloadRow>): (r: seq<DownloadLink>)
    ensures |r| <= |rows|
    ensures forall k :: 0 <= k < |r| ==> r[k].quality != "" && r[k].url != ""
  {
    KeepSources(rows, DownloadStep);
    Keep(rows, DownloadStep)
  }

  /** The stream record of a watch page. A missing or empty player URL
      raises `Stream URL not found` before any row is read; otherwise the
      row loop, which has no `try`, fails with the message of the first row
      that throws. */
  function ExtractStream(page: EpisodePage, episodeSlug: string): (r: Result<EpisodeStream, string>)
    ensures r.Success? <==> HasText(page.iframeSrc)
                            && forall i :: 0 <= i < |page.downloadRows| ==> page.downloadRows[i].Readable?
    ensures !HasText(page.iframeSrc) ==> r == Failure(StreamUrlMissing)
    ensures HasText(page.iframeSrc) && r.Failure? ==>
              exists i :: 0 <= i < |page.downloadRows| && page.downloadRows[i] == Broken(r.error)
                          && forall j :: 0 <= j < i ==> page.downloadRows[j].Readable?
    ensures r.Success? ==> Some(r.value.streamUrl) == page.iframeSrc && r.value.streamUrl != ""
    ensures r.Success? ==> r.value.episodeSlug == episodeSlug && r.value.title == Trim(page.headingText)
    ensures r.Success? ==> forall k :: 0 <= k < |r.value.downloadLinks| ==>
                             r.value.downloadLinks[k].quality != "" && r.value.downloadLinks[k].url != ""
  {
    if !HasText(page.iframeSrc) then Failure(StreamUrlMissing)
    else
      match ReadAll(page.downloadRows)
      case Failure(why) => Failure(why)
      case Success(rows) =>
        Success(EpisodeStream(Trim(page.headingText), page.iframeSrc.value, DownloadLinks(rows), episodeSlug))
  }

  /** The download links are the order-preserving subsequence of the rows
      that have both a quality and a link. */
  lemma StreamLinksInOrder(page: EpisodePage, episodeSlug: string) returns (idx: seq<nat>)
    requires ExtractStream(page, episodeSlug).Success?
    ensures ReadAll(page.downloadRows).Success?
    ensures Selects(ReadAll(page.downloadRows).value, DownloadStep,
                    ExtractStream(page, episodeSlug).value.downloadLinks, idx)
  {
    idx := KeepSelects(ReadAll(page.downloadRows).value, DownloadStep);
  }
}
