/** The five routes, each from the fetched page to the reply it sends: the
    extracted records on success, or the error body with its status. The
    fetch itself is a parameter: it yields the parsed page of a URL or the
    message of the error it raised. */
module Api {
  import opened Wrappers
  import opened Text
  import opened Page
  import Site
  import Listing
  import Search
  import Detail
  import Stream

  /** A reply: the JSON body of a 200, or an error status with the error
      message, the caught error's message when the route reports it, and
      the request parameter the route echoes, as a name and a value. */
  datatype Reply<T> =
    | Json(body: T)
    | Fail(status: nat, error: string, details: Option<string>, echo: Option<(string, string)>)

  /** The status of a rejected request. */
  const BadRequest: nat := 400

  /** The status of a route whose fetch or extraction raised. */
  const ServerError: nat := 500

  const TopAiringFailed: string := "Failed to fetch top airing anime"
  const RecentFailed: string := "Failed to fetch recent anime"
  const QueryRequired: string := "Search query is required"
  const SearchFailed: string := "Failed to search anime"
  const DetailsFailed: string := "Failed to fetch anime details"
  const StreamFailed: string := "Failed to fetch episode stream"

  /** A listing route: fetch the listing page, then extract it; only the
      fetch can fail, since each item is guarded by its own `try`. */
  function ListingRoute(url: string, message: string,
                        fetch: string -> Result<seq<Node<Listing.ListingItem>>, string>)
    : (r: Reply<seq<Listing.ListingEntry>>)
    ensures r.Json? <==> fetch(url).Success?
    ensures r.Json? ==> r.body == Listing.ExtractListing(fetch(url).value)
    ensures r.Fail? ==> r == Fail(ServerError, message, Some(fetch(url).error), None)
  {
    match fetch(url)
    case Failure(why) => Fail(ServerError, message, Some(why), None)
    case Success(items) => Json(Listing.ExtractListing(items))
  }

  /** `GET /api/top-airing`: the listing of the ongoing series. */
  function TopAiring(fetch: string -> Result<seq<Node<Listing.ListingItem>>, string>)
    : (r: Reply<seq<Listing.ListingEntry>>)
    ensures r.Json? <==> fetch(Site.OngoingUrl).Success?
    ensures r.Fail? ==> r.status == ServerError && r.error == TopAiringFailed
  {
    ListingRoute(Site.OngoingUrl, TopAiringFailed, fetch)
  }

  /** `GET /api/recent-anime`: the listing of the completed series. */
  function RecentAnime(fetch: string -> Result<seq<Node<Listing.ListingItem>>, string>)
    : (r: Reply<seq<Listing.ListingEntry>>)
    ensures r.Json? <==> fetch(Site.CompleteUrl).Success?
    ensures r.Fail? ==> r.status == ServerError && r.error == RecentFailed
  {
    ListingRoute(Site.CompleteUrl, RecentFailed, fetch)
  }

  /** `GET /api/search?q=…`: a missing or empty query is answered with 400
      before anything is fetched; otherwise the results page of the encoded
      query is fetched and extracted, and a failed fetch is answered with 500
      and the raw query echoed as `searchTerm`. `encode` stands for
      `encodeURIComponent`. */
  function SearchAnime(q: Option<string>, encode: string -> string,
                       fetch: string -> Result<seq<Node<Search.SearchItem>>, string>)
    : (r: Reply<seq<Search.SearchEntry>>)
    ensures !HasText(q) ==> r == Fail(BadRequest, QueryRequired, None, None)
    ensures HasText(q) ==> (r.Json? <==> fetch(Site.SearchUrl(encode(q.value))).Success?)
    ensures HasText(q) && r.Json? ==> r.body == Search.ExtractSearch(fetch(Site.SearchUrl(encode(q.value))).value)
    ensures HasText(q) && r.Fail? ==>
              r == Fail(ServerError, SearchFailed, Some(fetch(Site.SearchUrl(encode(q.value))).error),
                        Some(("searchTerm", q.value)))
  {
    if !HasText(q) then Fail(BadRequest, QueryRequired, None, None)
    else
      match fetch(Site.SearchUrl(encode(q.value)))
      case Failure(why) => Fail(ServerError, SearchFailed, Some(why), Some(("searchTerm", q.value)))
      case Success(items) => Json(Search.ExtractSearch(items))
  }

  /** `GET /api/anime/:slug`: the detail page of the slug, fetched and
      extracted; a failed fetch and a failed extraction are both answered
      with 500 and the slug echoed. */
  function AnimeDetails(slug: string, fetch: string -> Result<Detail.DetailPage, string>)
    : (r: Reply<Detail.AnimeDetail>)
    ensures r.Json? <==> fetch(Site.AnimeUrl(slug)).Success?
                         && Detail.ExtractDetail(fetch(Site.AnimeUrl(slug)).value).Success?
    ensures r.Json? ==> r.body == Detail.ExtractDetail(fetch(Site.AnimeUrl(slug)).value).value
    ensures r.Fail? ==> r.status == ServerError && r.error == DetailsFailed
                        && r.echo == Some(("slug", slug))
    ensures r.Fail? ==> r.details == Some(if fetch(Site.AnimeUrl(slug)).Failure?
                                          then fetch(Site.AnimeUrl(slug)).error
                                          else Detail.ExtractDetail(fetch(Site.AnimeUrl(slug)).value).error)
  {
    match fetch(Site.AnimeUrl(slug))
    case Failure(why) => Fail(ServerError, DetailsFailed, Some(why), Some(("slug", slug)))
    case Success(page) =>
      match Detail.ExtractDetail(page)
      case Failure(why) => Fail(ServerError, DetailsFailed, Some(why), Some(("slug", slug)))
      case Success(d) => Json(d)
  }

  /** `GET /api/episode/:episodeSlug`: the watch page of the episode,
      fetched and extracted; a failed fetch and a failed extraction, a
      missing player URL included, are answered with 500 and the episode
      slug echoed. */
  function EpisodeStreamRoute(episodeSlug: string, fetch: string -> Result<Stream.EpisodePage, string>)
    : (r: Reply<Stream.EpisodeStream>)
    ensures r.Json? <==> fetch(Site.EpisodeUrl(episodeSlug)).Success?
                         && Stream.ExtractStream(fetch(Site.EpisodeUrl(episodeSlug)).value, episodeSlug).Success?
    ensures r.Json? ==> r.body == Stream.ExtractStream(fetch(Site.EpisodeUrl(episodeSlug)).value, episodeSlug).value
    ensures r.Json? ==> r.body.episodeSlug == episodeSlug && r.body.streamUrl != ""
    ensures r.Fail? ==> r.status == ServerError && r.error == StreamFailed
                        && r.echo == Some(("episodeSlug", episodeSlug))
    ensures r.Fail? ==> r.details == Some(if fetch(Site.EpisodeUrl(episodeSlug)).Failure?
                                          then fetch(Site.EpisodeUrl(episodeSlug)).error
                                          else Stream.ExtractStream(fetch(Site.EpisodeUrl(episodeSlug)).value, episodeSlug).error)
  {
    match fetch(Site.EpisodeUrl(episodeSlug))
    case Failure(why) => Fail(ServerError, StreamFailed, Some(why), Some(("episodeSlug", episodeSlug)))
    case Success(page) =>
      match Stream.ExtractStream(page, episodeSlug)
      case Failure(why) => Fail(ServerError, StreamFailed, Some(why), Some(("episodeSlug", episodeSlug)))
      case Success(s) => Json(s)
  }

  /** A series listed from a link to its own detail page is fetched back
      from that page: the detail route called with the listed slug is the
      detail route of the slug the link was built from. */
  lemma ListedSeriesFetchesItsPage(item: Listing.ListingItem, slug: string, tail: string,
                                   fetch: string -> Result<Detail.DetailPage, string>)
    requires '/' !in slug && slug != "" && (tail == "" || tail == "/")
    requires item.linkHref == Some(Site.AnimeUrl(slug) + tail)
    requires Trim(item.titleText) != ""
    ensures Listing.ListingStep(Readable(item)).Some?
    ensures AnimeDetails(Listing.ListingStep(Readable(item)).value.slug, fetch) == AnimeDetails(slug, fetch)
  {
    Listing.ListingLinkRoundTrip(item, slug, tail);
  }

  /** An episode listed on a detail page from a link to its own watch page
      is streamed from that page, and a successful reply echoes its slug. */
  lemma ListedEpisodeStreamsItsPage(link: Detail.EpisodeLink, slug: string, tail: string,
                                    fetch: string -> Result<Stream.EpisodePage, string>)
    requires '/' !in slug && slug != "" && (tail == "" || tail == "/")
    requires link.anchorHref == Some(Site.EpisodeUrl(slug) + tail)
    requires Trim(link.anchorText) != ""
    ensures Detail.EpisodeStep(link).Some?
    ensures EpisodeStreamRoute(Detail.EpisodeStep(link).value.slug, fetch) == EpisodeStreamRoute(slug, fetch)
    ensures EpisodeStreamRoute(slug, fetch).Json? ==> EpisodeStreamRoute(slug, fetch).body.episodeSlug == slug
  {
    Detail.EpisodeLinkRoundTrip(link, slug, tail);
  }
}
