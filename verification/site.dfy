/** The fixed site layout the scraper targets: its base URL, the path
    markers that introduce anime and episode slugs, and the page URLs the
    routes fetch. */
module Site {

  /** The host every page is fetched from. */
  const Host: string := "otakudesu.cloud"

  /** The site every page is fetched from, `https://otakudesu.cloud`. */
  const BaseUrl: string := "https://" + Host

  /** The path segment that precedes an anime slug in a link. */
  const AnimeMarker: string := "/anime/"

  /** The path segment that precedes an episode slug in a link. */
  const EpisodeMarker: string := "/episode/"

  /** The listing of currently airing series (the top-airing route). */
  const OngoingUrl: string := BaseUrl + "/ongoing-anime/"

  /** The listing of finished series (the recent-anime route). */
  const CompleteUrl: string := BaseUrl + "/complete-anime/"

  /** The results page of a search, given the query already encoded as a
      URI component. */
  function SearchUrl(encodedQuery: string): string {
    BaseUrl + "/?s=" + encodedQuery + "&post_type=anime"
  }

  /** The detail page of the series `slug`. */
  function AnimeUrl(slug: string): string {
    BaseUrl + AnimeMarker + slug
  }

  /** The watch page of the episode `slug`. */
  function EpisodeUrl(slug: string): string {
    BaseUrl + EpisodeMarker + slug
  }
}
