/** Slug derivation, the string rule the listing, search and episode-list
    extractions apply to item links:
    `url ? url.split(marker)[1]?.replace('/', '') : ''`. */
module Slug {
  import opened Wrappers
  import opened Text
  import Site

  /** The slug of a link for the given path marker. `Some("")` is the empty
      string the rule yields for a missing or empty href; `None` is the
      `undefined` it yields when the marker does not occur. Otherwise the
      slug is the second `split` piece, the text between the first and the
      second occurrence of the marker, with its first `/` removed. */
  function SlugOf(href: Option<string>, marker: string): (r: Option<string>)
    requires |marker| > 0
    ensures !HasText(href) ==> r == Some("")
    ensures HasText(href) && IndexOf(href.value, marker).None? ==> r == None
    ensures HasText(r) ==> HasText(href) && IndexOf(href.value, marker).Some?
  {
    if !HasText(href) then Some("")
    else
      var pieces := SplitOn(href.value, marker);
      if |pieces| < 2 then None else Some(RemoveFirst(pieces[1], '/'))
  }

  /** The slug of a link whose marker occurs first at `i` and next at `j`
      is the text strictly between them, less its first `/`. */
  lemma SlugBetweenMarkers(url: string, marker: string, i: nat, j: nat)
    requires |marker| > 0
    requires OccursAt(url, marker, i) && forall k: nat :: k < i ==> !OccursAt(url, marker, k)
    requires i + |marker| <= j && OccursAt(url, marker, j)
    requires forall k: nat :: i + |marker| <= k < j ==> !OccursAt(url, marker, k)
    ensures SlugOf(Some(url), marker) == Some(RemoveFirst(url[i + |marker|..j], '/'))
  {
    SplitBetweenTwo(url, marker, i, j);
  }

  /** The slug of a link whose marker occurs at `i` and not again after it
      is everything after the marker, less its first `/`. */
  lemma SlugAfterMarker(url: string, marker: string, i: nat)
    requires |marker| > 0
    requires OccursAt(url, marker, i) && forall k: nat :: k < i ==> !OccursAt(url, marker, k)
    requires forall k: nat :: i + |marker| <= k ==> !OccursAt(url, marker, k)
    ensures SlugOf(Some(url), marker) == Some(RemoveFirst(url[i + |marker|..], '/'))
  {
    SplitAfterLast(url, marker, i);
  }

  /** A marker shaped like a path segment, `/name/` with no inner `/`. */
  predicate SegmentMarker(marker: string) {
    && |marker| >= 3
    && marker[0] == '/' && marker[|marker| - 1] == '/'
    && '/' !in marker[1..|marker| - 1]
  }

  /** No occurrence of `marker` can start inside `base`: every `/` of `base`
      is followed, still inside `base`, by a character other than the
      marker's second one. */
  predicate NoMarkerStartIn(base: string, marker: string)
    requires |marker| >= 2
  {
    forall k :: 0 <= k < |base| && base[k] == '/' ==> k + 1 < |base| && base[k + 1] != marker[1]
  }

  /** In `https://host` with a slash-free host the only slashes are the two
      of the scheme, and the second is followed by the host's first
      character; so a marker whose second character differs from both `/`
      and that one cannot start inside it. */
  lemma NoMarkerAfterScheme(host: string, marker: string)
    requires |marker| >= 2 && marker[1] != '/'
    requires |host| > 0 && host[0] != marker[1] && '/' !in host
    ensures NoMarkerStartIn("https://" + host, marker)
  {
    var b := "https://" + host;
    assert forall k :: 8 <= k < |b| ==> b[k] == host[k - 8];
  }

  /** The base URL's only slashes are the two of `https://`, followed by `/`
      and `o`, so neither marker can start inside it. */
  lemma BaseUrlHasNoMarker()
    ensures NoMarkerStartIn(Site.BaseUrl, Site.AnimeMarker)
    ensures NoMarkerStartIn(Site.BaseUrl, Site.EpisodeMarker)
  {
    assert '/' !in Site.Host;
    NoMarkerAfterScheme(Site.Host, Site.AnimeMarker);
    NoMarkerAfterScheme(Site.Host, Site.EpisodeMarker);
  }

  lemma NoMarkerInBase(base: string, marker: string, rest: string, k: nat)
    requires SegmentMarker(marker) && NoMarkerStartIn(base, marker)
    requires k < |base|
    ensures !OccursAt(base + rest, marker, k)
  {
    var u := base + rest;
    if k + |marker| <= |u| {
      var w := u[k..k + |marker|];
      assert w[0] == base[k];
      if base[k] == '/' {
        assert w[1] == base[k + 1];
      }
    }
  }

  /** Past the marker, a slash-free slug (with or without one trailing `/`)
      holds no further occurrence of a segment marker. */
  lemma NoMarkerInSlug(head: string, marker: string, slug: string, tail: string, k: nat)
    requires SegmentMarker(marker)
    requires '/' !in slug && (tail == "" || tail == "/")
    requires |head| <= k
    ensures !OccursAt(head + slug + tail, marker, k)
  {
    var u := head + slug + tail;
    if k + |marker| <= |u| {
      var w := u[k..k + |marker|];
      assert w[0] == slug[k - |head|];
    }
  }

  /** In a site link the marker first occurs right after the base URL and
      not again after that occurrence. */
  lemma OnlyMarkerAt(base: string, marker: string, slug: string, tail: string)
    requires SegmentMarker(marker) && NoMarkerStartIn(base, marker)
    requires '/' !in slug && (tail == "" || tail == "/")
    ensures OccursAt(base + marker + slug + tail, marker, |base|)
    ensures forall k: nat :: k < |base| ==> !OccursAt(base + marker + slug + tail, marker, k)
    ensures forall k: nat :: |base| + |marker| <= k ==> !OccursAt(base + marker + slug + tail, marker, k)
  {
    var rest := marker + slug + tail;
    var u := base + marker + slug + tail;
    assert u == base + rest;
    assert u[|base|..|base| + |marker|] == marker;
    forall k: nat | k < |base| ensures !OccursAt(u, marker, k) {
      NoMarkerInBase(base, marker, rest, k);
    }
    forall k: nat | |base| + |marker| <= k ensures !OccursAt(u, marker, k) {
      NoMarkerInSlug(base + marker, marker, slug, tail, k);
    }
  }

  /** Slug round trip: a link built the way the site builds it, base URL,
      marker, then a slug without `/`, optionally with one trailing `/`,
      yields that slug back. So `.../anime/foo` and `.../anime/foo/` both
      give `foo`. */
  lemma SlugOfSiteLink(base: string, marker: string, slug: string, tail: string)
    requires SegmentMarker(marker) && NoMarkerStartIn(base, marker)
    requires '/' !in slug && (tail == "" || tail == "/")
    ensures SlugOf(Some(base + marker + slug + tail), marker) == Some(slug)
  {
    var u := base + marker + slug + tail;
    var i := |base|;
    OnlyMarkerAt(base, marker, slug, tail);
    SlugAfterMarker(u, marker, i);
    TextAfterMarker(base, marker, slug, tail);
    TrailingSlashDropped(slug, tail);
  }

  /** What follows the marker of a site link is the slug and its tail. */
  lemma TextAfterMarker(base: string, marker: string, slug: string, tail: string)
    ensures (base + marker + slug + tail)[|base| + |marker|..] == slug + tail
  {
    var u := base + marker + slug + tail;
    var n := |base| + |marker|;
    assert forall k :: 0 <= k < |slug| + |tail| ==> u[n + k] == (slug + tail)[k];
  }

  /** A slash-free slug with or without one trailing `/` loses just that `/`. */
  lemma TrailingSlashDropped(slug: string, tail: string)
    requires '/' !in slug && (tail == "" || tail == "/")
    ensures RemoveFirst(slug + tail, '/') == slug
  {
    if tail == "/" {
      RemoveFirstTrailing(slug, '/');
    } else {
      assert slug + tail == slug;
    }
  }

  /** The detail route fetches `AnimeUrl(slug)`; a listing link to that page,
      with or without a trailing `/`, gives back the same slug. */
  lemma AnimeLinkRoundTrip(slug: string, tail: string)
    requires '/' !in slug && (tail == "" || tail == "/")
    ensures SlugOf(Some(Site.AnimeUrl(slug) + tail), Site.AnimeMarker) == Some(slug)
  {
    assert Site.AnimeMarker[1..|Site.AnimeMarker| - 1] == "anime";
    BaseUrlHasNoMarker();
    SlugOfSiteLink(Site.BaseUrl, Site.AnimeMarker, slug, tail);
  }

  /** The stream route fetches `EpisodeUrl(slug)`; an episode-list link to
      that page gives back the same episode slug. */
  lemma EpisodeLinkRoundTrip(slug: string, tail: string)
    requires '/' !in slug && (tail == "" || tail == "/")
    ensures SlugOf(Some(Site.EpisodeUrl(slug) + tail), Site.EpisodeMarker) == Some(slug)
  {
    assert Site.EpisodeMarker[1..|Site.EpisodeMarker| - 1] == "episode";
    BaseUrlHasNoMarker();
    SlugOfSiteLink(Site.BaseUrl, Site.EpisodeMarker, slug, tail);
  }

  /** Only the first `/` after the marker goes, because `replace` with a
      string pattern replaces once: when the text after the only marker is
      `p/q` with no `/` in `p`, the slug is `pq`, every later `/` of `q`
      kept. So `/anime/a/b/` gives `ab/`, not `a`. */
  lemma SlugDropsOnlyFirstSlash(url: string, marker: string, i: nat, p: string, q: string)
    requires |marker| > 0
    requires OccursAt(url, marker, i) && forall k: nat :: k < i ==> !OccursAt(url, marker, k)
    requires forall k: nat :: i + |marker| <= k ==> !OccursAt(url, marker, k)
    requires url[i + |marker|..] == p + "/" + q && '/' !in p
    ensures SlugOf(Some(url), marker) == Some(p + q)
  {
    SlugAfterMarker(url, marker, i);
    RemoveFirstAt(p, '/', q);
  }
}
