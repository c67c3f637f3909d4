/** Search extraction: each `.chivsrc li` result becomes an entry when its
    heading link has a title and an anime slug, with the three positional
    `.set` badges defaulted rather than omitted; a result that throws is
    skipped. */
module Search {
  import opened Wrappers
  import opened Text
  import opened Page
  import Slug
  import Site

  /** What one search result offers: the text of `h2 a` (empty when absent,
      not yet trimmed), the `src` of its first `img`, the `href` of its
      first `h2 a`, and the text of each `.set` element, in order. */
  datatype SearchItem = SearchItem(
    linkText: string,
    imgSrc: Option<string>,
    linkHref: Option<string>,
    setTexts: seq<string>)

  /** An emitted search record; `kind` is the record's `type` badge. */
  datatype SearchEntry = SearchEntry(
    title: string,
    thumbnail: Option<string>,
    slug: string,
    kind: string,
    status: string,
    rating: string)

  /** The fallback of the `type` and `status` badges. */
  const UnknownBadge: string := "Unknown"

  /** The fallback of the `rating` badge. */
  const NoRating: string := "N/A"

  /** `infoElements.eq(index).text().trim() || fallback`: the badge at that
      position when it exists and holds more than space, else the fallback. */
  function Badge(setTexts: seq<string>, index: nat, fallback: string): (b: string)
    ensures index < |setTexts| && !AllSpace(setTexts[index]) ==> b == Trim(setTexts[index])
    ensures index >= |setTexts| || AllSpace(setTexts[index]) ==> b == fallback
    ensures fallback != "" ==> b != ""
  {
    if index >= |setTexts| then fallback
    else
      var text := Trim(setTexts[index]);
      TrimEmptyIffAllSpace(setTexts[index]);
      if text != "" then text else fallback
  }

  /** The result's anime slug, `undefined` included. */
  function ItemSlug(item: SearchItem): Option<string> {
    Slug.SlugOf(item.linkHref, Site.AnimeMarker)
  }

  /** The body of the per-result `try`. Each badge of an emitted entry is
      the trimmed text of the `.set` element at its position, or its
      fallback when that element is missing or blank: `type` at 0 and
      `status` at 1 fall back to `Unknown`, `rating` at 2 to `N/A`. */
  function SearchStep(node: Node<SearchItem>): (r: Option<SearchEntry>)
    ensures r.Some? <==> node.Readable? && Trim(node.fields.linkText) != ""
                                       && HasText(ItemSlug(node.fields))
    ensures r.Some? ==> r.value.title == Trim(node.fields.linkText)
                        && Some(r.value.slug) == ItemSlug(node.fields)
    ensures r.Some? ==> r.value.title != "" && r.value.slug != ""
    ensures r.Some? ==> r.value.kind != "" && r.value.status != "" && r.value.rating != ""
    ensures r.Some? ==> r.value.thumbnail == node.fields.imgSrc
    ensures r.Some? ==> var sets := node.fields.setTexts;
                        && (if |sets| > 0 && !AllSpace(sets[0])
                            then r.value.kind == Trim(sets[0]) else r.value.kind == UnknownBadge)
                        && (if |sets| > 1 && !AllSpace(sets[1])
                            then r.value.status == Trim(sets[1]) else r.value.status == UnknownBadge)
                        && (if |sets| > 2 && !AllSpace(sets[2])
                            then r.value.rating == Trim(sets[2]) else r.value.rating == NoRating)
  {
    match node
    case Broken(_) => None
    case Readable(item) =>
      var title := Trim(item.linkText);
      var slug := ItemSlug(item);
      if title != "" && HasText(slug) then
        Some(SearchEntry(title, item.imgSrc, slug.value,
                         Badge(item.setTexts, 0, UnknownBadge),
                         Badge(item.setTexts, 1, UnknownBadge),
                         Badge(item.setTexts, 2, NoRating)))
      else None
  }

  /** The entries of a search-results page, in document order. Every entry
      has a title, a slug and all three badges. */
  function ExtractSearch(items: seq<Node<SearchItem>>): (r: seq<SearchEntry>)
    ensures |r| <= |items|
    ensures forall k :: 0 <= k < |r| ==> r[k].title != "" && r[k].slug != ""
    ensures forall k :: 0 <= k < |r| ==> r[k].kind != "" && r[k].status != "" && r[k].rating != ""
  {
    KeepSources(items, SearchStep);
    Keep(items, SearchStep)
  }

  /** The entries are the order-preserving subsequence of the accepted results. */
  lemma SearchIsSubsequence(items: seq<Node<SearchItem>>) returns (idx: seq<nat>)
    ensures Selects(items, SearchStep, ExtractSearch(items), idx)
  {
    idx := KeepSelects(items, SearchStep);
  }

  /** Fault isolation: a result whose processing throws is skipped and its
      neighbours are extracted as if it were absent. */
  lemma SearchFaultIsolation(before: seq<Node<SearchItem>>, reason: string, after: seq<Node<SearchItem>>)
    ensures ExtractSearch(before + [Broken(reason)] + after)
            == ExtractSearch(before) + ExtractSearch(after)
  {
    KeepSkips(before, Broken(reason), after, SearchStep);
  }
}
