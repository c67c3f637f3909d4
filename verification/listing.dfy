/** Listing extraction, the loop body the top-airing and recent-anime routes
    share: each `.venz > ul > li` item becomes an entry when it has a title
    and an anime slug, and an item that throws is skipped. */
module Listing {
  import opened Wrappers
  import opened Text
  import opened Page
  import Slug
  import Site

  /** What one listing item offers: the text of `h2.jdlflm`, `div.epz` and
      `div.newnime` (empty when absent, not yet trimmed), the `src` of its
      first `img` and the `href` of its first `a`. */
  datatype ListingItem = ListingItem(
    titleText: string,
    episodeText: string,
    dateText: string,
    imgSrc: Option<string>,
    linkHref: Option<string>)

  /** An emitted listing record. */
  datatype ListingEntry = ListingEntry(
    title: string,
    episode: string,
    date: string,
    thumbnail: Option<string>,
    slug: string)

  /** The item's anime slug, `undefined` included. */
  function ItemSlug(item: ListingItem): Option<string> {
    Slug.SlugOf(item.linkHref, Site.AnimeMarker)
  }

  /** The body of the per-item `try`: an item that throws, or whose trimmed
      title or slug is empty, yields nothing; otherwise the trimmed texts,
      the thumbnail and the slug are pushed as they are. */
  function ListingStep(node: Node<ListingItem>): (r: Option<ListingEntry>)
    ensures r.Some? <==> node.Readable? && Trim(node.fields.titleText) != ""
                                       && HasText(ItemSlug(node.fields))
    ensures r.Some? ==> r.value.title == Trim(node.fields.titleText)
                        && Some(r.value.slug) == ItemSlug(node.fields)
    ensures r.Some? ==> r.value.title != "" && r.value.slug != ""
    ensures r.Some? ==> r.value.episode == Trim(node.fields.episodeText)
                        && r.value.date == Trim(node.fields.dateText)
                        && r.value.thumbnail == node.fields.imgSrc
  {
    match node
    case Broken(_) => None
    case Readable(item) =>
      var title := Trim(item.titleText);
      var slug := ItemSlug(item);
      if title != "" && HasText(slug) then
        Some(ListingEntry(title, Trim(item.episodeText), Trim(item.dateText), item.imgSrc, slug.value))
      else None
  }

  /** The entries of a listing page, in document order. */
  function ExtractListing(items: seq<Node<ListingItem>>): (r: seq<ListingEntry>)
    ensures |r| <= |items|
    ensures forall k :: 0 <= k < |r| ==> r[k].title != "" && r[k].slug != ""
  {
    KeepSources(items, ListingStep);
    Keep(items, ListingStep)
  }

  /** The entries are the order-preserving subsequence of the accepted
      items: `idx` lists the accepted items' positions, ascending, and
      entry `k` is built from item `idx[k]`. */
  lemma ListingIsSubsequence(items: seq<Node<ListingItem>>) returns (idx: seq<nat>)
    ensures Selects(items, ListingStep, ExtractListing(items), idx)
  {
    idx := KeepSelects(items, ListingStep);
  }

  /** Fault isolation: an item whose processing throws is skipped, and the
      entries before and after it are exactly those of the page without it. */
  lemma ListingFaultIsolation(before: seq<Node<ListingItem>>, reason: string, after: seq<Node<ListingItem>>)
    ensures ExtractListing(before + [Broken(reason)] + after)
            == ExtractListing(before) + ExtractListing(after)
  {
    KeepSkips(before, Broken(reason), after, ListingStep);
  }

  /** An item with an empty title or no slug is dropped, never emitted as a
      partial entry, and does not disturb its neighbours. */
  lemma ListingDropsIncomplete(before: seq<Node<ListingItem>>, item: ListingItem, after: seq<Node<ListingItem>>)
    requires Trim(item.titleText) == "" || !HasText(ItemSlug(item))
    ensures ExtractListing(before + [Readable(item)] + after)
            == ExtractListing(before) + ExtractListing(after)
  {
    KeepSkips(before, Readable(item), after, ListingStep);
  }

  /** A page whose items all read cleanly and carry a title and a slug
      except for one throwing item yields one entry fewer than it has items. */
  lemma ListingLosesOnlyTheBrokenItem(before: seq<Node<ListingItem>>, reason: string, after: seq<Node<ListingItem>>)
    requires forall i :: 0 <= i < |before| ==> ListingStep(before[i]).Some?
    requires forall i :: 0 <= i < |after| ==> ListingStep(after[i]).Some?
    ensures |ExtractListing(before + [Broken(reason)] + after)| == |before| + |after|
  {
    ListingFaultIsolation(before, reason, after);
    KeepAll(before, ListingStep);
    KeepAll(after, ListingStep);
  }

  /** An item linking to the site's own detail page of `slug` (with or
      without a trailing `/`) and carrying a title is emitted with exactly
      that slug, so the detail route can fetch it back. */
  lemma ListingLinkRoundTrip(item: ListingItem, slug: string, tail: string)
    requires '/' !in slug && slug != "" && (tail == "" || tail == "/")
    requires item.linkHref == Some(Site.AnimeUrl(slug) + tail)
    requires Trim(item.titleText) != ""
    ensures ListingStep(Readable(item)).Some?
    ensures ListingStep(Readable(item)).value.slug == slug
  {
    Slug.AnimeLinkRoundTrip(slug, tail);
  }
}
