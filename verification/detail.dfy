/** Detail extraction: the fixed title, poster and synopsis of a series
    page, its open-ended `label: value` info block, and its episode list,
    merged into one record as `{title, thumbnail, synopsis, ...info, episodes}`. */
module Detail {
  import opened Wrappers
  import opened Text
  import opened Page
  import Slug
  import Site

  /** One `.episodelist ul li` item: the text of its `a` (empty when absent,
      not yet trimmed) and the `href` of its first `a`. */
  datatype EpisodeLink = EpisodeLink(anchorText: string, anchorHref: Option<string>)

  /** One entry of the episode list. */
  datatype EpisodeRef = EpisodeRef(title: string, slug: string)

  /** What a series page offers: the text of `h1.entry-title`, the `src` of
      the first `.fotoanime img`, the text of `.sinopc`, the `.infozingle p`
      paragraphs and the episode-list items. */
  datatype DetailPage = DetailPage(
    headingText: string,
    posterSrc: Option<string>,
    synopsisText: string,
    infoParagraphs: seq<Node<string>>,
    episodeItems: seq<Node<EpisodeLink>>)

  /** The record as serialised: every string-valued property, keyed by
      name, and the episode list under `episodes`. A `thumbnail` of
      `undefined` has no entry, as it has no key in the JSON. */
  datatype AnimeDetail = AnimeDetail(fields: map<string, string>, episodes: seq<EpisodeRef>)

  /** The property name the episode list is stored under. */
  const EpisodesKey: string := "episodes"

  /** Assigning to this key of a plain object calls the prototype setter,
      which ignores a string, so it never becomes a key of the info map. */
  const ProtoKey: string := "__proto__"

  // ----------------------------------------------------------- info block

  /** An info entry from a label and a value, both already trimmed: nothing
      unless both are non-empty, else the normalised label and the value. */
  function InfoEntry(name: string, value: string): (r: Option<(string, string)>)
    ensures r.Some? <==> name != "" && value != ""
    ensures r.Some? ==> r.value.0 == NormalizeKey(name) && r.value.1 == value
  {
    if name != "" && value != "" then Some((NormalizeKey(name), value)) else None
  }

  /** One paragraph of the info block: the trimmed text is split on `:`,
      the first piece is the label and the second, if any, the value; later
      pieces are dropped. */
  function InfoPair(text: string): (r: Option<(string, string)>)
    ensures r.Some? ==> r.value.0 != "" && r.value.1 != "" && IsKey(r.value.0)
  {
    var pieces := SplitOn(Trim(text), ":");
    var value := if |pieces| > 1 then Trim(pieces[1]) else "";
    InfoEntry(Trim(pieces[0]), value)
  }

  /** A colon in `s` is an occurrence of the one-character pattern `:`. */
  lemma ColonOccurs(s: string, i: nat)
    requires i < |s| && s[i] == ':'
    ensures OccursAt(s, ":", i)
  {
    assert s[i..i + 1] == [s[i]];
  }

  /** A colon-free stretch `s[lo..hi]` holds no occurrence of `:`. */
  lemma NoColonBetween(s: string, lo: nat, hi: nat)
    requires lo <= hi <= |s| && ':' !in s[lo..hi]
    ensures forall k: nat :: lo <= k < hi ==> !OccursAt(s, ":", k)
  {
    forall k: nat | lo <= k < hi ensures !OccursAt(s, ":", k) {
      assert s[k] == s[lo..hi][k - lo];
      assert s[k..k + 1] == [s[k]];
    }
  }

  /** Past `|s|` nothing occurs. */
  lemma NothingBeyond(s: string)
    ensures forall k: nat :: |s| <= k ==> !OccursAt(s, ":", k)
  {
  }

  /** Trimming keeps every colon: a colon-free text trims to a colon-free text. */
  lemma TrimKeepsNoColon(text: string)
    requires ':' !in text
    ensures ':' !in Trim(text)
  {
    var u := Trim(text);
    var a := LeadingSpace(text);
    assert forall k :: 0 <= k < |u| ==> u[k] == text[a + k];
  }

  /** A paragraph without a colon adds nothing. */
  lemma InfoPairWithoutColon(text: string)
    requires ':' !in text
    ensures InfoPair(text) == None
  {
    var u := Trim(text);
    TrimKeepsNoColon(text);
    assert u[0..|u|] == u;
    NoColonBetween(u, 0, |u|);
    NothingBeyond(u);
    SplitWithoutSeparator(u, ":");
  }

  /** With colons at `i` and `j` in the trimmed text and none before `j`
      except `i`, the label is the text before `i` and the value the text
      between the two: `A: 12:00` gives the value `12`. */
  lemma InfoPairBetweenColons(text: string, i: nat, j: nat)
    requires var u := Trim(text);
             && i < j < |u| && u[i] == ':' && u[j] == ':'
             && ':' !in u[..i] && ':' !in u[i + 1..j]
    ensures var u := Trim(text);
            InfoPair(text) == InfoEntry(Trim(u[..i]), Trim(u[i + 1..j]))
  {
    var u := Trim(text);
    ColonOccurs(u, i);
    ColonOccurs(u, j);
    assert u[0..i] == u[..i];
    NoColonBetween(u, 0, i);
    NoColonBetween(u, i + 1, j);
    SplitBetweenTwo(u, ":", i, j);
  }

  /** With a single colon at `i` in the trimmed text, the label is the text
      before it and the value everything after it. */
  lemma InfoPairOneColon(text: string, i: nat)
    requires var u := Trim(text);
             && i < |u| && u[i] == ':' && ':' !in u[..i] && ':' !in u[i + 1..]
    ensures var u := Trim(text);
            InfoPair(text) == InfoEntry(Trim(u[..i]), Trim(u[i + 1..]))
  {
    var u := Trim(text);
    ColonOccurs(u, i);
    assert u[0..i] == u[..i];
    assert u[i + 1..|u|] == u[i + 1..];
    NoColonBetween(u, 0, i);
    NoColonBetween(u, i + 1, |u|);
    NothingBeyond(u);
    SplitAfterLast(u, ":", i);
  }

  /** The entries of the paragraphs, one per paragraph, in document order. */
  function InfoPairs(texts: seq<string>): (ps: seq<Option<(string, string)>>)
    ensures |ps| == |texts| && forall i :: 0 <= i < |texts| ==> ps[i] == InfoPair(texts[i])
  {
    seq(|texts|, i requires 0 <= i < |texts| => InfoPair(texts[i]))
  }

  /** The assignments `info[key] = value` of a sequence of entries, in
      order, starting from an empty object. */
  function Assign(entries: seq<Option<(string, string)>>): (m: map<string, string>)
    decreases |entries|
    ensures forall k :: k in m ==> k != ProtoKey
  {
    if |entries| == 0 then map[]
    else
      var n := |entries| - 1;
      var m := Assign(entries[..n]);
      assert forall i :: 0 <= i < n ==> entries[..n][i] == entries[i];
      match entries[n]
      case None => m
      case Some(kv) => if kv.0 == ProtoKey then m else m[kv.0 := kv.1]
  }

  /** Entry `i` assigns `key`. */
  predicate Assigns(entries: seq<Option<(string, string)>>, i: int, key: string)
    requires 0 <= i < |entries|
  {
    entries[i].Some? && entries[i].value.0 == key
  }

  /** A key is assigned exactly when some entry carries it (the prototype
      key excepted). */
  lemma {:induction false} AssignKeys(entries: seq<Option<(string, string)>>, key: string)
    ensures key in Assign(entries) <==>
            key != ProtoKey && exists i :: 0 <= i < |entries| && Assigns(entries, i, key)
  {
    if |entries| > 0 {
      var n := |entries| - 1;
      var init := entries[..n];
      AssignKeys(init, key);
      var m := Assign(init);
      assert forall i :: 0 <= i < n ==> init[i] == entries[i];
      assert forall i :: 0 <= i < n ==> (Assigns(init, i, key) <==> Assigns(entries, i, key));
      if entries[n].Some? && entries[n].value.0 == key && key != ProtoKey {
        assert Assign(entries) == m[key := entries[n].value.1];
        assert Assigns(entries, n, key);
      } else {
        assert key in Assign(entries) <==> key in m;
        if key != ProtoKey && exists i :: 0 <= i < |entries| && Assigns(entries, i, key) {
          var i :| 0 <= i < |entries| && Assigns(entries, i, key);
          assert i < n;
          assert Assigns(init, i, key);
        }
      }
    }
  }

  /** The last assignment of a key is the one that sticks. */
  lemma {:induction false} AssignLastWins(entries: seq<Option<(string, string)>>, i: nat, key: string, value: string)
    requires i < |entries| && entries[i] == Some((key, value)) && key != ProtoKey
    requires forall j :: i < j < |entries| ==> !Assigns(entries, j, key)
    ensures key in Assign(entries) && Assign(entries)[key] == value
  {
    var n := |entries| - 1;
    var init := entries[..n];
    if i < n {
      forall j | i < j < |init| ensures !Assigns(init, j, key) {
        assert init[j] == entries[j];
        assert !Assigns(entries, j, key);
      }
      assert init[i] == entries[i];
      AssignLastWins(init, i, key, value);
      assert !Assigns(entries, n, key);
    }
  }

  /** Every assigned key holds the value of some entry that carries it. */
  lemma {:induction false} AssignValuesFrom(entries: seq<Option<(string, string)>>)
    ensures forall k :: k in Assign(entries) ==>
              exists i :: 0 <= i < |entries| && entries[i] == Some((k, Assign(entries)[k]))
  {
    if |entries| > 0 {
      var n := |entries| - 1;
      var init := entries[..n];
      AssignValuesFrom(init);
      var m := Assign(init);
      forall k | k in Assign(entries)
        ensures exists i :: 0 <= i < |entries| && entries[i] == Some((k, Assign(entries)[k]))
      {
        if entries[n].Some? && entries[n].value.0 == k && k != ProtoKey {
          assert entries[n] == Some((k, Assign(entries)[k]));
        } else {
          assert k in m && Assign(entries)[k] == m[k];
          var i :| 0 <= i < |init| && init[i] == Some((k, m[k]));
          assert entries[i] == init[i];
        }
      }
    }
  }

  /** Every key the paragraphs assign is a non-empty normalised label and
      every value non-empty. */
  lemma AssignedPairsWellFormed(texts: seq<string>)
    ensures forall k :: k in Assign(InfoPairs(texts)) ==>
              k != "" && IsKey(k) && Assign(InfoPairs(texts))[k] != ""
  {
    var ps := InfoPairs(texts);
    var m := Assign(ps);
    AssignValuesFrom(ps);
    forall k | k in m ensures k != "" && IsKey(k) && m[k] != "" {
      var j :| 0 <= j < |ps| && ps[j] == Some((k, m[k]));
      assert InfoPair(texts[j]) == Some((k, m[k]));
    }
  }

  /** The info map of the paragraphs: each paragraph that yields an entry
      sets its key, a later paragraph overwriting an earlier one with the
      same key. Every key is a non-empty normalised label and every value
      non-empty. */
  function InfoMap(texts: seq<string>): (m: map<string, string>)
    ensures forall k :: k in m ==> k != "" && k != ProtoKey && IsKey(k) && m[k] != ""
  {
    AssignedPairsWellFormed(texts);
    Assign(InfoPairs(texts))
  }

  /** The paragraph `text` contributes the key `key`. */
  predicate LabelledAs(text: string, key: string) {
    InfoPair(text).Some? && InfoPair(text).value.0 == key
  }

  /** Paragraph `i` contributes the key `key`. */
  predicate KeyedAt(texts: seq<string>, i: int, key: string)
    requires 0 <= i < |texts|
  {
    LabelledAs(texts[i], key)
  }

  /** A key is in the info map exactly when some paragraph yields it (the
      prototype key excepted). */
  lemma InfoMapKeys(texts: seq<string>, key: string)
    ensures key in InfoMap(texts) <==>
            key != ProtoKey && exists i :: 0 <= i < |texts| && KeyedAt(texts, i, key)
  {
    var ps := InfoPairs(texts);
    AssignKeys(ps, key);
    assert forall i :: 0 <= i < |texts| ==> (KeyedAt(texts, i, key) <==> Assigns(ps, i, key));
  }

  /** Later duplicates win: the value of a key is the value of the last
      paragraph that yields it. */
  lemma InfoMapLastWins(texts: seq<string>, i: nat, key: string, value: string)
    requires i < |texts| && InfoPair(texts[i]) == Some((key, value)) && key != ProtoKey
    requires forall j :: i < j < |texts| ==> !KeyedAt(texts, j, key)
    ensures key in InfoMap(texts) && InfoMap(texts)[key] == value
  {
    var ps := InfoPairs(texts);
    forall j | i < j < |ps| ensures !Assigns(ps, j, key) {
      assert !KeyedAt(texts, j, key);
    }
    AssignLastWins(ps, i, key, value);
  }

  /** The label and the value of a `Label: value` paragraph trim to themselves. */
  lemma LabelledPartsTrimmed(name: string, value: string)
    requires Trimmed(name) && value != "" && Trimmed(value)
    ensures Trim(name) == name && Trim([' '] + value) == value
  {
    TrimOfTrimmed(name);
    TrimDropsLeadingSpace(' ', value);
  }

  /** A text that starts and ends with a non-space trims to itself. */
  lemma TrimmedEnds(text: string, first: char, last: char)
    requires |text| > 0 && text[0] == first && text[|text| - 1] == last
    requires !IsJsSpace(first) && !IsJsSpace(last)
    ensures Trim(text) == text
  {
    TrimOfTrimmed(text);
  }

  /** How `Label: value` falls apart at its colon. */
  lemma LabelledShape(name: string, value: string)
    requires name != "" && value != ""
    ensures var text := name + ": " + value;
            && text[..|name|] == name && text[|name|] == ':'
            && text[|name| + 1..] == [' '] + value
            && text[0] == name[0] && text[|text| - 1] == value[|value| - 1]
  {
  }

  /** The usual paragraph `Label: value`: the key is the normalised label
      and the value the text after the colon and its space. */
  lemma InfoPairLabelled(name: string, value: string)
    requires name != "" && value != "" && Trimmed(name) && Trimmed(value)
    requires ':' !in name && ':' !in value
    ensures InfoPair(name + ": " + value) == Some((NormalizeKey(name), value))
  {
    var text := name + ": " + value;
    var i := |name|;
    assert Trim(text) == text && text[..i] == name && text[i + 1..] == [' '] + value by {
      LabelledShape(name, value);
      TrimmedEnds(text, name[0], value[|value| - 1]);
    }
    assert i < |text| && text[i] == ':' && ':' !in text[..i] && ':' !in text[i + 1..] by {
      LabelledShape(name, value);
      assert ':' !in [' '] + value;
    }
    InfoPairOneColon(text, i);
    LabelledPartsTrimmed(name, value);
  }

  /** How `Label: value:more` falls apart at its two colons `i` and `j`. */
  lemma CutShape(name: string, value: string, more: string, text: string, i: nat, j: nat)
    requires name != "" && value != ""
    requires text == name + ": " + value + ":" + more && i == |name| && j == |name| + 2 + |value|
    ensures i < j < |text| && text[i] == ':' && text[j] == ':'
    ensures text[..i] == name && text[i + 1..j] == [' '] + value
    ensures text[0] == name[0] && text[|text| - 1] == (if more == [] then ':' else more[|more| - 1])
  {
  }

  /** A value holding a colon is cut there: `Label: value:more` keeps only
      `value`, so `A: 12:00` yields the value `12`. */
  lemma InfoPairCutAtSecondColon(name: string, value: string, more: string)
    requires name != "" && value != "" && Trimmed(name) && Trimmed(value)
    requires ':' !in name && ':' !in value
    requires more == [] || !IsJsSpace(more[|more| - 1])
    ensures InfoPair(name + ": " + value + ":" + more) == Some((NormalizeKey(name), value))
  {
    var text := name + ": " + value + ":" + more;
    var i, j := |name|, |name| + 2 + |value|;
    assert Trim(text) == text && text[..i] == name && text[i + 1..j] == [' '] + value by {
      CutShape(name, value, more, text, i, j);
      var last := if more == [] then ':' else more[|more| - 1];
      TrimmedEnds(text, name[0], last);
    }
    assert i < j < |text| && text[i] == ':' && text[j] == ':' && ':' !in text[..i] && ':' !in text[i + 1..j] by {
      CutShape(name, value, more, text, i, j);
      assert ':' !in [' '] + value;
    }
    InfoPairBetweenColons(text, i, j);
    LabelledPartsTrimmed(name, value);
  }

  // --------------------------------------------------------- episode list

  /** One episode-list item: kept when its trimmed title and its episode
      slug are both non-empty. */
  function EpisodeStep(link: EpisodeLink): (r: Option<EpisodeRef>)
    ensures r.Some? <==> Trim(link.anchorText) != ""
                         && HasText(Slug.SlugOf(link.anchorHref, Site.EpisodeMarker))
    ensures r.Some? ==> r.value.title == Trim(link.anchorText)
                        && Some(r.value.slug) == Slug.SlugOf(link.anchorHref, Site.EpisodeMarker)
    ensures r.Some? ==> r.value.title != "" && r.value.slug != ""
  {
    var title := Trim(link.anchorText);
    var slug := Slug.SlugOf(link.anchorHref, Site.EpisodeMarker);
    if title != "" && HasText(slug) then Some(EpisodeRef(title, slug.value)) else None
  }

  /** The episode list in document order. */
  function EpisodeList(links: seq<EpisodeLink>): (r: seq<EpisodeRef>)
    ensures forall k :: 0 <= k < |r| ==> r[k].title != "" && r[k].slug != ""
  {
    KeepSources(links, EpisodeStep);
    Keep(links, EpisodeStep)
  }

  /** An episode-list link to the site's own watch page of `slug` (with or
      without a trailing `/`) and carrying a title yields exactly that slug,
      so the stream route fetches the page the link points to. */
  lemma EpisodeLinkRoundTrip(link: EpisodeLink, slug: string, tail: string)
    requires '/' !in slug && slug != "" && (tail == "" || tail == "/")
    requires link.anchorHref == Some(Site.EpisodeUrl(slug) + tail)
    requires Trim(link.anchorText) != ""
    ensures EpisodeStep(link) == Some(EpisodeRef(Trim(link.anchorText), slug))
  {
    Slug.EpisodeLinkRoundTrip(slug, tail);
  }

  // ---------------------------------------------------------------- merge

  /** The fixed properties: `title`, `synopsis`, and `thumbnail` when defined. */
  function FixedFields(title: string, thumbnail: Option<string>, synopsis: string): (m: map<string, string>)
    ensures "title" in m && m["title"] == title
    ensures "synopsis" in m && m["synopsis"] == synopsis
    ensures "thumbnail" in m <==> thumbnail.Some?
    ensures thumbnail.Some? ==> m["thumbnail"] == thumbnail.value
    ensures forall k :: k in m ==> k == "title" || k == "synopsis" || k == "thumbnail"
  {
    map["title" := title, "synopsis" := synopsis]
      + (if thumbnail.Some? then map["thumbnail" := thumbnail.value] else map[])
  }

  /** `{title, thumbnail, synopsis, ...info, episodes}`: an info key
      overrides a fixed property of the same name, and nothing overrides
      `episodes`, which is always the episode list. */
  function MergeDetail(title: string, thumbnail: Option<string>, synopsis: string,
                       info: map<string, string>, episodes: seq<EpisodeRef>): (d: AnimeDetail)
    ensures d.episodes == episodes && EpisodesKey !in d.fields
    ensures forall k :: k in info && k != EpisodesKey ==> k in d.fields && d.fields[k] == info[k]
    ensures "title" !in info ==> "title" in d.fields && d.fields["title"] == title
    ensures "synopsis" !in info ==> "synopsis" in d.fields && d.fields["synopsis"] == synopsis
    ensures "thumbnail" !in info ==> ("thumbnail" in d.fields <==> thumbnail.Some?)
    ensures "thumbnail" !in info && thumbnail.Some? ==> d.fields["thumbnail"] == thumbnail.value
    ensures forall k :: k in d.fields ==> k in info || k == "title" || k == "synopsis" || k == "thumbnail"
  {
    AnimeDetail((FixedFields(title, thumbnail, synopsis) + info) - {EpisodesKey}, episodes)
  }

  // ------------------------------------------------------------- the page

  /** Every info paragraph and every episode-list item of the page reads
      without throwing. */
  predicate ReadsCleanly(page: DetailPage) {
    && (forall i :: 0 <= i < |page.infoParagraphs| ==> page.infoParagraphs[i].Readable?)
    && (forall i :: 0 <= i < |page.episodeItems| ==> page.episodeItems[i].Readable?)
  }

  /** The detail record of a page. The two loops have no `try`, so a
      paragraph or episode item that throws fails the route with its
      message, the info block being read first; an empty title is not a
      failure. */
  function ExtractDetail(page: DetailPage): (r: Result<AnimeDetail, string>)
    ensures r.Success? <==> ReadsCleanly(page)
    ensures r.Failure? && (exists i :: 0 <= i < |page.infoParagraphs| && page.infoParagraphs[i].Broken?) ==>
              exists i :: 0 <= i < |page.infoParagraphs| && page.infoParagraphs[i] == Broken(r.error)
                          && forall j :: 0 <= j < i ==> page.infoParagraphs[j].Readable?
    ensures r.Failure? && (forall i :: 0 <= i < |page.infoParagraphs| ==> page.infoParagraphs[i].Readable?) ==>
              exists i :: 0 <= i < |page.episodeItems| && page.episodeItems[i] == Broken(r.error)
                          && forall j :: 0 <= j < i ==> page.episodeItems[j].Readable?
    ensures r.Success? ==> forall k :: 0 <= k < |r.value.episodes| ==>
                             r.value.episodes[k].title != "" && r.value.episodes[k].slug != ""
  {
    match ReadAll(page.infoParagraphs)
    case Failure(why) => Failure(why)
    case Success(texts) =>
      match ReadAll(page.episodeItems)
      case Failure(why) => Failure(why)
      case Success(links) =>
        Success(MergeDetail(Trim(page.headingText), page.posterSrc, Trim(page.synopsisText),
                            InfoMap(texts), EpisodeList(links)))
  }

  /** The episodes of a detail record are the order-preserving subsequence
      of the episode-list items that have a title and an episode slug. */
  lemma DetailEpisodesInOrder(page: DetailPage) returns (idx: seq<nat>)
    requires ReadsCleanly(page)
    ensures ReadAll(page.episodeItems).Success?
    ensures Selects(ReadAll(page.episodeItems).value, EpisodeStep, ExtractDetail(page).value.episodes, idx)
  {
    idx := KeepSelects(ReadAll(page.episodeItems).value, EpisodeStep);
  }

  /** Unless a paragraph is labelled `title`, the record's title is the
      trimmed heading, even when that is empty: the route has no check on it. */
  lemma DetailTitleFromHeading(page: DetailPage)
    requires ReadsCleanly(page)
    requires forall i :: 0 <= i < |page.infoParagraphs| ==> !LabelledAs(page.infoParagraphs[i].fields, "title")
    ensures ExtractDetail(page).Success? && "title" in ExtractDetail(page).value.fields
    ensures ExtractDetail(page).value.fields["title"] == Trim(page.headingText)
  {
    var texts := ReadAll(page.infoParagraphs).value;
    assert forall i :: 0 <= i < |texts| ==> !KeyedAt(texts, i, "title");
    InfoMapKeys(texts, "title");
  }

  /** The synopsis and the poster come from the page itself unless a
      paragraph is labelled like them: the synopsis is the trimmed
      synopsis text, and the thumbnail is present exactly when the poster
      has a `src`, holding that `src`. */
  lemma DetailSynopsisAndPoster(page: DetailPage)
    requires ReadsCleanly(page)
    requires forall i :: 0 <= i < |page.infoParagraphs| ==>
               !LabelledAs(page.infoParagraphs[i].fields, "synopsis")
               && !LabelledAs(page.infoParagraphs[i].fields, "thumbnail")
    ensures ExtractDetail(page).Success? && "synopsis" in ExtractDetail(page).value.fields
    ensures ExtractDetail(page).value.fields["synopsis"] == Trim(page.synopsisText)
    ensures "thumbnail" in ExtractDetail(page).value.fields <==> page.posterSrc.Some?
    ensures page.posterSrc.Some? ==> ExtractDetail(page).value.fields["thumbnail"] == page.posterSrc.value
  {
    var texts := ReadAll(page.infoParagraphs).value;
    assert forall i :: 0 <= i < |texts| ==> !KeyedAt(texts, i, "synopsis");
    assert forall i :: 0 <= i < |texts| ==> !KeyedAt(texts, i, "thumbnail");
    InfoMapKeys(texts, "synopsis");
    InfoMapKeys(texts, "thumbnail");
  }

  /** A paragraph labelled like a fixed property overrides it: the record
      carries the value of the last paragraph with that key, not the page's
      own field. */
  lemma DetailInfoOverridesFixed(page: DetailPage, i: nat, key: string, value: string)
    requires ReadsCleanly(page) && key != EpisodesKey && key != ProtoKey
    requires i < |page.infoParagraphs| && InfoPair(page.infoParagraphs[i].fields) == Some((key, value))
    requires forall j :: i < j < |page.infoParagraphs| ==> !LabelledAs(page.infoParagraphs[j].fields, key)
    ensures ExtractDetail(page).Success? && key in ExtractDetail(page).value.fields
    ensures ExtractDetail(page).value.fields[key] == value
  {
    var texts := ReadAll(page.infoParagraphs).value;
    var links := ReadAll(page.episodeItems).value;
    assert forall j :: i < j < |texts| ==> !KeyedAt(texts, j, key);
    InfoMapLastWins(texts, i, key, value);
    var info := InfoMap(texts);
    var d := MergeDetail(Trim(page.headingText), page.posterSrc, Trim(page.synopsisText), info, EpisodeList(links));
    assert ExtractDetail(page) == Success(d);
    assert key in info && info[key] == value;
  }
}
