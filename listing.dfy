/**
 * The list extractor `extractListItemsFromHTML` of background.js: it walks the
 * anchor matches of the listing page, keeps the first anchor of each
 * announcement id, and gives each kept anchor a title and a nearby date.
 *
 * The anchor pattern itself is not re-implemented: its matches are the input
 * `anchors`, in the order `regex.exec` returns them. URL resolution (`new URL`)
 * is the parameter `resolve`, where `None` stands for the TypeError it throws.
 */
module Listing {
  import opened Text
  import opened Markup

  /** One match of the anchor pattern: the `href` value (group 1), the inner
    * markup (group 2), `match.index` and `regex.lastIndex`. */
  datatype Anchor = Anchor(href: string, inner: string, index: nat, lastIndex: nat)

  /** One entry of the listing. */
  datatype ListItem = ListItem(id: string, url: string, title: string, date: string)

  /** The id class `[A-Za-z0-9_\-]`. */
  predicate IsIdChar(c: char) {
    ('A' <= c <= 'Z') || ('a' <= c <= 'z') || ('0' <= c <= '9') || c == '_' || c == '-'
  }

  /** A string matching `[A-Za-z0-9_\-]+`. */
  predicate IsId(id: string) {
    |id| > 0 && forall k :: 0 <= k < |id| ==> IsIdChar(id[k])
  }

  /** `pblancId=([A-Za-z0-9_\-]+)` tried at `i`: the id is the whole run of id
    * characters after the `=`. */
  function IdAt(u: string, i: nat): (r: Option<string>)
    ensures r.Some? <==> At(u, i, "pblancId=") && i + 9 < |u| && IsIdChar(u[i + 9])
    ensures r.Some? ==> IsId(r.value)
    ensures r.Some? ==> At(u, i, "pblancId=") && At(u, i + 9, r.value)
    ensures r.Some? ==> i + 9 + |r.value| == |u| || !IsIdChar(u[i + 9 + |r.value|])
  {
    if At(u, i, "pblancId=") && i + 9 < |u| && IsIdChar(u[i + 9]) then
      var n := RunLength(u, i + 9, IsIdChar);
      Some(u[i + 9..i + 9 + n])
    else None
  }

  /** `url.match(/pblancId=([A-Za-z0-9_\-]+)/)`: the id of the leftmost occurrence
    * that is followed by at least one id character. */
  function ExtractId(url: string): (r: Option<string>)
    ensures r.Some? ==> IsId(r.value)
    ensures r.Some? <==> exists i :: 0 <= i < |url| && IdAt(url, i).Some?
    ensures r.Some? ==> exists i :: (0 <= i < |url| && IdAt(url, i) == Some(r.value)
      && forall j :: 0 <= j < i ==> IdAt(url, j).None?)
  {
    var at := i => IdAt(url, i);
    assert forall j :: IdAt(url, j) == at(j);
    match FirstMatch(0, |url|, at)
    case Some((i, id)) =>
      assert IdAt(url, i) == Some(id);
      Some(id)
    case None => None
  }

  /** An id after `pblancId=` is the whole run of id characters. */
  lemma IdExample()
    ensures IdAt("pblancId=PB_1&x", 0) == Some("PB_1")
  {
    var u := "pblancId=PB_1&x";
    assert At(u, 0, "pblancId=") by {
      assert u[0..9] == "pblancId=";
    }
    RunLengthIs(u, 9, IsIdChar, 4);
    assert u[9..13] == "PB_1";
  }

  /** `Math.max(0, match.index - 400)`. */
  function WindowStart(a: Anchor): (ws: nat)
    ensures ws <= a.index
    ensures a.index - ws <= 400
    ensures ws == 0 || ws + 400 == a.index
  {
    if a.index >= 400 then a.index - 400 else 0
  }

  /** `Math.min(html.length, regex.lastIndex + 400)`. */
  function WindowEnd(html: string, a: Anchor): (we: nat)
    ensures we <= |html| && we <= a.lastIndex + 400
    ensures we == |html| || we == a.lastIndex + 400
    ensures a.lastIndex <= |html| ==> a.lastIndex <= we
  {
    if a.lastIndex + 400 < |html| then a.lastIndex + 400 else |html|
  }

  /** The leftmost date token of `text`. */
  function FirstDate(text: string): (r: Option<(nat, string)>)
    ensures r.Some? ==> IsDateToken(r.value.1) && DateTokenAt(text, r.value.0) == Some(r.value.1)
    ensures r.Some? ==> forall j :: 0 <= j < r.value.0 ==> DateTokenAt(text, j).None?
    ensures r.None? ==> forall j :: 0 <= j < |text| ==> DateTokenAt(text, j).None?
  {
    var at := i => DateTokenAt(text, i);
    assert forall j :: DateTokenAt(text, j) == at(j);
    FirstMatch(0, |text|, at)
  }

  /** The normalised text around an anchor match. */
  function Window(html: string, a: Anchor): string {
    StripTags(Slice(html, WindowStart(a), WindowEnd(html, a)))
  }

  /** `text.match(/\d{4}[.\-]\d{2}[.\-]\d{2}/)` with the dots of the match rewritten
    * to dashes, or the empty string when there is no match. */
  function DateIn(text: string): (d: string)
    ensures d == "" || IsIsoDate(d)
    ensures d == "" <==> forall j :: 0 <= j < |text| ==> DateTokenAt(text, j).None?
    ensures d != "" ==> exists j :: (0 <= j < |text| && DateTokenAt(text, j).Some?
      && d == DotsToDashes(DateTokenAt(text, j).value)
      && forall m :: 0 <= m < j ==> DateTokenAt(text, m).None?)
  {
    match FirstDate(text)
    case Some((j, token)) =>
      DateTokenNormalises(token);
      assert DateTokenAt(text, j) == Some(token);
      DotsToDashes(token)
    case None => ""
  }

  /** The date near an anchor: the first date token of the normalised text
    * around the match, with dots rewritten to dashes, or the empty string. */
  function NearbyDate(html: string, a: Anchor): (d: string)
    ensures d == "" || IsIsoDate(d)
    ensures d == "" <==> forall j :: 0 <= j < |Window(html, a)| ==> DateTokenAt(Window(html, a), j).None?
    ensures d != "" ==> exists j :: (0 <= j < |Window(html, a)| && DateTokenAt(Window(html, a), j).Some?
      && d == DotsToDashes(DateTokenAt(Window(html, a), j).value)
      && forall m :: 0 <= m < j ==> DateTokenAt(Window(html, a), m).None?)
  {
    DateIn(Window(html, a))
  }

  /** One anchor after `new URL(href, LIST_URL)` succeeded: the anchor, the
    * resolved URL and the id found in it, if any. */
  datatype Link = Link(anchor: Anchor, url: string, id: Option<string>)

  /** The link of an anchor whose `href` resolved to `url`. */
  function LinkOf(a: Anchor, url: string): (l: Link)
    ensures l.anchor == a && l.url == url
    ensures l.id.Some? ==> IsId(l.id.value)
  {
    Link(a, url, ExtractId(url))
  }

  /** Every anchor's `href` resolves. */
  predicate AllResolve(anchors: seq<Anchor>, resolve: string -> Option<string>) {
    forall j :: 0 <= j < |anchors| ==> resolve(anchors[j].href).Some?
  }

  /** The links of the anchors, or `None` when resolving some `href` throws. */
  function Links(anchors: seq<Anchor>, resolve: string -> Option<string>): (r: Option<seq<Link>>)
    ensures r.Some? <==> AllResolve(anchors, resolve)
    ensures r.Some? ==> |r.value| == |anchors|
    ensures r.Some? ==> forall k :: 0 <= k < |anchors| ==>
      r.value[k] == LinkOf(anchors[k], resolve(anchors[k].href).value)
  {
    if AllResolve(anchors, resolve) then
      Some(seq(|anchors|, k requires 0 <= k < |anchors| => LinkOf(anchors[k], resolve(anchors[k].href).value)))
    else None
  }

  /** Link `j` has an id that no earlier link has. */
  predicate IsFirstOccurrence(links: seq<Link>, j: nat)
    requires j < |links|
  {
    links[j].id.Some? && forall k :: 0 <= k < j ==> links[k].id != links[j].id
  }

  /** The positions of the links that are the first occurrence of their id, in
    * document order. */
  function Kept(links: seq<Link>): (r: seq<nat>)
    ensures forall k :: 0 <= k < |r| ==> r[k] < |links| && IsFirstOccurrence(links, r[k])
    ensures forall k1, k2 :: 0 <= k1 < k2 < |r| ==> r[k1] < r[k2]
    ensures |r| <= |links|
  {
    if links == [] then []
    else
      var prev := links[..|links| - 1];
      assert forall j :: 0 <= j < |prev| ==> (IsFirstOccurrence(prev, j) <==> IsFirstOccurrence(links, j));
      var last := if IsFirstOccurrence(links, |links| - 1) then [|links| - 1] else [];
      Kept(prev) + last
  }

  /** The entry built from a link with an id: `{ id, url, title, date }`. */
  function ItemOf(html: string, l: Link): (r: ListItem)
    requires l.id.Some?
    ensures r.id == l.id.value && r.url == l.url
    ensures r.title == StripTags(l.anchor.inner) && Trimmed(r.title)
    ensures r.date == NearbyDate(html, l.anchor) && (r.date == "" || IsIsoDate(r.date))
  {
    ListItem(l.id.value, l.url, StripTags(l.anchor.inner), NearbyDate(html, l.anchor))
  }

  /** The entries of the kept links, in document order. */
  function Entries(html: string, links: seq<Link>): (r: seq<ListItem>)
    ensures |r| == |Kept(links)|
  {
    var kept := Kept(links);
    seq(|kept|, k requires 0 <= k < |kept| => ItemOf(html, links[kept[k]]))
  }

  /** The result of `extractListItemsFromHTML`, or `None` when `new URL` throws. */
  function ListingItems(html: string, anchors: seq<Anchor>, resolve: string -> Option<string>): (r: Option<seq<ListItem>>)
    ensures r.Some? <==> AllResolve(anchors, resolve)
    ensures r.Some? ==> |r.value| <= |anchors| && DistinctIds(r.value)
  {
    match Links(anchors, resolve)
    case None => None
    case Some(links) =>
      EntriesIds(html, links);
      Some(Entries(html, links))
  }

  /** The ids carried by some link: the `seen` set. */
  function SeenIds(links: seq<Link>): set<string> {
    set k | 0 <= k < |links| && links[k].id.Some? :: links[k].id.value
  }

  /** The set of ids of a list of entries. */
  function IdSet(items: seq<ListItem>): set<string> {
    set k | 0 <= k < |items| :: items[k].id
  }

  /** No two entries share an id. */
  predicate DistinctIds(items: seq<ListItem>) {
    forall j, k :: 0 <= j < k < |items| ==> items[j].id != items[k].id
  }

  /** Appending a link keeps it exactly when its id is present and not yet seen. */
  lemma {:induction false} KeptStep(links: seq<Link>, l: Link)
    ensures l.id.Some? && l.id.value !in SeenIds(links) ==> Kept(links + [l]) == Kept(links) + [|links|]
    ensures !(l.id.Some? && l.id.value !in SeenIds(links)) ==> Kept(links + [l]) == Kept(links)
  {
    var ext := links + [l];
    assert ext[..|links|] == links;
    assert IsFirstOccurrence(ext, |links|) <==> l.id.Some? && l.id.value !in SeenIds(links) by {
      if l.id.Some? && l.id.value in SeenIds(links) {
        var k :| 0 <= k < |links| && links[k].id.Some? && links[k].id.value == l.id.value;
        assert ext[k].id == l.id;
      }
    }
  }

  /** Appending a link keeps the earlier entries as they are. */
  lemma {:induction false} EntriesAgree(html: string, links: seq<Link>, l: Link)
    ensures Kept(links) <= Kept(links + [l])
    ensures forall k :: 0 <= k < |Kept(links)| ==> Entries(html, links + [l])[k] == Entries(html, links)[k]
  {
    var ext := links + [l];
    var kept := Kept(links);
    KeptStep(links, l);
    forall k | 0 <= k < |kept|
      ensures Entries(html, ext)[k] == Entries(html, links)[k]
    {
      assert ext[kept[k]] == links[kept[k]];
    }
  }

  /** Appending a link adds its entry exactly when its id is present and not yet
    * seen, and keeps the earlier entries as they are. */
  lemma {:induction false} EntriesStep(html: string, links: seq<Link>, l: Link)
    ensures l.id.Some? && l.id.value !in SeenIds(links) ==>
      Entries(html, links + [l]) == Entries(html, links) + [ItemOf(html, l)]
    ensures !(l.id.Some? && l.id.value !in SeenIds(links)) ==>
      Entries(html, links + [l]) == Entries(html, links)
  {
    var ext := links + [l];
    KeptStep(links, l);
    EntriesAgree(html, links, l);
    var before := Entries(html, links);
    var after := Entries(html, ext);
    if l.id.Some? && l.id.value !in SeenIds(links) {
      assert after[|before|] == ItemOf(html, l) by {
        assert Kept(ext)[|before|] == |links| && ext[|links|] == l;
      }
      assert after == before + [ItemOf(html, l)];
    } else {
      assert after == before;
    }
  }

  /** Every link with an id shares it with a first occurrence at or before it. */
  lemma {:induction false} FirstWithSameId(links: seq<Link>, j: nat) returns (f: nat)
    requires j < |links| && links[j].id.Some?
    ensures f <= j && IsFirstOccurrence(links, f) && links[f].id == links[j].id
    decreases j
  {
    if IsFirstOccurrence(links, j) {
      f := j;
    } else {
      var k :| 0 <= k < j && links[k].id == links[j].id;
      f := FirstWithSameId(links, k);
    }
  }

  /** Every first occurrence is kept. */
  lemma {:induction false} KeptComplete(links: seq<Link>, j: nat)
    requires j < |links| && IsFirstOccurrence(links, j)
    ensures j in Kept(links)
  {
    var prev := links[..|links| - 1];
    if j < |prev| {
      assert IsFirstOccurrence(prev, j);
      KeptComplete(prev, j);
    }
  }

  /** The entries have pairwise distinct ids, and those ids are exactly the ids of
    * the links: no id is lost and none is repeated. */
  lemma {:induction false} EntriesIds(html: string, links: seq<Link>)
    ensures DistinctIds(Entries(html, links))
    ensures IdSet(Entries(html, links)) == SeenIds(links)
  {
    var items := Entries(html, links);
    var kept := Kept(links);
    assert forall k :: 0 <= k < |items| ==> items[k].id == links[kept[k]].id.value;
    forall id | id in SeenIds(links)
      ensures id in IdSet(items)
    {
      var j :| 0 <= j < |links| && links[j].id == Some(id);
      var f := FirstWithSameId(links, j);
      KeptComplete(links, f);
      var k :| 0 <= k < |kept| && kept[k] == f;
      assert items[k].id == id;
    }
  }

  /** Appending a link adds its id, if any, to the `seen` set. */
  lemma {:induction false} SeenIdsStep(links: seq<Link>, l: Link)
    ensures SeenIds(links + [l]) == SeenIds(links) + (if l.id.Some? then {l.id.value} else {})
  {
    var ext := links + [l];
    forall id | id in SeenIds(links) ensures id in SeenIds(ext) {
      var k :| 0 <= k < |links| && links[k].id.Some? && links[k].id.value == id;
      assert ext[k] == links[k];
    }
    assert l.id.Some? ==> ext[|links|] == l;
  }

  /** Links built anchor by anchor are the links of the whole listing. */
  lemma {:induction false} LinksBuilt(anchors: seq<Anchor>, resolve: string -> Option<string>, links: seq<Link>)
    requires |links| == |anchors| && AllResolve(anchors, resolve)
    requires forall j :: 0 <= j < |anchors| ==> links[j] == LinkOf(anchors[j], resolve(anchors[j].href).value)
    ensures Links(anchors, resolve) == Some(links)
  {
    assert Links(anchors, resolve).value == links;
  }

  /** One turn of the extraction loop: the entries and the `seen` set grow exactly
    * when the new link has an id not seen before. */
  lemma {:induction false} ExtractStep(html: string, links: seq<Link>, l: Link, items: seq<ListItem>, seen: set<string>)
    requires items == Entries(html, links) && seen == SeenIds(links)
    ensures l.id.Some? && l.id.value !in seen ==>
      items + [ItemOf(html, l)] == Entries(html, links + [l]) && seen + {l.id.value} == SeenIds(links + [l])
    ensures !(l.id.Some? && l.id.value !in seen) ==>
      items == Entries(html, links + [l]) && seen == SeenIds(links + [l])
  {
    EntriesStep(html, links, l);
    SeenIdsStep(links, l);
  }

  /** The first `i` anchors resolved, and `links` are their links. */
  predicate LinksSoFar(anchors: seq<Anchor>, resolve: string -> Option<string>, i: nat, links: seq<Link>) {
    i <= |anchors| && |links| == i &&
    forall j :: 0 <= j < i ==> resolve(anchors[j].href).Some? && links[j] == LinkOf(anchors[j], resolve(anchors[j].href).value)
  }

  /** Resolving one more anchor extends the links by that anchor's link. */
  lemma {:induction false} LinksSoFarStep(anchors: seq<Anchor>, resolve: string -> Option<string>, i: nat, links: seq<Link>, url: string)
    requires LinksSoFar(anchors, resolve, i, links) && i < |anchors| && resolve(anchors[i].href) == Some(url)
    ensures LinksSoFar(anchors, resolve, i + 1, links + [LinkOf(anchors[i], url)])
  {
  }

  /** `extractListItemsFromHTML`: the `while (regex.exec(...))` loop over the
    * anchors, with the `seen` set of ids already emitted. */
  method ExtractListItems(html: string, anchors: seq<Anchor>, resolve: string -> Option<string>)
    returns (result: Option<seq<ListItem>>)
    ensures result == ListingItems(html, anchors, resolve)
  {
    var items: seq<ListItem> := [];
    var seen: set<string> := {};
    ghost var links: seq<Link> := [];
    for i := 0 to |anchors|
      invariant LinksSoFar(anchors, resolve, i, links)
      invariant items == Entries(html, links) && seen == SeenIds(links)
    {
      var a := anchors[i];
      var resolved := resolve(a.href);
      if resolved.None? {
        return None;
      }
      var url := resolved.value;
      var idm := ExtractId(url);
      var l := Link(a, url, idm);
      ExtractStep(html, links, l, items, seen);
      LinksSoFarStep(anchors, resolve, i, links, url);
      links := links + [l];
      if idm.None? || idm.value in seen {
        continue;
      }
      seen := seen + {idm.value};
      items := items + [ItemOf(html, l)];
    }
    LinksBuilt(anchors, resolve, links);
    return Some(items);
  }

  /** Every entry of a listing has a valid id, no two entries share one, and every
    * id found in a resolved link has its entry. */
  lemma {:induction false} ListingIds(html: string, anchors: seq<Anchor>, resolve: string -> Option<string>)
    requires AllResolve(anchors, resolve)
    ensures var items := ListingItems(html, anchors, resolve).value;
      DistinctIds(items) && forall k :: 0 <= k < |items| ==> IsId(items[k].id)
    ensures IdSet(ListingItems(html, anchors, resolve).value) == SeenIds(Links(anchors, resolve).value)
  {
    var links := Links(anchors, resolve).value;
    var items := Entries(html, links);
    assert ListingItems(html, anchors, resolve) == Some(items);
    EntriesIds(html, links);
    var kept := Kept(links);
    forall k | 0 <= k < |items| ensures IsId(items[k].id) {
      assert items[k].id == links[kept[k]].id.value;
    }
  }

  /** The entry of an id is built from the FIRST anchor carrying it: later anchors
    * with the same id are skipped. */
  lemma {:induction false} FirstAnchorWins(html: string, links: seq<Link>, j: nat)
    requires j < |links| && IsFirstOccurrence(links, j)
    ensures ItemOf(html, links[j]) in Entries(html, links)
  {
    KeptComplete(links, j);
    var kept := Kept(links);
    var k :| 0 <= k < |kept| && kept[k] == j;
    assert Entries(html, links)[k] == ItemOf(html, links[j]);
  }

  /** Entries keep document order: extending the links only appends entries. */
  lemma {:induction false} EntriesPrefix(html: string, links: seq<Link>, more: seq<Link>)
    ensures Entries(html, links) <= Entries(html, links + more)
    decreases |more|
  {
    if more != [] {
      var init := more[..|more| - 1];
      EntriesPrefix(html, links, init);
      assert links + more == (links + init) + [more[|more| - 1]];
      EntriesStep(html, links + init, more[|more| - 1]);
      var first := Entries(html, links);
      var mid := Entries(html, links + init);
      var last := Entries(html, links + more);
      assert mid == last[..|mid|];
      assert first == mid[..|first|];
    } else {
      assert links + more == links;
    }
  }

  /** Entry `k` comes from the `k`-th kept link: its id and URL are the link's, its
    * title is the anchor's normalised inner markup, and its date is the one found
    * near the anchor, empty or `DDDD-DD-DD`. */
  lemma {:induction false} EntryFields(html: string, links: seq<Link>, k: nat)
    requires k < |Kept(links)|
    ensures var e := Entries(html, links)[k]; var l := links[Kept(links)[k]];
      l.id == Some(e.id) && e.url == l.url && e.title == StripTags(l.anchor.inner)
        && Trimmed(e.title) && e.date == NearbyDate(html, l.anchor) && (e.date == "" || IsIsoDate(e.date))
  {
  }

  /** The date window lies inside the page and around the whole match. */
  lemma {:induction false} WindowAroundMatch(html: string, a: Anchor)
    requires a.index <= a.lastIndex <= |html|
    ensures 0 <= WindowStart(a) <= a.index && a.lastIndex <= WindowEnd(html, a) <= |html|
    ensures Slice(html, WindowStart(a), WindowEnd(html, a)) == html[WindowStart(a)..WindowEnd(html, a)]
  {
  }
}
