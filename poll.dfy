/**
 * The state transition of `checkForUpdates` in background.js: extract the
 * listing, find the entries whose ids were not seen by the previous poll,
 * summarise each one's detail page, notify, and replace the two persisted
 * records (`lastSeenIds` and `cacheItems`).
 *
 * The network and the extension APIs are not modelled. The listing fetch is an
 * input that is present or absent (absent when it throws). The detail fetch is
 * the oracle `fetchDetail`, which gives the markup of a URL or `None` when the
 * fetch throws. `Date.now()` is the oracle `clock`, where `clock(k)` is the time
 * the `k`-th fresh record is built. The persisted records are an input state,
 * and the poll's outcome says what is written.
 */
module Poll {
  import opened Text
  import opened Listing
  import opened Detail
  import opened Summary

  /** The listing page as fetched: its markup and the anchor matches in it. */
  datatype ListPage = ListPage(html: string, anchors: seq<Anchor>)

  /** `{ title, summary, period }`, the result of `fetchAndSummarize`. */
  datatype DetailSummary = DetailSummary(title: string, summary: string, period: string)

  /** A cached record. */
  datatype Record = Record(id: string, title: string, url: string, date: string,
                           period: string, summary: string, ts: int)

  /** A notification as created: its id, title and message. */
  datatype Notification = Notification(id: string, title: string, message: string)

  /** The persisted records. */
  datatype State = State(lastSeenIds: seq<string>, cacheItems: seq<Record>)

  /** What a poll does. `Failed`: something threw, nothing is written, and the
    * notifications created before the failure stay shown. `NoUpdates`: every
    * entry was seen before and nothing is written. `Updated`: the new state is
    * written after the notifications were created. */
  datatype Outcome =
    | Failed(emitted: seq<Notification>)
    | NoUpdates
    | Updated(state: State, notifications: seq<Notification>)

  /** At most this many records are cached. */
  const CacheLimit: nat := 50

  /** At most this many ids are remembered. */
  const SeenLimit: nat := 100

  /** Notification messages are cut to this many characters. */
  const MessageLimit: nat := 900

  /** The prefix of the message when a period is known. */
  const PeriodLabel: string := "[기간] "

  /** The summary of a fetched detail page. */
  function Describe(html: string): (d: DetailSummary)
    ensures d.period == "" || IsPeriod(d.period)
    ensures |d.summary| <= SummaryLimit + 1 && |d.summary| >= 2 && d.summary[..2] == "• "
  {
    DetailSummary(GetTitle(html), Summarize(html), ExtractPeriod(html))
  }

  /** `fetchAndSummarize` once the markup has arrived. */
  method FetchAndSummarize(html: string) returns (d: DetailSummary)
    ensures d == Describe(html)
  {
    var title := GetTitle(html);
    var summary := SummarizeDetail(html);
    var period := ExtractPeriod(html);
    d := DetailSummary(title, summary, period);
  }

  /** `items.filter(it => !known.has(it.id))`. */
  function Fresh(items: seq<ListItem>, seen: seq<string>): (r: seq<ListItem>)
    ensures |r| <= |items|
  {
    if items == [] then []
    else (if items[0].id in seen then [] else [items[0]]) + Fresh(items[1..], seen)
  }

  /** An entry is fresh exactly when it is listed and its id was not seen. */
  lemma {:induction false} FreshMeaning(items: seq<ListItem>, seen: seq<string>, it: ListItem)
    ensures it in Fresh(items, seen) <==> it in items && it.id !in seen
  {
    if items != [] {
      FreshMeaning(items[1..], seen, it);
      assert items == [items[0]] + items[1..];
    }
  }

  /** Fresh entries keep listing order: filtering distributes over concatenation. */
  lemma {:induction false} FreshAppend(a: seq<ListItem>, b: seq<ListItem>, seen: seq<string>)
    ensures Fresh(a + b, seen) == Fresh(a, seen) + Fresh(b, seen)
  {
    if a != [] {
      assert (a + b)[1..] == a[1..] + b;
      FreshAppend(a[1..], b, seen);
    } else {
      assert a + b == b;
    }
  }

  /** Nothing is fresh exactly when every listed id was seen before. */
  lemma {:induction false} FreshEmpty(items: seq<ListItem>, seen: seq<string>)
    ensures Fresh(items, seen) == [] <==> forall k :: 0 <= k < |items| ==> items[k].id in seen
  {
    if items != [] {
      FreshEmpty(items[1..], seen);
      assert forall k :: 1 <= k < |items| ==> items[k] == items[1..][k - 1];
    }
  }

  /** Filtering keeps the listing's ids distinct. */
  lemma {:induction false} FreshDistinct(items: seq<ListItem>, seen: seq<string>)
    requires DistinctIds(items)
    ensures DistinctIds(Fresh(items, seen))
  {
    if items != [] {
      var rest := Fresh(items[1..], seen);
      assert DistinctIds(items[1..]) by {
        forall j, k | 0 <= j < k < |items[1..]| ensures items[1..][j].id != items[1..][k].id {
          assert items[1..][j] == items[j + 1] && items[1..][k] == items[k + 1];
        }
      }
      FreshDistinct(items[1..], seen);
      forall k | 0 <= k < |rest| ensures rest[k].id != items[0].id {
        FreshMeaning(items[1..], seen, rest[k]);
        var m :| 0 <= m < |items[1..]| && items[1..][m] == rest[k];
        assert items[m + 1] == rest[k];
      }
    }
  }

  /** A period that is empty or `YYYY-MM-DD ~ YYYY-MM-DD`, and a summary as the
    * summariser renders it: a bullet first, at most 501 characters. */
  predicate WellFormedParts(period: string, summary: string) {
    (period == "" || IsPeriod(period)) && 2 <= |summary| <= SummaryLimit + 1 && summary[..2] == "• "
  }

  /** A detail summary as `Describe` produces it. */
  predicate WellFormedDetail(d: DetailSummary) {
    WellFormedParts(d.period, d.summary)
  }

  /** A record whose period and summary are as `Describe` produces them. */
  predicate WellFormedRecord(r: Record) {
    WellFormedParts(r.period, r.summary)
  }

  /** A record as built for a fresh entry: the listing title unless it is empty,
    * the listing date, and the detail page's period and summary. */
  function MakeRecord(it: ListItem, d: DetailSummary, ts: int): (r: Record)
    ensures r.id == it.id && r.url == it.url && r.date == it.date && r.ts == ts
    ensures r.title == (if it.title != "" then it.title else d.title)
    ensures r.period == d.period && r.summary == d.summary
    ensures WellFormedDetail(d) ==> WellFormedRecord(r)
  {
    Record(it.id, if it.title != "" then it.title else d.title, it.url, it.date, d.period, d.summary, ts)
  }

  /** The message: an optional period line, then the summary. */
  function Message(r: Record): (m: string)
    ensures |m| >= |r.summary| && m[|m| - |r.summary|..] == r.summary
    ensures r.period == "" ==> m == r.summary
    ensures r.period != "" ==> |m| == |PeriodLabel| + |r.period| + 1 + |r.summary|
    ensures r.period != "" ==> m[..|PeriodLabel|] == PeriodLabel && m[|PeriodLabel| + |r.period|] == '\n'
    ensures r.period != "" ==> m[|PeriodLabel|..|PeriodLabel| + |r.period|] == r.period
  {
    (if r.period != "" then PeriodLabel + r.period + "\n" else "") + r.summary
  }

  /** The notification of a record, with the message cut to 900 characters. */
  function NoteOf(r: Record): (n: Notification)
    ensures n.id == r.id && n.title == r.title
    ensures |n.message| <= MessageLimit
  {
    Notification(r.id, r.title, Take(Message(r), MessageLimit))
  }

  /** `message.slice(0, 900)`: the message shown is the first 900 characters of the
    * full message, or all of it when it is shorter. */
  lemma MessageCut(r: Record)
    ensures var m := NoteOf(r).message;
      |m| == (if |Message(r)| <= MessageLimit then |Message(r)| else MessageLimit)
        && m == Message(r)[..|m|]
  {
  }

  /** How many leading fresh entries have a detail page that could be fetched. */
  function FetchedCount(incoming: seq<ListItem>, fetchDetail: string -> Option<string>): (n: nat)
    ensures n <= |incoming|
    ensures forall j :: 0 <= j < n ==> fetchDetail(incoming[j].url).Some?
    ensures n < |incoming| ==> fetchDetail(incoming[n].url).None?
  {
    if incoming == [] || fetchDetail(incoming[0].url).None? then 0
    else 1 + FetchedCount(incoming[1..], fetchDetail)
  }

  /** The fetched count is the position of the first failing fetch. */
  lemma {:induction false} FetchedCountIs(incoming: seq<ListItem>, fetchDetail: string -> Option<string>, n: nat)
    requires n <= |incoming|
    requires forall j :: 0 <= j < n ==> fetchDetail(incoming[j].url).Some?
    requires n < |incoming| ==> fetchDetail(incoming[n].url).None?
    ensures FetchedCount(incoming, fetchDetail) == n
  {
    if n > 0 {
      FetchedCountIs(incoming[1..], fetchDetail, n - 1);
    }
  }

  /** Every entry's detail page could be fetched. */
  predicate AllFetched(incoming: seq<ListItem>, fetchDetail: string -> Option<string>)
  {
    forall j :: 0 <= j < |incoming| ==> fetchDetail(incoming[j].url).Some?
  }

  /** A fetched page after a fetched prefix extends the prefix by one. */
  lemma FetchedOneMore(incoming: seq<ListItem>, fetchDetail: string -> Option<string>, i: nat)
    requires i < |incoming|
    requires AllFetched(incoming[..i], fetchDetail) && fetchDetail(incoming[i].url).Some?
    ensures AllFetched(incoming[..i + 1], fetchDetail)
  {
    assert forall j :: 0 <= j < i ==> incoming[..i][j] == incoming[j];
  }

  /** A fetched prefix followed by a failing fetch, or by nothing, is the fetched count. */
  lemma PrefixFetchedCount(incoming: seq<ListItem>, fetchDetail: string -> Option<string>, n: nat)
    requires n <= |incoming|
    requires AllFetched(incoming[..n], fetchDetail)
    requires n < |incoming| ==> fetchDetail(incoming[n].url).None?
    ensures FetchedCount(incoming, fetchDetail) == n
  {
    forall j | 0 <= j < n
      ensures fetchDetail(incoming[j].url).Some?
    {
      assert incoming[..n][j] == incoming[j];
    }
    FetchedCountIs(incoming, fetchDetail, n);
  }

  /** The records of fresh entries whose detail pages were all fetched, in order:
    * record `j` is built from entry `j`, the summary `describe` gives of its detail
    * page, and `clock(j)`. */
  function Records(incoming: seq<ListItem>, fetchDetail: string -> Option<string>,
                   describe: string -> DetailSummary, clock: nat -> int): (r: seq<Record>)
    requires AllFetched(incoming, fetchDetail)
    ensures |r| == |incoming|
  {
    if incoming == [] then []
    else
      var last := |incoming| - 1;
      Records(incoming[..last], fetchDetail, describe, clock)
        + [MakeRecord(incoming[last], describe(fetchDetail(incoming[last].url).value), clock(last))]
  }

  /** The notifications of a list of records, in order. */
  function Notes(records: seq<Record>): (r: seq<Notification>)
    ensures |r| == |records|
    ensures forall j :: 0 <= j < |records| ==> r[j] == NoteOf(records[j])
  {
    seq(|records|, j requires 0 <= j < |records| => NoteOf(records[j]))
  }

  /** A list backwards, by its last element. */
  function Reverse<T>(xs: seq<T>): (r: seq<T>)
    ensures |r| == |xs|
    ensures forall k :: 0 <= k < |xs| ==> r[k] == xs[|xs| - 1 - k]
  {
    if xs == [] then [] else [xs[|xs| - 1]] + Reverse(xs[..|xs| - 1])
  }

  /** `items.map(x => x.id)`. */
  function Ids(items: seq<ListItem>): (r: seq<string>)
    ensures |r| == |items|
    ensures forall k :: 0 <= k < |items| ==> r[k] == items[k].id
  {
    seq(|items|, k requires 0 <= k < |items| => items[k].id)
  }

  /** What a poll does once the listing has been extracted into `items`. */
  function PollListing(items: seq<ListItem>, state: State, fetchDetail: string -> Option<string>,
                       describe: string -> DetailSummary, clock: nat -> int): (r: Outcome)
    ensures items == [] ==> r == Failed([])
    ensures r.Updated? ==> |r.state.lastSeenIds| <= SeenLimit && |r.state.cacheItems| <= CacheLimit
    ensures r.Updated? ==> 0 < |r.notifications| <= |items|
    ensures r.Failed? && items != [] ==> |r.emitted| < |Fresh(items, state.lastSeenIds)|
  {
    if items == [] then Failed([])
    else
      var incoming := Fresh(items, state.lastSeenIds);
      var fetched := FetchedCount(incoming, fetchDetail);
      if incoming == [] then NoUpdates
      else if fetched < |incoming| then Failed(Notes(Records(incoming[..fetched], fetchDetail, describe, clock)))
      else
        var records := Records(incoming, fetchDetail, describe, clock);
        Updated(State(Take(Ids(items), SeenLimit), Take(Reverse(records) + state.cacheItems, CacheLimit)),
                Notes(records))
  }

  /** What a poll does, given the listing page (absent when its fetch throws), the
    * URL resolver, the stored state, the detail fetch, the detail summariser and
    * the clock. */
  function Poll(page: Option<ListPage>, resolve: string -> Option<string>, state: State,
                fetchDetail: string -> Option<string>, describe: string -> DetailSummary,
                clock: nat -> int): (r: Outcome)
    ensures page.None? ==> r == Failed([])
    ensures r.Updated? ==> |r.state.lastSeenIds| <= SeenLimit && |r.state.cacheItems| <= CacheLimit
    ensures r.Updated? ==> 0 < |r.notifications| <= |page.value.anchors|
  {
    if page.None? then Failed([])
    else match ListingItems(page.value.html, page.value.anchors, resolve)
      case None => Failed([])
      case Some(items) => PollListing(items, state, fetchDetail, describe, clock)
  }

  /** One more fetched entry adds its record at the end. */
  lemma {:induction false} RecordsStep(incoming: seq<ListItem>, fetchDetail: string -> Option<string>,
                    describe: string -> DetailSummary, clock: nat -> int, i: nat)
    requires i < |incoming|
    requires AllFetched(incoming[..i], fetchDetail) && AllFetched(incoming[..i + 1], fetchDetail)
    ensures Records(incoming[..i + 1], fetchDetail, describe, clock)
      == Records(incoming[..i], fetchDetail, describe, clock) + [MakeRecord(incoming[i], describe(fetchDetail(incoming[i].url).value), clock(i))]
  {
    assert incoming[..i + 1][..i] == incoming[..i];
  }

  /** Putting a record at the end of a list puts it at the front of the reversal. */
  lemma {:induction false} ReverseSnoc<T>(xs: seq<T>, x: T)
    ensures Reverse(xs + [x]) == [x] + Reverse(xs)
  {
    assert (xs + [x])[..|xs|] == xs;
  }

  /** A record added at the end adds its notification at the end. */
  lemma NotesSnoc(records: seq<Record>, r: Record)
    ensures Notes(records + [r]) == Notes(records) + [NoteOf(r)]
  {
  }

  /** One turn of the loop keeps the cache and the notifications in step with the
    * records of the entries handled so far. */
  lemma {:induction false} NotifyStep(incoming: seq<ListItem>, fetchDetail: string -> Option<string>,
                   describe: string -> DetailSummary, clock: nat -> int, i: nat,
                   cacheItems: seq<Record>, cache: seq<Record>, notes: seq<Notification>, record: Record)
    requires i < |incoming|
    requires AllFetched(incoming[..i], fetchDetail) && AllFetched(incoming[..i + 1], fetchDetail)
    requires cache == Reverse(Records(incoming[..i], fetchDetail, describe, clock)) + cacheItems
    requires notes == Notes(Records(incoming[..i], fetchDetail, describe, clock))
    requires record == MakeRecord(incoming[i], describe(fetchDetail(incoming[i].url).value), clock(i))
    ensures [record] + cache == Reverse(Records(incoming[..i + 1], fetchDetail, describe, clock)) + cacheItems
    ensures notes + [NoteOf(record)] == Notes(Records(incoming[..i + 1], fetchDetail, describe, clock))
  {
    var before := Records(incoming[..i], fetchDetail, describe, clock);
    var after := Records(incoming[..i + 1], fetchDetail, describe, clock);
    RecordsStep(incoming, fetchDetail, describe, clock, i);
    assert after == before + [record];
    ReverseSnoc(before, record);
    ConcatAssoc([record], Reverse(before), cacheItems);
    NotesSnoc(before, record);
  }

  /** The `for (const it of fresh)` loop of `checkForUpdates`: fetch and summarise
    * each fresh entry's detail page with `describe`, build its record, create its
    * notification and `unshift` the record onto the cache. The loop stops at the
    * first detail fetch that fails; `fetched` is how many entries were handled by
    * then. */
  method NotifyFresh(incoming: seq<ListItem>, cacheItems: seq<Record>, fetchDetail: string -> Option<string>,
                     describe: string -> DetailSummary, clock: nat -> int)
    returns (fetched: nat, cache: seq<Record>, notes: seq<Notification>)
    ensures fetched == FetchedCount(incoming, fetchDetail)
    ensures notes == Notes(Records(incoming[..fetched], fetchDetail, describe, clock))
    ensures fetched == |incoming| ==> cache == Reverse(Records(incoming, fetchDetail, describe, clock)) + cacheItems
    ensures fetched == |incoming| ==> notes == Notes(Records(incoming, fetchDetail, describe, clock))
  {
    cache := cacheItems;
    notes := [];
    for i := 0 to |incoming|
      invariant AllFetched(incoming[..i], fetchDetail)
      invariant cache == Reverse(Records(incoming[..i], fetchDetail, describe, clock)) + cacheItems
      invariant notes == Notes(Records(incoming[..i], fetchDetail, describe, clock))
    {
      var html := fetchDetail(incoming[i].url);
      if html.None? {
        PrefixFetchedCount(incoming, fetchDetail, i);
        return i, cache, notes;
      }
      FetchedOneMore(incoming, fetchDetail, i);
      var detail := describe(html.value);
      var record := MakeRecord(incoming[i], detail, clock(i));
      NotifyStep(incoming, fetchDetail, describe, clock, i, cacheItems, cache, notes, record);
      notes := notes + [NoteOf(record)];
      cache := [record] + cache;
    }
    PrefixFetchedCount(incoming, fetchDetail, |incoming|);
    assert incoming[..|incoming|] == incoming;
    fetched := |incoming|;
  }

  /** `checkForUpdates`: extract the listing, keep the entries not seen before,
    * handle them, then write the trimmed cache and the first 100 listing ids. */
  method CheckForUpdates(page: Option<ListPage>, resolve: string -> Option<string>, state: State,
                         fetchDetail: string -> Option<string>, clock: nat -> int)
    returns (outcome: Outcome)
    ensures outcome == Poll(page, resolve, state, fetchDetail, Describe, clock)
  {
    if page.None? {
      return Failed([]);
    }
    var extracted := ExtractListItems(page.value.html, page.value.anchors, resolve);
    if extracted.None? {
      return Failed([]);
    }
    var items := extracted.value;
    if |items| == 0 {
      return Failed([]);
    }
    var incoming := Fresh(items, state.lastSeenIds);
    if |incoming| == 0 {
      return NoUpdates;
    }
    var fetched, cache, notes := NotifyFresh(incoming, state.cacheItems, fetchDetail, Describe, clock);
    if fetched < |incoming| {
      return Failed(notes);
    }
    var trimmed := Take(cache, CacheLimit);
    var newIds := Take(Ids(items), SeenLimit);
    return Updated(State(newIds, trimmed), notes);
  }

  /** Record `j` is built from fresh entry `j` and stamped `clock(j)`. */
  lemma {:induction false} RecordsAt(incoming: seq<ListItem>, fetchDetail: string -> Option<string>,
                                     describe: string -> DetailSummary, clock: nat -> int, j: nat)
    requires forall k :: 0 <= k < |incoming| ==> fetchDetail(incoming[k].url).Some?
    requires j < |incoming|
    ensures Records(incoming, fetchDetail, describe, clock)[j]
      == MakeRecord(incoming[j], describe(fetchDetail(incoming[j].url).value), clock(j))
  {
    var last := |incoming| - 1;
    if j < last {
      RecordsAt(incoming[..last], fetchDetail, describe, clock, j);
    }
  }

  /** The outcome of a poll with a non-empty listing: nothing is written when every
    * listed id was seen before; the state is written exactly when there is a fresh
    * entry and every fresh entry's detail page was fetched; otherwise the poll fails
    * at the first detail fetch that throws, after notifying the entries before it. */
  lemma {:induction false} ListingOutcome(items: seq<ListItem>, state: State, fetchDetail: string -> Option<string>,
                       describe: string -> DetailSummary, clock: nat -> int)
    requires items != []
    ensures var o := PollListing(items, state, fetchDetail, describe, clock);
      o.NoUpdates? <==> forall k :: 0 <= k < |items| ==> items[k].id in state.lastSeenIds
    ensures var o := PollListing(items, state, fetchDetail, describe, clock);
      var incoming := Fresh(items, state.lastSeenIds);
      o.Updated? <==> incoming != [] && forall j :: 0 <= j < |incoming| ==> fetchDetail(incoming[j].url).Some?
    ensures var o := PollListing(items, state, fetchDetail, describe, clock);
      var incoming := Fresh(items, state.lastSeenIds);
      o.Failed? ==> (|o.emitted| < |incoming| && fetchDetail(incoming[|o.emitted|].url).None?
                     && forall j :: 0 <= j < |o.emitted| ==> o.emitted[j].id == incoming[j].id)
  {
    var incoming := Fresh(items, state.lastSeenIds);
    FreshEmpty(items, state.lastSeenIds);
    var fetched := FetchedCount(incoming, fetchDetail);
    if incoming != [] && fetched < |incoming| {
      var records := Records(incoming[..fetched], fetchDetail, describe, clock);
      forall j | 0 <= j < fetched ensures records[j].id == incoming[j].id {
        RecordsAt(incoming[..fetched], fetchDetail, describe, clock, j);
      }
    }
  }

  /** An update replaces the remembered ids (it does not merge them) by the first
    * 100 listed ids, in listing order. */
  lemma {:induction false} UpdatedSeen(items: seq<ListItem>, state: State, fetchDetail: string -> Option<string>,
                    describe: string -> DetailSummary, clock: nat -> int)
    requires PollListing(items, state, fetchDetail, describe, clock).Updated?
    ensures var seen := PollListing(items, state, fetchDetail, describe, clock).state.lastSeenIds;
      |seen| == (if |items| <= SeenLimit then |items| else SeenLimit)
        && forall k :: 0 <= k < |seen| ==> seen[k] == items[k].id
  {
  }

  /** The first `n` elements of `a + b`. */
  lemma TakeOfAppend<T>(a: seq<T>, b: seq<T>, n: nat)
    ensures var t := Take(a + b, n);
      |t| == (if |a| + |b| <= n then |a| + |b| else n)
        && (forall k :: 0 <= k < |t| && k < |a| ==> t[k] == a[k])
        && (forall k :: |a| <= k < |t| ==> t[k] == b[k - |a|])
  {
  }

  /** Position `k` of the reversed records holds the record of fresh entry
    * `|incoming| - 1 - k`: the newest record comes first. */
  lemma {:induction false} NewestFirst(incoming: seq<ListItem>, fetchDetail: string -> Option<string>,
                    describe: string -> DetailSummary, clock: nat -> int, k: nat)
    requires forall j :: 0 <= j < |incoming| ==> fetchDetail(incoming[j].url).Some?
    requires k < |incoming|
    ensures var front := Reverse(Records(incoming, fetchDetail, describe, clock));
      front[k].id == incoming[|incoming| - 1 - k].id && front[k].ts == clock(|incoming| - 1 - k)
  {
    RecordsAt(incoming, fetchDetail, describe, clock, |incoming| - 1 - k);
  }

  /** Within the cache limit, position `k` of the new cache holds the record of
    * fresh entry `|incoming| - 1 - k`. */
  lemma CacheFront(incoming: seq<ListItem>, fetchDetail: string -> Option<string>,
                   describe: string -> DetailSummary, clock: nat -> int, cacheItems: seq<Record>, k: nat)
    requires AllFetched(incoming, fetchDetail)
    requires k < |incoming| && k < CacheLimit
    ensures var cache := Take(Reverse(Records(incoming, fetchDetail, describe, clock)) + cacheItems, CacheLimit);
      k < |cache| && cache[k].id == incoming[|incoming| - 1 - k].id && cache[k].ts == clock(|incoming| - 1 - k)
  {
    var front := Reverse(Records(incoming, fetchDetail, describe, clock));
    TakeOfAppend(front, cacheItems, CacheLimit);
    NewestFirst(incoming, fetchDetail, describe, clock, k);
  }

  /** Past the fresh records, position `k` of the new cache holds position
    * `k - |incoming|` of the old cache. */
  lemma CacheRest(incoming: seq<ListItem>, fetchDetail: string -> Option<string>,
                  describe: string -> DetailSummary, clock: nat -> int, cacheItems: seq<Record>, k: nat)
    requires AllFetched(incoming, fetchDetail)
    requires |incoming| <= k < CacheLimit && k < |incoming| + |cacheItems|
    ensures var cache := Take(Reverse(Records(incoming, fetchDetail, describe, clock)) + cacheItems, CacheLimit);
      k < |cache| && cache[k] == cacheItems[k - |incoming|]
  {
    TakeOfAppend(Reverse(Records(incoming, fetchDetail, describe, clock)), cacheItems, CacheLimit);
  }

  /** The cache an update writes: the fresh records, newest first, in front of the
    * old cache, cut to the cache limit. */
  lemma UpdatedCache(items: seq<ListItem>, state: State, fetchDetail: string -> Option<string>,
                     describe: string -> DetailSummary, clock: nat -> int)
    requires PollListing(items, state, fetchDetail, describe, clock).Updated?
    ensures PollListing(items, state, fetchDetail, describe, clock).state.cacheItems
      == Take(Reverse(Records(Fresh(items, state.lastSeenIds), fetchDetail, describe, clock)) + state.cacheItems, CacheLimit)
  {
  }

  /** An update fetched the detail page of every fresh entry. */
  lemma UpdatedFetchedAll(items: seq<ListItem>, state: State, fetchDetail: string -> Option<string>,
                          describe: string -> DetailSummary, clock: nat -> int)
    requires PollListing(items, state, fetchDetail, describe, clock).Updated?
    ensures AllFetched(Fresh(items, state.lastSeenIds), fetchDetail)
  {
  }

  /** An update caches the fresh records, newest first, then as much of the old
    * cache as fits, up to 50 records in all. */
  lemma {:induction false} UpdatedCacheSize(items: seq<ListItem>, state: State, fetchDetail: string -> Option<string>,
                                            describe: string -> DetailSummary, clock: nat -> int)
    requires PollListing(items, state, fetchDetail, describe, clock).Updated?
    ensures var incoming := Fresh(items, state.lastSeenIds);
      var cache := PollListing(items, state, fetchDetail, describe, clock).state.cacheItems;
      |cache| == (if |incoming| + |state.cacheItems| <= CacheLimit then |incoming| + |state.cacheItems| else CacheLimit)
  {
    var incoming := Fresh(items, state.lastSeenIds);
    var front := Reverse(Records(incoming, fetchDetail, describe, clock));
    var cache := Take(front + state.cacheItems, CacheLimit);
    assert PollListing(items, state, fetchDetail, describe, clock).state.cacheItems == cache;
    TakeOfAppend(front, state.cacheItems, CacheLimit);
  }

  /** An update puts the fresh records at the front of the cache, newest first. */
  lemma {:induction false} UpdatedCacheNewest(items: seq<ListItem>, state: State, fetchDetail: string -> Option<string>,
                                              describe: string -> DetailSummary, clock: nat -> int)
    requires PollListing(items, state, fetchDetail, describe, clock).Updated?
    ensures var incoming := Fresh(items, state.lastSeenIds);
      var cache := PollListing(items, state, fetchDetail, describe, clock).state.cacheItems;
      forall k :: 0 <= k < |cache| && k < |incoming| ==>
        cache[k].id == incoming[|incoming| - 1 - k].id && cache[k].ts == clock(|incoming| - 1 - k)
  {
    var incoming := Fresh(items, state.lastSeenIds);
    UpdatedFetchedAll(items, state, fetchDetail, describe, clock);
    UpdatedCache(items, state, fetchDetail, describe, clock);
    var cache := Take(Reverse(Records(incoming, fetchDetail, describe, clock)) + state.cacheItems, CacheLimit);
    forall k | 0 <= k < |cache| && k < |incoming|
      ensures cache[k].id == incoming[|incoming| - 1 - k].id && cache[k].ts == clock(|incoming| - 1 - k)
    {
      CacheFront(incoming, fetchDetail, describe, clock, state.cacheItems, k);
    }
  }

  /** After the fresh records, the cache continues with the old cache in its order. */
  lemma {:induction false} UpdatedCacheOld(items: seq<ListItem>, state: State, fetchDetail: string -> Option<string>,
                                           describe: string -> DetailSummary, clock: nat -> int)
    requires PollListing(items, state, fetchDetail, describe, clock).Updated?
    ensures var incoming := Fresh(items, state.lastSeenIds);
      var cache := PollListing(items, state, fetchDetail, describe, clock).state.cacheItems;
      forall k :: |incoming| <= k < |cache| ==> cache[k] == state.cacheItems[k - |incoming|]
  {
    var incoming := Fresh(items, state.lastSeenIds);
    UpdatedFetchedAll(items, state, fetchDetail, describe, clock);
    UpdatedCache(items, state, fetchDetail, describe, clock);
    var cache := Take(Reverse(Records(incoming, fetchDetail, describe, clock)) + state.cacheItems, CacheLimit);
    forall k | |incoming| <= k < |cache|
      ensures cache[k] == state.cacheItems[k - |incoming|]
    {
      CacheRest(incoming, fetchDetail, describe, clock, state.cacheItems, k);
    }
  }

  /** An update creates one notification per fresh entry, in listing order, each for
    * an id that was not seen before. */
  lemma {:induction false} UpdatedNotifications(items: seq<ListItem>, state: State, fetchDetail: string -> Option<string>,
                             describe: string -> DetailSummary, clock: nat -> int)
    requires PollListing(items, state, fetchDetail, describe, clock).Updated?
    ensures var incoming := Fresh(items, state.lastSeenIds);
      var notes := PollListing(items, state, fetchDetail, describe, clock).notifications;
      |notes| == |incoming|
        && forall j :: 0 <= j < |incoming| ==> notes[j].id == incoming[j].id && incoming[j].id !in state.lastSeenIds
  {
    var incoming := Fresh(items, state.lastSeenIds);
    var records := Records(incoming, fetchDetail, describe, clock);
    forall j | 0 <= j < |incoming| ensures records[j].id == incoming[j].id && incoming[j].id !in state.lastSeenIds {
      RecordsAt(incoming, fetchDetail, describe, clock, j);
      FreshMeaning(items, state.lastSeenIds, incoming[j]);
    }
  }

  /** A listing the resolver accepts has distinct ids, so an update never notifies
    * the same id twice. */
  lemma {:induction false} NotificationsDistinct(page: Option<ListPage>, resolve: string -> Option<string>, state: State,
                              fetchDetail: string -> Option<string>, describe: string -> DetailSummary,
                              clock: nat -> int)
    requires Poll(page, resolve, state, fetchDetail, describe, clock).Updated?
    ensures var notes := Poll(page, resolve, state, fetchDetail, describe, clock).notifications;
      forall j, k :: 0 <= j < k < |notes| ==> notes[j].id != notes[k].id
  {
    var html, anchors := page.value.html, page.value.anchors;
    var items := ListingItems(html, anchors, resolve).value;
    ListingIds(html, anchors, resolve);
    FreshDistinct(items, state.lastSeenIds);
    UpdatedNotifications(items, state, fetchDetail, describe, clock);
  }

  /** A poll whose listing page could not be fetched, or one of whose links does
    * not resolve, fails before notifying anything. */
  lemma {:induction false} NoListingNoWrite(page: Option<ListPage>, resolve: string -> Option<string>, state: State,
                         fetchDetail: string -> Option<string>, describe: string -> DetailSummary,
                         clock: nat -> int)
    requires page.None? || !AllResolve(page.value.anchors, resolve)
      || ListingItems(page.value.html, page.value.anchors, resolve) == Some([])
    ensures Poll(page, resolve, state, fetchDetail, describe, clock) == Failed([])
  {
  }

  /** Records built from well-formed summaries of the fetched detail pages are
    * well formed. */
  lemma RecordsWellFormed(incoming: seq<ListItem>, fetchDetail: string -> Option<string>,
                          describe: string -> DetailSummary, clock: nat -> int)
    requires forall j :: 0 <= j < |incoming| ==> fetchDetail(incoming[j].url).Some?
    requires forall j :: 0 <= j < |incoming| ==> WellFormedDetail(describe(fetchDetail(incoming[j].url).value))
    ensures forall j :: 0 <= j < |incoming| ==>
      WellFormedRecord(Records(incoming, fetchDetail, describe, clock)[j])
  {
    forall j | 0 <= j < |incoming|
      ensures WellFormedRecord(Records(incoming, fetchDetail, describe, clock)[j])
    {
      RecordsAt(incoming, fetchDetail, describe, clock, j);
    }
  }

  /** Reversing well-formed records keeps them well formed. */
  lemma ReverseWellFormed(records: seq<Record>)
    requires forall k :: 0 <= k < |records| ==> WellFormedRecord(records[k])
    ensures forall k :: 0 <= k < |Reverse(records)| ==> WellFormedRecord(Reverse(records)[k])
  {
    forall k | 0 <= k < |Reverse(records)|
      ensures WellFormedRecord(Reverse(records)[k])
    {
      assert Reverse(records)[k] == records[|records| - 1 - k];
    }
  }

  /** The first records of two well-formed lists are well formed. */
  lemma TakeWellFormed(front: seq<Record>, rest: seq<Record>, n: nat)
    requires forall k :: 0 <= k < |front| ==> WellFormedRecord(front[k])
    requires forall k :: 0 <= k < |rest| ==> WellFormedRecord(rest[k])
    ensures forall k :: 0 <= k < |Take(front + rest, n)| ==> WellFormedRecord(Take(front + rest, n)[k])
  {
    TakeOfAppend(front, rest, n);
  }

  /** With a summariser whose results are all well formed, an update keeps every
    * cached record well formed: the fresh records are built from its results and
    * the rest are old records. */
  lemma {:induction false} UpdatedCacheWellFormed(items: seq<ListItem>, state: State,
                                                  fetchDetail: string -> Option<string>,
                                                  describe: string -> DetailSummary, clock: nat -> int)
    requires PollListing(items, state, fetchDetail, describe, clock).Updated?
    requires forall h :: WellFormedDetail(describe(h))
    requires forall k :: 0 <= k < |state.cacheItems| ==> WellFormedRecord(state.cacheItems[k])
    ensures var cache := PollListing(items, state, fetchDetail, describe, clock).state.cacheItems;
      forall k :: 0 <= k < |cache| ==> WellFormedRecord(cache[k])
  {
    var incoming := Fresh(items, state.lastSeenIds);
    assert FetchedCount(incoming, fetchDetail) == |incoming|;
    var records := Records(incoming, fetchDetail, describe, clock);
    RecordsWellFormed(incoming, fetchDetail, describe, clock);
    ReverseWellFormed(records);
    TakeWellFormed(Reverse(records), state.cacheItems, CacheLimit);
    UpdatedCache(items, state, fetchDetail, describe, clock);
  }

  /** The summariser of the extension produces well-formed details only, so its
    * cache stays well formed from poll to poll. */
  lemma CacheStaysWellFormed(page: Option<ListPage>, resolve: string -> Option<string>, state: State,
                             fetchDetail: string -> Option<string>, clock: nat -> int)
    requires Poll(page, resolve, state, fetchDetail, Describe, clock).Updated?
    requires forall k :: 0 <= k < |state.cacheItems| ==> WellFormedRecord(state.cacheItems[k])
    ensures var cache := Poll(page, resolve, state, fetchDetail, Describe, clock).state.cacheItems;
      forall k :: 0 <= k < |cache| ==> WellFormedRecord(cache[k])
  {
    var items := ListingItems(page.value.html, page.value.anchors, resolve).value;
    assert forall h :: WellFormedDetail(Describe(h));
    UpdatedCacheWellFormed(items, state, fetchDetail, Describe, clock);
  }

  /** With the extension's summariser, a notification's message opens with the
    * period label exactly when the record has a period; otherwise it opens with the
    * summary's bullet. */
  lemma PeriodLabelIffPeriod(it: ListItem, html: string, ts: int)
    ensures var r := MakeRecord(it, Describe(html), ts);
      var m := NoteOf(r).message;
      |m| > 0 && (m[0] == PeriodLabel[0] <==> r.period != "")
  {
    var r := MakeRecord(it, Describe(html), ts);
    assert r.summary[0] == '•' by {
      assert r.summary[..2][0] == '•';
    }
    var full := Message(r);
    if r.period != "" {
      assert full[0] == PeriodLabel[0];
    } else {
      assert full == r.summary;
    }
    assert NoteOf(r).message[0] == full[0];
  }
}
