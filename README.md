# Government-announcement watcher: the polling core

The browser extension watches a public listing of business-support announcements.
On each poll (`checkForUpdates` in `background.js`) it does the following:

- fetches the listing page and extracts its entries (`extractListItemsFromHTML`);
- keeps the entries whose ids were not seen by the previous poll;
- fetches each new entry's detail page and summarises it (`getTitleFromHTML`,
  `summarizeDetailFromHTML`, `extractPeriodFromHTML`);
- shows one notification per new entry;
- replaces its two persisted records: `lastSeenIds`, the first 100 listing ids, and
  `cacheItems`, the newest 50 records.

None of this uses a DOM. Every extractor is a chain of regular-expression passes
over the raw markup, normalised by `stripTags`.

This project models that pipeline in Dafny, one module per stage:

| file | module | models |
|---|---|---|
| `text.dfy` | `Text` | character classes, `indexOf`, `trim`, `slice`, date tokens, and `FirstMatch`, the leftmost-match loop of a regex engine |
| `markup.dfy` | `Markup` | `stripTags`: each `replace` pass is a left-to-right scanner |
| `detail.dfy` | `Detail` | `getTitleFromHTML` and `extractPeriodFromHTML` |
| `listing.dfy` | `Listing` | `extractListItemsFromHTML`: a method with the source's loop, proved equal to a specification function |
| `summary.dfy` | `Summary` | `summarizeDetailFromHTML`: snippet, split, scoring, stable sort, pick, render |
| `poll.dfy` | `Poll` | the state transition of `checkForUpdates`: a method with the source's loop, proved equal to the function `Poll` |

The regular expressions are written out as per-position tests. The one exception is the
anchor pattern, whose matches are an input. A non-global `match` is `FirstMatch` over
such a test, and a global `replace` is a recursive scanner.

Scores are exact integers, 80 times the source's value:
`160 * keywords + min(80, length)`. This preserves the order of the source's values.

A poll has one of three outcomes:

- `Failed(emitted)`: something threw. Nothing is written, and `emitted` holds the
  notifications already shown.
- `NoUpdates`: every listed id was seen before, so nothing is written.
- `Updated(state, notifications)`: the new state is written.

## Model

| member | source | states |
|---|---|---|
| `Text.IndexOf` | background.js:74 | the result is an occurrence at or after `from` with none before it, and `None` means there is no occurrence at all |
| `Text.IndexOfCI` | background.js:9-10 | the first occurrence ignoring ASCII case at or after `from`, with none before it; `None` means there is none at all |
| `Text.IndexOfIs` | background.js:74 | an occurrence with none before it, from `from` on, is exactly what `indexOf` returns |
| `Text.IndexOfCIIs` | background.js:20 | an occurrence ignoring ASCII case with none before it, from `from` on, is exactly what the case-insensitive search returns |
| `Text.AtSingle` | background.js:20 | a one-character pattern occurs at `m` exactly when that character is at `m` |
| `Text.NotAtMismatch` | background.js:12-13 | one differing character rules out an occurrence |
| `Text.AtInSlice` | background.js:83 | an occurrence inside a slice is an occurrence in the whole text at the shifted position |
| `Text.RunLengthIs` | background.js:39 | a run of `n` matching characters that ends the text or is followed by a non-matching one is the whole run |
| `Text.Contains` | background.js:99 | `includes` holds exactly when the pattern occurs at some position |
| `Text.FirstMatch` | background.js:20 | a non-global `match`: the leftmost position whose test succeeds, with what it matched, and no success before it; `None` means no position succeeds |
| `Text.Trim` | background.js:15 | the result is trimmed and is a contiguous slice of the input; everything outside the slice is whitespace; trimmed text is returned unchanged |
| `Text.TrimAllSpaces` | background.js:15 | text made only of whitespace trims to the empty string |
| `Text.TrimKeepsSpacing` | background.js:14-15 | trimming after collapsing keeps single, plain spaces |
| `Text.Slice` | background.js:86 | `slice` with clamped bounds: the exact slice when the bounds are in range, never longer than the input |
| `Text.Take` | background.js:167-168 | `slice(0, n)`: a prefix whose length is `n` or the whole length, whichever is smaller |
| `Text.DotsToDashes` | background.js:50 | same length; each `.` becomes `-` and every other character is kept |
| `Text.DateTokenNormalises` | background.js:49-50 | a date token with any mix of `.` and `-` becomes `DDDD-DD-DD`, with its digits unchanged |
| `Markup.DropBlocks` | background.js:9-10 | never lengthens its input; `DropBlocksNone` and `DropBlocksFirst` state what it produces |
| `Markup.DropBlocksNone` | background.js:9-10 | text with no block (an opening tag with a closing tag after it) comes back unchanged |
| `Markup.DropBlocksFirst` | background.js:9-10 | the text before the first block is kept as it is, and the block is removed up to the end of the nearest closing tag after it (lazy `[\s\S]*?`), any case |
| `Markup.ReplaceTags` | background.js:11 | never lengthens its input; `ReplaceTagsNone` and `ReplaceTagsFirst` state what it produces |
| `Markup.ReplaceTagsNone` | background.js:11 | text with no tag (`<`, at least one non-`>`, then `>`) comes back unchanged |
| `Markup.ReplaceTagsBefore` | background.js:11 | the text before the first tag is kept as it is |
| `Markup.ReplaceTagsFirst` | background.js:11 | the text before the first tag is kept as it is, and that tag, up to the nearest `>`, becomes one space |
| `Markup.ReplaceAll` | background.js:12-13 | replacing a pattern by a shorter string never lengthens the input; `ReplaceAllFirst`, `ReplaceAllAround` and `ReplaceAllIdentity` state what it produces |
| `Markup.ReplaceAllFirst` | background.js:12-13 | the text before the first occurrence is kept as it is, that occurrence becomes the replacement, and the scan resumes right after it (`/g`, no overlaps) |
| `Markup.ReplaceAllSplit` | background.js:12-13 | when no occurrence straddles position `m`, the pass over the text is the pass over the part before `m` followed by the pass over the rest |
| `Markup.ReplaceAllShift` | background.js:12-13 | scanning from `m + i` is scanning the suffix from `m` at `i` |
| `Markup.ReplaceAllAround` | background.js:12-13 | a piece whose first and last characters cannot sit inside an occurrence is rewritten independently of the text before and after it |
| `Markup.EntityAgainstEntity` | background.js:12-13 | an entity `&…;` cannot straddle another one, and is replaced only when it is the pattern itself |
| `Markup.SpaceAgainstAmp` | background.js:12-13 | the space that `&nbsp;` becomes is left alone by the `&amp;` pass |
| `Markup.DecodeEntities` | background.js:12-13 | the two entity passes never lengthen their input; `DecodeEntitiesAround` states what they produce |
| `Markup.Decoded` | background.js:12-13 | `&nbsp;` decodes to a space, `&amp;` to `&`, and every other entity to itself |
| `Markup.DecodeEntitiesAround` | background.js:12-13 | any entity `&…;` anywhere in the text is decoded in place, as `Decoded` says, and the text around it is decoded independently |
| `Markup.Collapse` | background.js:14 | the result has no two adjacent spaces and only plain spaces, and is never longer than the input; `CollapseIdentity` states that text with no whitespace comes back unchanged |
| `Markup.CollapseFirst` | background.js:14 | the text before the first whitespace is kept as it is, the whole run of whitespace becomes one plain space, and the scan resumes after the run |
| `Markup.CollapseKeepsSingleSpaces` | background.js:14 | single plain spaces between non-spaces are kept as they are |
| `Markup.StripTags` | background.js:7-15 | total; the result is trimmed, has no two adjacent spaces, has only plain spaces, and is never longer than the input |
| `Markup.DropBlocksIdentity` | background.js:9-10 | text without `<` has no block to drop |
| `Markup.ReplaceTagsIdentity` | background.js:11 | text without `<` has no tag to replace |
| `Markup.ReplaceAllIdentity` | background.js:12-13 | a pattern that never occurs leaves the text unchanged |
| `Markup.CollapseIdentity` | background.js:14 | text without whitespace from position `i` on is not changed by collapsing |
| `Markup.OtherEntitiesPassThrough` | background.js:12-13 | only `&nbsp;` and `&amp;` are decoded: any other entity, wherever it stands, comes out as it is while the text around it is decoded |
| `Markup.EntityFreeUnchanged` | background.js:12-13 | text in which neither `&nbsp;` nor `&amp;` occurs is not changed by decoding |
| `Markup.PlainTextOnlyNormalised` | background.js:7-15 | on text without markup, `stripTags` only decodes, collapses and trims |
| `Markup.NoAmpersandNoEntity` | background.js:12-13 | text without `&` is not changed by decoding |
| `Markup.PlainWordUnchanged` | background.js:7-15 | a word with no markup, entity or whitespace comes out unchanged |
| `Markup.AmpDecodedOnce` | background.js:13 | the `&amp;` pass turns `&amp;nbsp;` into `&nbsp;` |
| `Markup.NbspPassSkipsEscaped` | background.js:12 | the `&nbsp;` pass leaves `&amp;nbsp;` alone |
| `Markup.EscapedNbspDecoded` | background.js:12-13 | the two entity passes turn `&amp;nbsp;` into `&nbsp;` |
| `Markup.DecodedWordIsResult` | background.js:7-15 | markup-free text whose decoded form has no whitespace comes out decoded |
| `Markup.EscapedNbspStaysLiteral` | background.js:12-13 | because `&nbsp;` is decoded first, `stripTags("&amp;nbsp;")` is the literal `&nbsp;` |
| `Markup.NormalTextUnchanged` | background.js:7-15 | text with no `<` and no `&` that is already trimmed and single-spaced with plain spaces comes out of `stripTags` unchanged |
| `Detail.ElementBody` | background.js:20-23 | the content of a match is shorter than the page; `BodyMatches` and `BodySpanMatches` state which content it is |
| `Detail.BodyMatches` | background.js:20-23 | a match of `[^>]*>([\s\S]*?)` plus the closing tag is a span: the opening tag ends at the first `>`, the closing tag is the nearest one after it (any case), and the result is the text between them |
| `Detail.BodySpanMatches` | background.js:20-23 | conversely every such span is matched, with the text between the tags as the result |
| `Detail.TitleAt` | background.js:20 | a title match at `i` starts with `<title` (any case) and its content is shorter than the page |
| `Detail.TitleAtMatches` | background.js:20 | a title match at `i` is a title span: `<title`, the first `>` after it, the nearest `</title>` (any case) after that, and the result is the text between the two tags |
| `Detail.TitleSpanMatches` | background.js:20 | every title span at `i` is matched, with the text between the tags as the result |
| `Detail.TitleAroundText` | background.js:20 | `<title>` + `x` + `</title>` with no `<` in `x` matches at 0 with content `x` |
| `Detail.HeadingAt` | background.js:23 | a heading match at `i` starts with `<h1` or `<h2` (any case), its level character is `1` or `2`, and its content is shorter than the page |
| `Detail.HeadingAtMatches` | background.js:23 | a heading match at `i` is a heading span: `<h1` or `<h2`, the first `>` after it, the nearest closing tag of the same level (the back-reference `\1`, any case) after that, and the result is the text between the two tags |
| `Detail.HeadingSpanMatches` | background.js:23 | every heading span at `i` is matched, with the text between the tags as the result |
| `Detail.HeadingAroundText` | background.js:23 | `<hN>` + `x` + `</hN>` for `N` in 1, 2 with no `<` in `x` matches at 0 with content `x` |
| `Detail.HeadingLevel` | background.js:23 | the level character of `<h1`/`<h2` in any case is `1` or `2` |
| `Detail.MismatchedHeadingIgnored` | background.js:23 | `<h1>a</h2>` is not a heading: the closing level must equal the opening one |
| `Detail.FirstTitle` | background.js:20 | the leftmost title element, with no title element before it |
| `Detail.FirstHeading` | background.js:23 | the leftmost closed heading, with no heading before it |
| `Detail.GetTitle` | background.js:18-27 | the title is the placeholder or no longer than the page |
| `Detail.TitleElementWins` | background.js:20-21 | when the first title element has non-empty raw content, the title is that content stripped, even if it strips to `""` |
| `Detail.HeadingIsSecondChoice` | background.js:23-24 | with no usable title element, the first closed heading with non-empty raw content gives the title |
| `Detail.PlaceholderOtherwise` | background.js:20-26 | when the first title element is absent or has empty content, and the first closed heading is absent or has empty content (such as `<title></title>`), the title is `새 공고` |
| `Detail.PeriodAt` | background.js:113 | a period match at `i` consists of two date tokens |
| `Detail.PeriodAtMatches` | background.js:113 | a period match at `i` is a period span: a date token at `i`, spaces, one of `~ - –`, spaces, a date token at `k`, and the result is those two tokens |
| `Detail.PeriodSpanMatches` | background.js:113 | every period span at `i` is matched, with its two date tokens as the result: each `\s*` can only end at the end of its run |
| `Detail.PeriodSpanFound` | background.js:113 | in a period span the separator and the second date sit right after the runs of spaces that follow the first date and the separator |
| `Detail.PeriodExample` | background.js:113 | `2024.01.02 ~ 2024-02-01` matches at 0 with both dates as written |
| `Detail.FirstPeriod` | background.js:113 | the leftmost date range of the normalised page, with none before it |
| `Detail.RenderPeriod` | background.js:114 | the rendered range has the form `DDDD-DD-DD ~ DDDD-DD-DD`; its first ten characters are the first date with dots turned into dashes, and its last ten the second |
| `Detail.FirstPeriodAt` | background.js:113 | a period span with no period match before it is the leftmost match, with its two dates |
| `Detail.ExtractPeriodFirstRange` | background.js:111-115 | when the leftmost range of the normalised page spans `i`..`k`, the period is the date at `i` and the date at `k`, each with dots turned into dashes |
| `Detail.ExtractPeriod` | background.js:111-116 | the period is `""` or of the form `DDDD-DD-DD ~ DDDD-DD-DD` |
| `Detail.PeriodEmptyIffNoRange` | background.js:113-115 | the period is `""` exactly when the normalised page has no date range anywhere |
| `Listing.IdAt` | background.js:39 | an id matches at `i` exactly when `pblancId=` is there followed by an id character; the id matches `[A-Za-z0-9_-]+` and is the whole run of id characters after `pblancId=` |
| `Listing.IdExample` | background.js:39 | in `pblancId=PB_1&x` the id is `PB_1` |
| `Listing.ExtractId` | background.js:39-40 | an id is found exactly when some position matches; the id found is the one of the leftmost matching position, and it matches `[A-Za-z0-9_-]+` |
| `Listing.WindowStart` | background.js:46 | `max(0, index - 400)`: the window starts at 0 or exactly 400 characters before the match, and never after it |
| `Listing.WindowEnd` | background.js:47 | `min(length, lastIndex + 400)`: the window ends at the page end or exactly 400 characters after the match end, whichever comes first, and not before the match end |
| `Listing.FirstDate` | background.js:49 | the leftmost date token of the window, with none before it |
| `Listing.DateIn` | background.js:49-50 | the date is `""` exactly when the text has no date token; otherwise it is the leftmost date token with dots turned into dashes, and is `DDDD-DD-DD` |
| `Listing.NearbyDate` | background.js:46-50 | an entry's date is `""` exactly when its normalised window has no date token; otherwise it is the window's leftmost date token with dots turned into dashes |
| `Listing.LinkOf` | background.js:38-39 | a resolved anchor keeps its anchor and URL, and any id it carries matches `[A-Za-z0-9_-]+` |
| `Listing.Kept` | background.js:40-43 | the kept positions are increasing, each is the first link carrying its id, and there are at most as many as links |
| `Listing.ItemOf` | background.js:44-51 | an entry carries its link's id and URL, the anchor's inner markup stripped as its title, and the date found near the anchor (`NearbyDate`), which is `""` or `DDDD-DD-DD` |
| `Listing.Entries` | background.js:36-53 | one entry per kept link |
| `Listing.ListingItems` | background.js:30-54 | a listing exists exactly when every `href` resolves; it has at most one entry per anchor, and its ids are pairwise distinct |
| `Listing.KeptStep` | background.js:40-43 | a new link is kept exactly when it has an id that is not yet in `seen` |
| `Listing.EntriesStep` | background.js:40-51 | a new link adds its entry exactly when its id is present and new; earlier entries are unchanged |
| `Listing.FirstWithSameId` | background.js:42 | every link with an id shares it with a first occurrence at or before it |
| `Listing.KeptComplete` | background.js:42-43 | every first occurrence of an id is kept |
| `Listing.EntriesIds` | background.js:40-43 | entry ids are pairwise distinct and are exactly the ids of the links: none is lost, none repeated |
| `Listing.SeenIdsStep` | background.js:43 | a new link adds its id, if any, to `seen` |
| `Listing.LinksBuilt` | background.js:36-38 | links built anchor by anchor are the links of the whole listing |
| `Listing.ExtractStep` | background.js:40-51 | one loop turn keeps `items` and `seen` equal to the entries and ids of the links so far |
| `Listing.LinksSoFarStep` | background.js:38 | resolving one more anchor extends the links so far by its link |
| `Listing.ExtractListItems` | background.js:30-54 | the loop's result equals `ListingItems`: the entries of the first anchor of each id in document order, or failure when some `href` does not resolve |
| `Listing.ListingIds` | background.js:39-43 | listing ids are pairwise distinct, each matches `[A-Za-z0-9_-]+`, and they are exactly the ids found in the resolved links |
| `Listing.FirstAnchorWins` | background.js:42-43 | the entry of an id is built from the first anchor carrying it |
| `Listing.EntriesPrefix` | background.js:51 | entries keep document order: more anchors only append entries |
| `Listing.EntryFields` | background.js:44-51 | entry `k` has the id and URL of the `k`-th kept link, a trimmed title stripped from that link's anchor, and the date `NearbyDate` finds around that anchor, `""` or `DDDD-DD-DD` |
| `Listing.WindowAroundMatch` | background.js:46-48 | `0 <= windowStart <= index` and `lastIndex <= windowEnd <= length`, and the window is that exact slice |
| `Summary.EarliestStop` | background.js:78-82 | `cut` is the first position of any stop heading, or the end; no stop heading occurs before it |
| `Summary.CutAtStops` | background.js:78-82 | the stop loop computes `EarliestStop` |
| `Summary.Snippet` | background.js:73-87 | the snippet is never longer than the normalised page; `SnippetWithMarker` and `SnippetWithoutMarker` state which text it is |
| `Summary.SnippetWithMarker` | background.js:74-83 | when `사업개요` occurs, the snippet is the text from the end of its first occurrence up to the earliest stop heading after it, with only whitespace trimmed from both ends |
| `Summary.TrimSection` | background.js:83 | trimming a section of the text gives a trimmed slice of that section with only whitespace around it |
| `Summary.TrimmedPrefixAvoids` | background.js:83 | the trimmed text before the first occurrence of a word contains no occurrence of it |
| `Summary.SectionAvoidsStops` | background.js:77-83 | the trimmed section before the earliest stop contains none of the stops |
| `Summary.SnippetHasNoStop` | background.js:74-83 | when `사업개요` occurs, the snippet contains none of the six stop headings |
| `Summary.SnippetWithoutMarker` | background.js:86 | without `사업개요`, the snippet is exactly the first 800 characters |
| `Summary.DelimAt` | background.js:90 | a separator matches at `q` exactly when one of its three alternatives does there |
| `Summary.SplitFrom` | background.js:90 | at least one piece, and every piece of the split is free of separators |
| `Summary.SplitSeparators` | background.js:90 | one separator fewer than pieces, each non-empty |
| `Summary.SplitRoundTrip` | background.js:90 | the pieces with the matched separators put back between them give back the text split |
| `Summary.SplitIsLossless` | background.js:90 | `split` loses nothing: joining its pieces with the separators it matched gives back the snippet |
| `Summary.Split` | background.js:90 | at least one piece, each free of separators |
| `Summary.TrimKeepsNoBoundary` | background.js:91 | trimming a piece keeps it free of separators |
| `Summary.KeepSentences` | background.js:91-92 | every kept sentence is trimmed, 1 to 279 characters long, and free of separators; never more sentences than pieces |
| `Summary.KeptComesFromPiece` | background.js:91-92 | whatever is kept is the trimmed form of some piece, 1 to 279 characters long |
| `Summary.PieceIsKept` | background.js:91-92 | the trimmed form of every piece that is 1 to 279 characters long is kept |
| `Summary.KeepSentencesMeaning` | background.js:91-92 | a string is kept exactly when it is the trimmed form of some piece and is 1 to 279 characters long |
| `Summary.KeepSentencesAppend` | background.js:91-92 | the filter keeps the order of the pieces: it distributes over concatenation |
| `Summary.Sentences` | background.js:89-92 | every sentence of a snippet is trimmed, 1 to 279 characters long, and free of separators |
| `Summary.SentencesMeaning` | background.js:89-92 | the sentences are exactly the trimmed pieces of the split that are 1 to 279 characters long |
| `Summary.KeywordCount` | background.js:99 | at most the number of keywords |
| `Summary.FoundCons` | background.js:99 | the keywords found are the first one, if it occurs, and those found among the rest |
| `Summary.DistinctTail` | background.js:94 | the keywords after the first are distinct and differ from it |
| `Summary.KeywordCountIsFound` | background.js:99 | over a list of distinct keywords, the count is the number of different keywords that occur in the sentence, however often each occurs |
| `Summary.KeywordsDistinct` | background.js:94 | the twelve domain keywords are distinct |
| `Summary.Score` | background.js:99 | 80 times the score: the quotient by 160 is the keyword count, and the length term left over is at most 80 |
| `Summary.ScoreOrder` | background.js:99 | more keywords always outrank fewer, whatever the lengths; with as many keywords, the order is that of `min(80, length)` |
| `Summary.Insert` | background.js:101 | insertion keeps the list sorted by descending score and adds one element |
| `Summary.Ranked` | background.js:97-101 | the ranking has one entry per sentence, is sorted by descending score, and is a permutation of the scored sentences |
| `Summary.SortByScore` | background.js:101 | the result is sorted by descending score and has the same length |
| `Summary.InsertPermutes` | background.js:101 | insertion adds exactly the inserted element to the multiset |
| `Summary.SortPermutes` | background.js:101 | the sort is a permutation: no sentence is lost or duplicated |
| `Summary.InsertStable` | background.js:101 | an inserted element goes after the elements of its own score |
| `Summary.SortStable` | background.js:101 | the sort is stable: sentences with equal scores keep their original order |
| `Summary.MoreKeywordsFirst` | background.js:99-101 | a sentence with more distinct keywords always ranks before one with fewer |
| `Summary.Pick` | background.js:96-105 | one to three picks; `PickIsTop` and `FallbackPick` state which |
| `Summary.PickIsTop` | background.js:101-102 | with at least one sentence, the picks are the first `min(3, n)` ranked sentences in rank order, so no pick scores higher than the one before it |
| `Summary.RankedEntries` | background.js:97-102 | every ranked entry is one of the sentences, with its own score |
| `Summary.PickedAreBest` | background.js:101-102 | every pick is a sentence, and no sentence left out has a higher score or more keywords than a pick |
| `Summary.FallbackPick` | background.js:104 | with no sentence, the single pick is exactly `snippet.slice(0, 180)` |
| `Summary.Join` | background.js:106 | joining no element gives `""`; one element gives itself; two or three elements give them with the separator between each two |
| `Summary.JoinLength` | background.js:106 | the joined length is the pieces' total length plus one separator between each two |
| `Summary.Bulleted` | background.js:106 | the bulleted text starts with `• `; for one, two or three picks it is each pick after `• `, the picks separated by a line break (`"\n• "` between them) |
| `Summary.Render` | background.js:106-107 | the summary starts with `• ` and has at most 501 characters |
| `Summary.RenderCut` | background.js:107 | a summary that was cut is the first 500 characters plus `…`; one that was not cut is the bulleted text itself |
| `Summary.EllipsisWithoutCut` | background.js:107 | a summary can end with `…` without having been cut |
| `Summary.Summarize` | background.js:69-109 | the summary starts with `• ` and has at most 501 characters |
| `Summary.SummarizeDetail` | background.js:69-109 | the method's result equals `Summarize` |
| `Poll.Describe` | background.js:118-124 | the period is `""` or a rendered range; the summary starts with `• ` and has at most 501 characters |
| `Poll.FetchAndSummarize` | background.js:118-124 | the method's result equals `Describe` of the fetched markup |
| `Poll.Fresh` | background.js:133-134 | never more entries than listed |
| `Poll.FreshMeaning` | background.js:133-134 | an entry is fresh exactly when it is listed and its id is not in `lastSeenIds` |
| `Poll.FreshAppend` | background.js:134 | the filter keeps listing order, since it distributes over concatenation |
| `Poll.FreshEmpty` | background.js:134-136 | nothing is fresh exactly when every listed id was seen before |
| `Poll.FreshDistinct` | background.js:134 | filtering keeps ids pairwise distinct |
| `Poll.MakeRecord` | background.js:145-153 | a record takes the entry's id, URL and date, the listing title unless it is empty (otherwise the detail title), the detail period and summary, and the timestamp; a well-formed detail (period `""` or a rendered range, summary starting with `• ` and at most 501 characters) gives a well-formed record |
| `Poll.Message` | background.js:155 | without a period the message is the summary; with one it is `[기간] `, the period itself, a line break, then the summary |
| `Poll.NoteOf` | background.js:155-162 | a notification has the record's id and title and a message of at most 900 characters |
| `Poll.MessageCut` | background.js:155-159 | the message shown is the full message cut to its first 900 characters |
| `Poll.FetchedCount` | background.js:143-144 | the count of leading fresh entries whose detail fetch succeeds; the next fetch fails |
| `Poll.FetchedCountIs` | background.js:143-144 | the count is the position of the first failing fetch |
| `Poll.PrefixFetchedCount` | background.js:143-144 | where the loop stops, after a run of successful fetches and at a failing one or at the end, is the fetched count |
| `Poll.Records` | background.js:143-153 | one record per fresh entry |
| `Poll.Reverse` | background.js:164 | same length, with element `k` taken from position `length - 1 - k` |
| `Poll.RecordsStep` | background.js:143-153 | one more fetched entry adds its record at the end |
| `Poll.ReverseSnoc` | background.js:164 | `unshift` of the newest record is reversal of a list grown at the end |
| `Poll.NotesSnoc` | background.js:156-162 | one more record adds its notification at the end |
| `Poll.NotifyStep` | background.js:143-165 | one loop turn keeps the cache and the notifications in step with the records so far |
| `Poll.NotifyFresh` | background.js:143-165 | the loop stops at the first failing detail fetch; the notifications are those of the records built so far; when every fetch succeeds, the cache is the reversed records in front of the old cache |
| `Poll.PollListing` | background.js:130-172 | an empty listing fails; an update remembers at most 100 ids, caches at most 50 records and notifies between one and as many entries as were listed; a failure has notified fewer entries than were fresh |
| `Poll.Poll` | background.js:126-172 | a missing listing page fails; an update remembers at most 100 ids, caches at most 50 records and notifies at least one entry and at most one per anchor |
| `Poll.CheckForUpdates` | background.js:126-172 | the method's outcome equals the function `Poll` with the extension's summariser |
| `Poll.RecordsAt` | background.js:145-153 | record `j` is built from fresh entry `j` and stamped `clock(j)` |
| `Poll.ListingOutcome` | background.js:130-172 | with a non-empty listing: no update exactly when every id was seen; an update exactly when something is fresh and every detail fetch succeeds; otherwise a failure at the first failing fetch, after notifying the fresh entries before it |
| `Poll.UpdatedSeen` | background.js:168-169 | `lastSeenIds` is replaced (not merged) by the first 100 listing ids, in listing order |
| `Poll.NewestFirst` | background.js:164 | after the `unshift`s, position `k` holds the record of fresh entry `length - 1 - k` |
| `Poll.UpdatedCacheSize` | background.js:164-167 | the new cache has exactly `min(fresh + old, 50)` records, where `fresh` counts the fresh records and `old` the records cached before |
| `Poll.CacheFront` | background.js:164-167 | within the limit, position `k` of the new cache holds the record of fresh entry `length - 1 - k` with its timestamp |
| `Poll.CacheRest` | background.js:164-167 | past the fresh records and within the limit, position `k` of the new cache holds position `k - fresh` of the old cache |
| `Poll.UpdatedCacheNewest` | background.js:164-167 | the fresh records come first in the new cache, newest first |
| `Poll.UpdatedCacheOld` | background.js:164-167 | after the fresh records, the new cache continues with the old cache in its order |
| `Poll.UpdatedNotifications` | background.js:143-162 | one notification per fresh entry, in listing order, each for an id not seen before |
| `Poll.NotificationsDistinct` | background.js:130-162 | an update never notifies the same id twice |
| `Poll.NoListingNoWrite` | background.js:128-130 | when the listing fetch throws, some `href` does not resolve, or the listing is empty, the poll fails before notifying anything |
| `Poll.RecordsWellFormed` | background.js:143-153 | records built from well-formed summaries of the fetched pages are well formed |
| `Poll.TakeWellFormed` | background.js:167 | the first `n` records of two well-formed lists are well formed |
| `Poll.UpdatedCacheWellFormed` | background.js:143-169 | with a summariser that only gives well-formed details, an update keeps every cached record well formed |
| `Poll.CacheStaysWellFormed` | background.js:118-169 | with the extension's own summariser, a well-formed cache stays well formed from poll to poll |
| `Poll.PeriodLabelIffPeriod` | background.js:155 | a message starts with the `[기간]` label exactly when the record has a period |

## Left out

- The network. `fetchText` (background.js:56-66) and its timeout and status handling
  are not modelled. The listing page is an `Option` input, where `None` stands for a
  fetch that throws. The detail fetch is the oracle `fetchDetail`: a URL maps to
  markup, or to `None` when the fetch throws.
- The anchor pattern (background.js:34) is not re-implemented. Its matches are the
  input `anchors` (`href`, inner markup, `index`, `lastIndex`), in the order
  `regex.exec` returns them.
- `new URL(href, LIST_URL)` (background.js:38) is the uninterpreted function
  `resolve`, where `None` stands for the `TypeError` it throws.
- `Date.now()` (background.js:152) is the oracle `clock`, indexed by the position of
  the fresh entry.
- All `chrome.*` calls are left out:
  - storage get and set: the state is an input, and the outcome says what is written;
  - badge text and colour, including `showToastIfNone`;
  - `notifications.create`, beyond the notification's id, title and message;
  - alarms, listeners and `tabs.create`.
  `popup.js` is not part of this model.
- Concurrent polls. The code has no locking, and a poll is modelled as one atomic step.
- Lengths. They count code points, where JavaScript counts UTF-16 units. The two
  agree on the Basic Multilingual Plane.
- Whitespace. `\s` is a fixed character class, with no Unicode database behind it.
  `Lower` folds ASCII only, which is all the case-insensitive patterns here need.
- The split's `[\n\r]+` alternative (background.js:90) is modelled, but it can never
  fire on a snippet, since `stripTags` has already turned every line break into a space.
- `Poll.NotifyFresh`: it is proved for any detail summariser `describe`.
  `Poll.CheckForUpdates` passes the extension's summariser, `Poll.Describe`.
- `Summary.Render`: the summary can be 501 characters long (500 characters plus
  `…`), not 500. Ending with `…` does not imply that the summary was cut, because a
  picked sentence can end with `…` of its own (`Summary.EllipsisWithoutCut`). So only
  the direction "cut implies ending with `…`" is stated (`Summary.RenderCut`).
- `Poll.MakeRecord`: `it.date || ""` and `detail.period || ""` are the plain
  values, since both are always strings.
- `Summary.Join`: its contract gives the exact result for up to three elements,
  which is every list `Summary.Pick` produces, and `Summary.JoinLength` gives the
  length for any number. The exact result for longer lists is not stated.
