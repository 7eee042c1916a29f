/**
 * Title and validity period of a detail page (`getTitleFromHTML` and
 * `extractPeriodFromHTML` in background.js). Each regular expression is a
 * per-position test, and `FirstMatch` picks the leftmost position where it holds.
 */
module Detail {
  import opened Text
  import opened Markup

  /** Placeholder title used when the page has neither a title nor a heading. */
  const FallbackTitle: string := "새 공고"

  /** The tail shared by the title and heading patterns, `[^>]*>([\s\S]*?)` followed
    * by the closing tag `close`, tried after the tag name that ends at `from`: the
    * result is the raw content between the opening and the closing tag. */
  function ElementBody(s: string, from: nat, close: string): (r: Option<string>)
    ensures r.Some? ==> |r.value| < |s|
  {
    match IndexOf(s, ">", from)
    case None => None
    case Some(j) =>
      match IndexOfCI(s, close, j + 1)
      case None => None
      case Some(k) => Some(s[j + 1..k])
  }

  /** The tail matches with the opening tag ending at `j` and the closing tag at `k`:
    * `[^>]*` stops at the first `>` at or after `from`, and the lazy `[\s\S]*?`
    * stops at the nearest `close` after that. */
  predicate BodySpan(s: string, from: nat, j: nat, k: nat, close: string) {
    from <= j < k && AtCI(s, k, close)
    && s[j] == '>' && CharAbsent(s, '>', from, j)
    && NoneCIBetween(s, close, j + 1, k)
  }

  /** A match of the tail is a span, and its result is the content of the span. */
  lemma BodyMatches(s: string, from: nat, close: string)
    requires ElementBody(s, from, close).Some?
    ensures exists j: nat, k: nat ::
      BodySpan(s, from, j, k, close) && ElementBody(s, from, close).value == s[j + 1..k]
  {
    var j := IndexOf(s, ">", from).value;
    var k := IndexOfCI(s, close, j + 1).value;
    OpenTagEnds(s, from, j);
    assert BodySpan(s, from, j, k, close);
  }

  /** Every span is matched, with its content as the result. */
  lemma BodySpanMatches(s: string, from: nat, j: nat, k: nat, close: string)
    requires BodySpan(s, from, j, k, close)
    ensures ElementBody(s, from, close) == Some(s[j + 1..k])
  {
    FirstCloseAngle(s, from, j);
    IndexOfCIIs(s, close, j + 1, k);
  }

  /** The title pattern matches at `i` with its opening tag ending at `j` and its
    * closing tag, the nearest `</title>`, at `k`. */
  predicate TitleSpan(s: string, i: nat, j: nat, k: nat) {
    AtCI(s, i, "<title") && BodySpan(s, i + 6, j, k, "</title>")
  }

  /** `<title[^>]*>([\s\S]*?)<\/title>` (case-insensitive) tried at `i`. */
  function TitleAt(s: string, i: nat): (r: Option<string>)
    ensures r.Some? ==> AtCI(s, i, "<title") && |r.value| < |s|
  {
    if !AtCI(s, i, "<title") then None
    else ElementBody(s, i + 6, "</title>")
  }

  /** A title match is a title span, and its result is the content of the span. */
  lemma TitleAtMatches(s: string, i: nat)
    requires TitleAt(s, i).Some?
    ensures exists j: nat, k: nat :: TitleSpan(s, i, j, k) && TitleAt(s, i).value == s[j + 1..k]
  {
    BodyMatches(s, i + 6, "</title>");
    var j: nat, k: nat :| BodySpan(s, i + 6, j, k, "</title>") && TitleAt(s, i).value == s[j + 1..k];
    assert TitleSpan(s, i, j, k);
  }

  /** Every title span is matched, with its content as the result. */
  lemma TitleSpanMatches(s: string, i: nat, j: nat, k: nat)
    requires TitleSpan(s, i, j, k)
    ensures TitleAt(s, i) == Some(s[j + 1..k])
  {
    BodySpanMatches(s, i + 6, j, k, "</title>");
  }

  /** The first `>` at or after `from` is what `indexOf(">")` finds. */
  lemma FirstCloseAngle(s: string, from: nat, j: nat)
    requires from <= j < |s| && s[j] == '>'
    requires CharAbsent(s, '>', from, j)
    ensures IndexOf(s, ">", from) == Some(j)
  {
    forall m | from <= m < j
      ensures !At(s, m, ">")
    {
      AtSingle(s, m, '>');
    }
    AtSingle(s, j, '>');
    IndexOfIs(s, ">", from, j);
  }

  /** What `indexOf(">")` finds is the first `>`. */
  lemma OpenTagEnds(s: string, from: nat, j: nat)
    requires IndexOf(s, ">", from) == Some(j)
    ensures j < |s| && s[j] == '>'
    ensures CharAbsent(s, '>', from, j)
  {
    AtSingle(s, j, '>');
    forall m | from <= m < j
      ensures s[m] != '>'
    {
      AtSingle(s, m, '>');
    }
  }

  /** The level character of an opening `h1`/`h2` is the digit itself: only an
    * ASCII capital letter is folded. */
  lemma HeadingLevel(s: string, i: nat)
    requires AtCI(s, i, "<h1") || AtCI(s, i, "<h2")
    ensures s[i + 2] == '1' || s[i + 2] == '2'
  {
    var pat := if AtCI(s, i, "<h1") then "<h1" else "<h2";
    assert Lower(s[i + 2]) == pat[2];
  }

  /** The closing tag `</h1>` or `</h2>` named by a level character. */
  function CloseTag(level: char): string {
    "</h" + [level] + ">"
  }

  /** The heading pattern matches at `i` with its opening tag ending at `j` and its
    * closing tag, the nearest one of the same level, at `k`. */
  predicate HeadingSpan(s: string, i: nat, j: nat, k: nat) {
    (AtCI(s, i, "<h1") || AtCI(s, i, "<h2"))
    && BodySpan(s, i + 3, j, k, CloseTag(s[i + 2]))
  }

  /** `<(h1|h2)[^>]*>([\s\S]*?)<\/\1>` (case-insensitive) tried at `i`: the heading
    * must be closed by the same level, `</h1>` for `<h1` and `</h2>` for `<h2`. */
  function HeadingAt(s: string, i: nat): (r: Option<string>)
    ensures r.Some? ==> (AtCI(s, i, "<h1") || AtCI(s, i, "<h2")) && |r.value| < |s|
    ensures r.Some? ==> s[i + 2] == '1' || s[i + 2] == '2'
  {
    if !(AtCI(s, i, "<h1") || AtCI(s, i, "<h2")) then None
    else
      HeadingLevel(s, i);
      ElementBody(s, i + 3, CloseTag(s[i + 2]))
  }

  /** A heading match is a heading span, and its result is the content of the span. */
  lemma HeadingAtMatches(s: string, i: nat)
    requires HeadingAt(s, i).Some?
    ensures exists j: nat, k: nat :: HeadingSpan(s, i, j, k) && HeadingAt(s, i).value == s[j + 1..k]
  {
    var close := CloseTag(s[i + 2]);
    BodyMatches(s, i + 3, close);
    var j: nat, k: nat :| BodySpan(s, i + 3, j, k, close) && HeadingAt(s, i).value == s[j + 1..k];
    assert HeadingSpan(s, i, j, k);
  }

  /** Every heading span is matched, with its content as the result. */
  lemma HeadingSpanMatches(s: string, i: nat, j: nat, k: nat)
    requires HeadingSpan(s, i, j, k)
    ensures HeadingAt(s, i) == Some(s[j + 1..k])
  {
    BodySpanMatches(s, i + 3, j, k, CloseTag(s[i + 2]));
  }

  /** `html.match(...)` for the title pattern: the leftmost title element. */
  function FirstTitle(html: string): (r: Option<(nat, string)>)
    ensures r.Some? ==> r.value.0 < |html| && TitleAt(html, r.value.0) == Some(r.value.1)
    ensures r.Some? ==> forall j :: 0 <= j < r.value.0 ==> TitleAt(html, j).None?
    ensures r.None? ==> forall j :: 0 <= j < |html| ==> TitleAt(html, j).None?
  {
    var at := i => TitleAt(html, i);
    assert forall j :: TitleAt(html, j) == at(j);
    FirstMatch(0, |html|, at)
  }

  /** `html.match(...)` for the heading pattern: the leftmost closed heading. */
  function FirstHeading(html: string): (r: Option<(nat, string)>)
    ensures r.Some? ==> r.value.0 < |html| && HeadingAt(html, r.value.0) == Some(r.value.1)
    ensures r.Some? ==> forall j :: 0 <= j < r.value.0 ==> HeadingAt(html, j).None?
    ensures r.None? ==> forall j :: 0 <= j < |html| ==> HeadingAt(html, j).None?
  {
    var at := i => HeadingAt(html, i);
    assert forall j :: HeadingAt(html, j) == at(j);
    FirstMatch(0, |html|, at)
  }

  /** `getTitleFromHTML`: the first title element if its raw content is non-empty,
    * else the first closed `h1`/`h2` heading if its raw content is non-empty,
    * else the placeholder. */
  function GetTitle(html: string): (r: string)
    ensures r == FallbackTitle || |r| <= |html|
  {
    var title := FirstTitle(html);
    if title.Some? && title.value.1 != "" then StripTags(title.value.1)
    else
      var heading := FirstHeading(html);
      if heading.Some? && heading.value.1 != "" then StripTags(heading.value.1)
      else FallbackTitle
  }

  /** The first title element wins whenever its raw content is non-empty, even when
    * that content normalises to the empty string. */
  lemma TitleElementWins(html: string, i: nat, raw: string)
    requires TitleAt(html, i) == Some(raw) && raw != ""
    requires forall j :: 0 <= j < i ==> TitleAt(html, j).None?
    ensures GetTitle(html) == StripTags(raw)
  {
    var m := FirstTitle(html);
    assert i < |html|;
    assert m.Some? && m.value.0 == i;
  }

  /** When there is no title element, or the first one is empty, the first closed heading with non-empty raw
    * content gives the title. */
  lemma HeadingIsSecondChoice(html: string, i: nat, raw: string)
    requires FirstTitle(html).None? || FirstTitle(html).value.1 == ""
    requires HeadingAt(html, i) == Some(raw) && raw != ""
    requires forall j :: 0 <= j < i ==> HeadingAt(html, j).None?
    ensures GetTitle(html) == StripTags(raw)
  {
    var m := FirstHeading(html);
    assert i < |html|;
    assert m.Some? && m.value.0 == i;
  }

  /** When the first title element is missing or empty, and so is the first closed
    * heading, the placeholder is returned: an empty capture counts as no match. */
  lemma PlaceholderOtherwise(html: string)
    requires FirstTitle(html).None? || FirstTitle(html).value.1 == ""
    requires FirstHeading(html).None? || FirstHeading(html).value.1 == ""
    ensures GetTitle(html) == FallbackTitle
  {
  }

  /** A heading opened as `h1` is not closed by `</h2>`: the back-reference `\1`
    * demands the same level. */
  lemma MismatchedHeadingIgnored()
    ensures HeadingAt("<h1>a</h2>", 0).None?
  {
    var s := "<h1>a</h2>";
    assert IndexOf(s, ">", 3) == Some(3) by {
      assert At(s, 3, ">");
    }
    var close := CloseTag(s[2]);
    assert close[3] == '1';
    forall k: nat | 4 <= k ensures !AtCI(s, k, close) {
      if k + 5 <= |s| {
        assert Lower(s[k + 3]) != close[3];
      }
    }
  }

  /** The separator class `[~\-–]` between the two dates of a period. */
  predicate IsRangeSeparator(c: char) {
    c == '~' || c == '-' || c == '\U{2013}'
  }

  /** The period pattern
    * `(\d{4}[.\-]\d{2}[.\-]\d{2})\s*[~\-–]\s*(\d{4}[.\-]\d{2}[.\-]\d{2})` matches at
    * `i` with its separator at `j` and its second date at `k`: spaces only between
    * the first date and the separator and between the separator and the second date. */
  predicate PeriodSpan(s: string, i: nat, j: nat, k: nat) {
    i + 10 <= j < k && k + 10 <= |s|
    && IsDateToken(s[i..i + 10]) && IsDateToken(s[k..k + 10])
    && IsRangeSeparator(s[j])
    && AllSpaces(s, i + 10, j) && AllSpaces(s, j + 1, k)
  }

  /** The period pattern tried at `i`, giving its two dates. Each `\s*` can only stop
    * at the end of its run of spaces, since neither a separator nor a digit is a
    * space, so the test has one outcome. */
  function PeriodAt(s: string, i: nat): (r: Option<(string, string)>)
    ensures r.Some? ==> IsDateToken(r.value.0) && IsDateToken(r.value.1)
  {
    var j := i + 10 + SpaceRun(s, i + 10);
    var k := j + 1 + SpaceRun(s, j + 1);
    if DateTokenAt(s, i).Some? && j < |s| && IsRangeSeparator(s[j]) && DateTokenAt(s, k).Some?
    then Some((s[i..i + 10], s[k..k + 10]))
    else None
  }

  /** A period match is a period span, and its result is the two dates of the span. */
  lemma PeriodAtMatches(s: string, i: nat)
    requires PeriodAt(s, i).Some?
    ensures exists j: nat, k: nat :: PeriodSpan(s, i, j, k) && PeriodAt(s, i).value == (s[i..i + 10], s[k..k + 10])
  {
    var j := i + 10 + SpaceRun(s, i + 10);
    var k := j + 1 + SpaceRun(s, j + 1);
    assert PeriodSpan(s, i, j, k);
  }

  /** Every period span is matched, with its two dates as the result. */
  lemma PeriodSpanMatches(s: string, i: nat, j: nat, k: nat)
    requires PeriodSpan(s, i, j, k)
    ensures PeriodAt(s, i) == Some((s[i..i + 10], s[k..k + 10]))
  {
    PeriodSpanFound(s, i, j, k);
  }

  /** In a period span the separator and the second date sit right after the runs
    * of spaces that follow the first date and the separator. */
  lemma PeriodSpanFound(s: string, i: nat, j: nat, k: nat)
    requires PeriodSpan(s, i, j, k)
    ensures DateTokenAt(s, i).Some? && DateTokenAt(s, k).Some?
    ensures i + 10 + SpaceRun(s, i + 10) == j && j < |s| && IsRangeSeparator(s[j])
    ensures j + 1 + SpaceRun(s, j + 1) == k
  {
    SeparatorNotSpace(s[j]);
    SpaceRunIs(s, i + 10, j - (i + 10));
    DateStartNotSpace(s[k..k + 10]);
    SpaceRunIs(s, j + 1, k - (j + 1));
  }

  lemma SeparatorNotSpace(c: char)
    requires IsRangeSeparator(c)
    ensures !IsSpace(c)
  {}

  lemma DateStartNotSpace(d: string)
    requires IsDateToken(d)
    ensures !IsSpace(d[0])
  {
    assert IsDigit(d[0]);
  }

  /** A period as rendered: `DDDD-DD-DD ~ DDDD-DD-DD`. */
  predicate IsPeriod(p: string) {
    |p| == 23 && IsIsoDate(p[..10]) && p[10..13] == " ~ " && IsIsoDate(p[13..])
  }

  /** `plain.match(...)` for the period pattern: the leftmost date range. */
  function FirstPeriod(plain: string): (r: Option<(nat, (string, string))>)
    ensures r.Some? ==> r.value.0 < |plain| && PeriodAt(plain, r.value.0) == Some(r.value.1)
    ensures r.Some? ==> forall j :: 0 <= j < r.value.0 ==> PeriodAt(plain, j).None?
    ensures r.None? ==> forall j :: 0 <= j < |plain| ==> PeriodAt(plain, j).None?
  {
    var at := i => PeriodAt(plain, i);
    assert forall j :: PeriodAt(plain, j) == at(j);
    FirstMatch(0, |plain|, at)
  }

  /** `first ~ second` with the dots of both dates rewritten to dashes. */
  function RenderPeriod(first: string, second: string): (r: string)
    requires IsDateToken(first) && IsDateToken(second)
    ensures IsPeriod(r)
    ensures r[..10] == DotsToDashes(first) && r[13..] == DotsToDashes(second)
  {
    DateTokenNormalises(first);
    DateTokenNormalises(second);
    var r := DotsToDashes(first) + " ~ " + DotsToDashes(second);
    assert r[..10] == DotsToDashes(first) && r[13..] == DotsToDashes(second);
    r
  }

  /** `extractPeriodFromHTML`: the leftmost date range of the normalised page with
    * its dots rewritten to dashes, or the empty string. */
  function ExtractPeriod(html: string): (r: string)
    ensures r == "" || IsPeriod(r)
  {
    match FirstPeriod(StripTags(html))
    case Some((_, (first, second))) => RenderPeriod(first, second)
    case None => ""
  }

  /** The period is the leftmost date range of the normalised page: its first date
    * and its second date, each with dots rewritten to dashes, around ` ~ `. */
  lemma ExtractPeriodFirstRange(html: string, i: nat, j: nat, k: nat)
    requires PeriodSpan(StripTags(html), i, j, k)
    requires forall m :: 0 <= m < i ==> PeriodAt(StripTags(html), m).None?
    ensures IsPeriod(ExtractPeriod(html))
    ensures ExtractPeriod(html)[..10] == DotsToDashes(StripTags(html)[i..i + 10])
    ensures ExtractPeriod(html)[13..] == DotsToDashes(StripTags(html)[k..k + 10])
  {
    FirstPeriodAt(StripTags(html), i, j, k);
  }

  /** The leftmost period span is what the period search finds. */
  lemma FirstPeriodAt(plain: string, i: nat, j: nat, k: nat)
    requires PeriodSpan(plain, i, j, k)
    requires forall m :: 0 <= m < i ==> PeriodAt(plain, m).None?
    ensures FirstPeriod(plain) == Some((i, (plain[i..i + 10], plain[k..k + 10])))
  {
    PeriodSpanMatches(plain, i, j, k);
  }

  /** A title element around text without `<` is found, with that text as its
    * content. */
  lemma TitleAroundText(x: string)
    requires forall c :: c in x ==> c != '<'
    ensures TitleAt("<title>" + x + "</title>", 0) == Some(x)
  {
    var s := "<title>" + x + "</title>";
    var k := 7 + |x|;
    assert AtCI(s, 0, "<title") by {
      forall d | 0 <= d < 6 ensures Lower(s[d]) == "<title"[d] {
        assert s[d] == "<title>"[d];
      }
    }
    assert BodySpan(s, 6, 6, k, "</title>") by {
      forall d | 0 <= d < 8 ensures Lower(s[k + d]) == "</title>"[d] {
        assert s[k + d] == "</title>"[d];
      }
      forall m | 7 <= m < k ensures !AtCI(s, m, "</title>") {
        assert s[m] == x[m - 7] && x[m - 7] in x;
        assert Lower(s[m]) != "</title>"[0];
      }
    }
    BodySpanMatches(s, 6, 6, k, "</title>");
    assert s[7..k] == x;
  }

  /** An `h1` or `h2` element closed by its own level around text without `<` is
    * found, with that text as its content. */
  lemma HeadingAroundText(level: char, x: string)
    requires level == '1' || level == '2'
    requires forall c :: c in x ==> c != '<'
    ensures HeadingAt("<h" + [level] + ">" + x + CloseTag(level), 0) == Some(x)
  {
    var s := "<h" + [level] + ">" + x + CloseTag(level);
    var k := 4 + |x|;
    var close := CloseTag(level);
    assert s[2] == level;
    assert AtCI(s, 0, "<h1") || AtCI(s, 0, "<h2") by {
      var pat := "<h" + [level];
      forall d | 0 <= d < 3 ensures Lower(s[d]) == pat[d] {
        assert s[d] == pat[d];
      }
      assert pat == "<h1" || pat == "<h2";
    }
    assert BodySpan(s, 3, 3, k, close) by {
      forall d | 0 <= d < 5 ensures Lower(s[k + d]) == close[d] {
        assert s[k + d] == close[d];
      }
      forall m | 4 <= m < k ensures !AtCI(s, m, close) {
        assert s[m] == x[m - 4] && x[m - 4] in x;
        assert Lower(s[m]) != close[0];
      }
    }
    BodySpanMatches(s, 3, 3, k, close);
    assert s[4..k] == x;
  }

  /** A date range with a tilde and spaces is found with both dates as written. */
  lemma PeriodExample()
    ensures PeriodAt("2024.01.02 ~ 2024-02-01", 0) == Some(("2024.01.02", "2024-02-01"))
  {
    var s := "2024.01.02 ~ 2024-02-01";
    assert s[0..10] == "2024.01.02" && s[13..23] == "2024-02-01";
    assert PeriodSpan(s, 0, 11, 13);
    PeriodSpanMatches(s, 0, 11, 13);
  }

  /** The period is empty exactly when the normalised page has no date range. */
  lemma PeriodEmptyIffNoRange(html: string)
    ensures ExtractPeriod(html) == "" <==>
      forall i :: 0 <= i < |StripTags(html)| ==> PeriodAt(StripTags(html), i).None?
  {
    var plain := StripTags(html);
    var m := FirstPeriod(plain);
    if m.Some? {
      assert |ExtractPeriod(html)| == 23;
    }
  }
}
