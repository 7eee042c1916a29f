/**
 * The extractive summariser `summarizeDetailFromHTML` of background.js: cut the
 * business-overview section out of the normalised page, split it into
 * sentences, rank them by keywords and length, and render the best three as a
 * bulleted string of bounded length.
 *
 * Scores are kept as exact integers: 80 times the source's
 * `2 * keywords + min(1, length / 80)` is `160 * keywords + min(80, length)`.
 */
module Summary {
  import opened Text
  import opened Markup

  /** The business-overview heading after which the snippet starts. */
  const Marker: string := "사업개요"

  /** The headings that end the business-overview section. */
  const Stops: seq<string> := ["사업신청", "신청기간", "문의처", "첨부파일", "본문출력파일", "정보에 만족하셨나요?"]

  /** The domain keywords that make a sentence worth picking. */
  const Keywords: seq<string> := ["지원", "모집", "대상", "기간", "금액", "한도", "자금", "보조", "융자", "창업", "수행", "조건"]

  /** Length of the fallback snippet when the marker is absent. */
  const SnippetLimit: nat := 800

  /** Length of the pseudo-sentence used when no sentence survives. */
  const FallbackLimit: nat := 180

  /** Sentences must be shorter than this to be kept. */
  const SentenceLimit: nat := 280

  /** The rendered summary is cut to this many characters. */
  const SummaryLimit: nat := 500

  /** The value of the `cut` variable after the stop loop has visited `stops`:
    * the first position at which any of them occurs, or the end of `text`. */
  function EarliestStop(text: string, stops: seq<string>): (cut: nat)
    ensures cut <= |text|
    ensures forall k, j :: 0 <= k < |stops| && 0 <= j < cut ==> !At(text, j, stops[k])
    ensures cut == |text| || exists k :: 0 <= k < |stops| && At(text, cut, stops[k])
  {
    if stops == [] then |text|
    else
      var earlier := EarliestStop(text, stops[..|stops| - 1]);
      match IndexOf(text, stops[|stops| - 1], 0)
      case Some(i) => if i < earlier then i else earlier
      case None => earlier
  }

  /** The snippet: the trimmed text between the first marker and the earliest
    * stop after it, or the first 800 characters when there is no marker. */
  function Snippet(plain: string): (r: string)
    ensures |r| <= |plain|
  {
    match IndexOf(plain, Marker, 0)
    case Some(start) =>
      var rest := plain[start + |Marker|..];
      Trim(rest[..EarliestStop(rest, Stops)])
    case None => Slice(plain, 0, SnippetLimit)
  }

  /** The trimmed text before the first occurrence of `pat` holds no `pat`. */
  lemma TrimmedPrefixAvoids(text: string, cut: nat, pat: string)
    requires cut <= |text| && |pat| > 0
    requires forall j :: 0 <= j < cut ==> !At(text, j, pat)
    ensures forall j: nat :: !At(Trim(text[..cut]), j, pat)
  {
    var r := Trim(text[..cut]);
    var off := TrimOffset(text[..cut]);
    assert r == text[off..off + |r|] by {
      assert r == text[..cut][off..off + |r|];
    }
    assert off + |r| <= cut;
    forall j: nat | j + |pat| <= |r|
      ensures !At(r, j, pat)
    {
      AtInSlice(text, off, off + |r|, j, pat);
    }
  }

  /** The trimmed section before the earliest stop holds none of the stops. */
  lemma SectionAvoidsStops(rest: string, stops: seq<string>)
    requires forall k :: 0 <= k < |stops| ==> |stops[k]| > 0
    ensures forall k, j: nat :: 0 <= k < |stops| ==> !At(Trim(rest[..EarliestStop(rest, stops)]), j, stops[k])
  {
    var cut := EarliestStop(rest, stops);
    forall k | 0 <= k < |stops|
      ensures forall j: nat :: !At(Trim(rest[..cut]), j, stops[k])
    {
      TrimmedPrefixAvoids(rest, cut, stops[k]);
    }
  }

  /** When the marker occurs, the snippet holds none of the stop headings: the
    * section ends before the first of them. */
  lemma SnippetHasNoStop(plain: string)
    requires IndexOf(plain, Marker, 0).Some?
    ensures forall k, j: nat :: 0 <= k < |Stops| ==> !At(Snippet(plain), j, Stops[k])
  {
    var start := IndexOf(plain, Marker, 0).value;
    SectionAvoidsStops(plain[start + |Marker|..], Stops);
  }

  /** `r` is the text of `plain` in [lo, hi) with spaces trimmed: it is trimmed, it
    * sits at some `o` inside the range, and everything else in the range is space. */
  predicate TrimmedSection(plain: string, lo: nat, hi: nat, o: nat, r: string) {
    lo <= o && o + |r| <= hi <= |plain| && Trimmed(r) && r == plain[o..o + |r|]
    && forall k :: lo <= k < hi && !(o <= k < o + |r|) ==> IsSpace(plain[k])
  }

  /** When the marker occurs first at `start`, the snippet is the trimmed text from
    * the end of that marker, `lo`, up to the earliest stop heading after it, `hi`. */
  lemma SnippetWithMarker(plain: string, start: nat, lo: nat, hi: nat)
    requires IndexOf(plain, Marker, 0) == Some(start) && lo == start + |Marker|
    requires lo <= |plain| && hi == lo + EarliestStop(plain[lo..], Stops)
    ensures hi <= |plain|
    ensures exists o: nat :: TrimmedSection(plain, lo, hi, o, Snippet(plain))
  {
    var rest := plain[lo..];
    var cut := EarliestStop(rest, Stops);
    assert Snippet(plain) == Trim(rest[..cut]);
    TrimSection(plain, lo, cut, hi);
  }

  /** Trimming the first `n` characters after `lo` keeps a contiguous part of them
    * and drops only spaces. */
  lemma TrimSection(plain: string, lo: nat, n: nat, hi: nat)
    requires hi == lo + n <= |plain|
    ensures exists o: nat :: TrimmedSection(plain, lo, hi, o, Trim(plain[lo..][..n]))
  {
    var section := plain[lo..][..n];
    assert section == plain[lo..hi];
    var r := Trim(section);
    var off := TrimOffset(section);
    assert r == plain[lo + off..lo + off + |r|];
    forall k | lo <= k < hi && !(lo + off <= k < lo + off + |r|)
      ensures IsSpace(plain[k])
    {
      assert plain[k] == section[k - lo];
    }
    assert TrimmedSection(plain, lo, hi, lo + off, r);
  }

  /** Without the marker, the snippet is the first 800 characters of the text. */
  lemma SnippetWithoutMarker(plain: string)
    requires IndexOf(plain, Marker, 0).None?
    ensures Snippet(plain) == plain[..if |plain| < SnippetLimit then |plain| else SnippetLimit]
  {
  }

  /** The class `[\.!\?]` of the lookbehind. */
  predicate IsSentenceEnd(c: char) {
    c == '.' || c == '!' || c == '?'
  }

  /** The class `[\n\r]`. */
  predicate IsLineBreak(c: char) {
    c == '\n' || c == '\r'
  }

  /** The bullet class `[•·ㆍ]`. */
  predicate IsBullet(c: char) {
    c == '\U{2022}' || c == '\U{00B7}' || c == '\U{318D}'
  }

  /** The separator `(?<=[\.!\?])\s+|[\n\r]+|[•·ㆍ]\s*` tried at `q`, the
    * alternatives in order: the end of the match, if it matches. Each quantifier
    * is greedy and nothing follows it, so each alternative has one outcome. */
  function DelimAt(s: string, q: nat): (e: Option<nat>)
    requires q < |s|
    ensures e.Some? ==> q < e.value <= |s|
    ensures e.None? <==>
      !(q > 0 && IsSentenceEnd(s[q - 1]) && IsSpace(s[q])) && !IsLineBreak(s[q]) && !IsBullet(s[q])
  {
    if q > 0 && IsSentenceEnd(s[q - 1]) && IsSpace(s[q]) then Some(q + SpaceRun(s, q))
    else if IsLineBreak(s[q]) then Some(q + RunLength(s, q, IsLineBreak))
    else if IsBullet(s[q]) then Some(q + 1 + SpaceRun(s, q + 1))
    else None
  }

  /** A piece of split text: no line break, no bullet, and no sentence end
    * followed by a space. */
  predicate NoBoundary(t: string) {
    forall k :: 0 <= k < |t| ==>
      !IsLineBreak(t[k]) && !IsBullet(t[k]) && (k > 0 ==> !(IsSentenceEnd(t[k - 1]) && IsSpace(t[k])))
  }

  /** The split loop of `String.prototype.split` with a regular expression: the
    * current piece starts at `p`, the separator is tried at `q`, and the text after
    * the last separator is the final piece. */
  function SplitFrom(s: string, p: nat, q: nat): (r: seq<string>)
    requires p <= q <= |s|
    requires forall j :: p <= j < q ==> DelimAt(s, j).None?
    decreases |s| - q
    ensures |r| > 0
    ensures forall i :: 0 <= i < |r| ==> NoBoundary(r[i])
  {
    if q == |s| then
      assert NoBoundary(s[p..]) by {
        forall k | 0 <= k < |s| - p
          ensures !IsLineBreak(s[p..][k]) && !IsBullet(s[p..][k])
          ensures k > 0 ==> !(IsSentenceEnd(s[p..][k - 1]) && IsSpace(s[p..][k]))
        {
          assert DelimAt(s, p + k).None?;
        }
      }
      [s[p..]]
    else
      match DelimAt(s, q)
      case None => SplitFrom(s, p, q + 1)
      case Some(e) =>
        assert NoBoundary(s[p..q]) by {
          forall k | 0 <= k < q - p
            ensures !IsLineBreak(s[p..q][k]) && !IsBullet(s[p..q][k])
            ensures k > 0 ==> !(IsSentenceEnd(s[p..q][k - 1]) && IsSpace(s[p..q][k]))
          {
            assert DelimAt(s, p + k).None?;
          }
        }
        [s[p..q]] + SplitFrom(s, e, e)
  }

  /** `snippet.split(...)`. */
  function Split(s: string): (r: seq<string>)
    ensures |r| > 0
    ensures forall i :: 0 <= i < |r| ==> NoBoundary(r[i])
  {
    SplitFrom(s, 0, 0)
  }

  /** The separators the split loop matched, in order: the text between two pieces. */
  function SplitSeparators(s: string, p: nat, q: nat): (r: seq<string>)
    requires p <= q <= |s|
    requires forall j :: p <= j < q ==> DelimAt(s, j).None?
    decreases |s| - q
    ensures |r| + 1 == |SplitFrom(s, p, q)|
    ensures forall k :: 0 <= k < |r| ==> |r[k]| > 0
  {
    if q == |s| then []
    else
      match DelimAt(s, q)
      case None => SplitSeparators(s, p, q + 1)
      case Some(e) => [s[q..e]] + SplitSeparators(s, e, e)
  }

  /** Pieces with the separators put back between them. */
  function Interleave(pieces: seq<string>, seps: seq<string>): string
    requires |pieces| == |seps| + 1
  {
    if seps == [] then pieces[0] else pieces[0] + seps[0] + Interleave(pieces[1..], seps[1..])
  }

  /** Three adjacent slices make up the slice that spans them. */
  lemma SlicesJoin(s: string, p: nat, q: nat, e: nat)
    requires p <= q <= e <= |s|
    ensures s[p..q] + s[q..e] + s[e..] == s[p..]
  {
    assert s[p..] == s[p..q] + s[q..];
    assert s[q..] == s[q..e] + s[e..];
  }

  /** The split loses nothing: its pieces, with the separators it matched put back
    * between them, give back the text. */
  lemma {:induction false} SplitRoundTrip(s: string, p: nat, q: nat)
    requires p <= q <= |s|
    requires forall j :: p <= j < q ==> DelimAt(s, j).None?
    decreases |s| - q
    ensures Interleave(SplitFrom(s, p, q), SplitSeparators(s, p, q)) == s[p..]
  {
    if q < |s| {
      match DelimAt(s, q) {
        case None =>
          SplitRoundTrip(s, p, q + 1);
        case Some(e) =>
          SplitRoundTrip(s, e, e);
          var pieces := SplitFrom(s, e, e);
          var seps := SplitSeparators(s, e, e);
          assert ([s[p..q]] + pieces)[1..] == pieces;
          assert ([s[q..e]] + seps)[1..] == seps;
          SlicesJoin(s, p, q, e);
      }
    }
  }

  /** `snippet.split(...)` gives back the snippet once the separators are put back. */
  lemma SplitIsLossless(s: string)
    ensures Interleave(Split(s), SplitSeparators(s, 0, 0)) == s
  {
    SplitRoundTrip(s, 0, 0);
  }

  /** Trimming keeps a piece free of boundaries, being a substring. */
  lemma TrimKeepsNoBoundary(t: string)
    requires NoBoundary(t)
    ensures NoBoundary(Trim(t))
  {
    var r := Trim(t);
    var off := TrimOffset(t);
    forall k | 0 <= k < |r|
      ensures !IsLineBreak(r[k]) && !IsBullet(r[k])
      ensures k > 0 ==> !(IsSentenceEnd(r[k - 1]) && IsSpace(r[k]))
    {
      assert r[k] == t[off + k];
      if k > 0 {
        assert r[k - 1] == t[off + k - 1];
      }
    }
  }

  /** A sentence as kept: trimmed, 1 to 279 characters, and free of boundaries. */
  predicate IsSentence(t: string) {
    0 < |t| < SentenceLimit && Trimmed(t) && NoBoundary(t)
  }

  /** `.map(s => s.trim()).filter(s => s.length > 0 && s.length < 280)`. */
  function KeepSentences(pieces: seq<string>): (r: seq<string>)
    requires forall i :: 0 <= i < |pieces| ==> NoBoundary(pieces[i])
    ensures |r| <= |pieces|
    ensures forall i :: 0 <= i < |r| ==> IsSentence(r[i])
  {
    if pieces == [] then []
    else
      TrimKeepsNoBoundary(pieces[0]);
      Kept1(pieces[0]) + KeepSentences(pieces[1..])
  }

  /** `t` is what the filter makes of piece `i`, and the filter keeps it. */
  predicate KeptFrom(pieces: seq<string>, i: nat, t: string) {
    i < |pieces| && t == Trim(pieces[i]) && 0 < |t| < SentenceLimit
  }

  /** Whatever the filter keeps is the trimmed form of some piece, 1 to 279 long. */
  lemma {:induction false} KeptComesFromPiece(pieces: seq<string>, t: string)
    requires forall i :: 0 <= i < |pieces| ==> NoBoundary(pieces[i])
    requires t in KeepSentences(pieces)
    ensures exists i: nat :: KeptFrom(pieces, i, t)
  {
    var rest := pieces[1..];
    assert KeepSentences(pieces) == Kept1(pieces[0]) + KeepSentences(rest);
    if t in Kept1(pieces[0]) {
      assert KeptFrom(pieces, 0, t);
    } else {
      KeptComesFromPiece(rest, t);
      var i: nat :| KeptFrom(rest, i, t);
      assert KeptFrom(pieces, i + 1, t);
    }
  }

  /** Every trimmed piece of 1 to 279 characters is kept. */
  lemma {:induction false} PieceIsKept(pieces: seq<string>, i: nat, t: string)
    requires forall i :: 0 <= i < |pieces| ==> NoBoundary(pieces[i])
    requires KeptFrom(pieces, i, t)
    ensures t in KeepSentences(pieces)
  {
    var rest := pieces[1..];
    assert KeepSentences(pieces) == Kept1(pieces[0]) + KeepSentences(rest);
    if i > 0 {
      assert KeptFrom(rest, i - 1, t);
      PieceIsKept(rest, i - 1, t);
    } else {
      assert t in Kept1(pieces[0]);
    }
  }

  /** A string is kept exactly when it is the trimmed form of some piece and has 1 to
    * 279 characters. */
  lemma KeepSentencesMeaning(pieces: seq<string>, t: string)
    requires forall i :: 0 <= i < |pieces| ==> NoBoundary(pieces[i])
    ensures t in KeepSentences(pieces) <==> exists i: nat :: KeptFrom(pieces, i, t)
  {
    if t in KeepSentences(pieces) {
      KeptComesFromPiece(pieces, t);
    }
    if exists i: nat :: KeptFrom(pieces, i, t) {
      var i: nat :| KeptFrom(pieces, i, t);
      PieceIsKept(pieces, i, t);
    }
  }

  /** The filter keeps the order of the pieces: it distributes over concatenation. */
  lemma {:induction false} KeepSentencesAppend(a: seq<string>, b: seq<string>)
    requires forall i :: 0 <= i < |a| ==> NoBoundary(a[i])
    requires forall i :: 0 <= i < |b| ==> NoBoundary(b[i])
    ensures KeepSentences(a + b) == KeepSentences(a) + KeepSentences(b)
  {
    if a == [] {
      assert a + b == b;
    } else {
      var rest := a[1..];
      assert (a + b)[1..] == rest + b;
      assert (a + b)[0] == a[0];
      KeepSentencesAppend(rest, b);
      var head := Kept1(a[0]);
      assert KeepSentences(a + b) == head + (KeepSentences(rest) + KeepSentences(b));
      assert KeepSentences(a) == head + KeepSentences(rest);
      ConcatAssoc(head, KeepSentences(rest), KeepSentences(b));
    }
  }

  /** What the filter keeps of one piece. */
  function Kept1(piece: string): seq<string> {
    var t := Trim(piece);
    if 0 < |t| < SentenceLimit then [t] else []
  }

  /** The sentences of a snippet. */
  function Sentences(snippet: string): (r: seq<string>)
    ensures forall i :: 0 <= i < |r| ==> IsSentence(r[i])
  {
    KeepSentences(Split(snippet))
  }

  /** The sentences of a snippet are exactly the trimmed pieces of its split that
    * have 1 to 279 characters. */
  lemma SentencesMeaning(snippet: string, t: string)
    ensures t in Sentences(snippet) <==> exists i: nat :: KeptFrom(Split(snippet), i, t)
  {
    KeepSentencesMeaning(Split(snippet), t);
  }

  /** How many of `kws` occur in `s`, each counted once however often it occurs. */
  function KeywordCount(s: string, kws: seq<string>): (n: nat)
    ensures n <= |kws|
  {
    if kws == [] then 0
    else (if Contains(s, kws[0]) then 1 else 0) + KeywordCount(s, kws[1..])
  }

  /** No keyword is listed twice. */
  predicate Distinct(kws: seq<string>) {
    forall i, j :: 0 <= i < j < |kws| ==> kws[i] != kws[j]
  }

  /** The keywords of `kws` that occur somewhere in `s`. */
  function Found(s: string, kws: seq<string>): set<string> {
    set k | k in kws && Contains(s, k)
  }

  /** The keywords found are the first one, if found, and those found among the rest. */
  lemma FoundCons(s: string, kws: seq<string>)
    requires kws != []
    ensures Found(s, kws) == (if Contains(s, kws[0]) then {kws[0]} else {}) + Found(s, kws[1..])
  {
    var rest := kws[1..];
    forall k | k in kws && k != kws[0]
      ensures k in rest
    {
      var i :| 0 <= i < |kws| && kws[i] == k;
      assert rest[i - 1] == k;
    }
    forall k | k in rest
      ensures k in kws
    {
      var i :| 0 <= i < |rest| && rest[i] == k;
      assert kws[i + 1] == k;
    }
  }

  /** Dropping the first keyword keeps the rest distinct, and apart from it. */
  lemma DistinctTail(kws: seq<string>)
    requires kws != [] && Distinct(kws)
    ensures Distinct(kws[1..]) && kws[0] !in kws[1..]
  {
    var rest := kws[1..];
    forall i, j | 0 <= i < j < |rest|
      ensures rest[i] != rest[j]
    {
      assert rest[i] == kws[i + 1] && rest[j] == kws[j + 1];
    }
    forall i | 0 <= i < |rest|
      ensures rest[i] != kws[0]
    {
      assert rest[i] == kws[i + 1];
    }
  }

  /** Over distinct keywords, the count is the number of different keywords that
    * occur in the sentence. */
  lemma {:induction false} KeywordCountIsFound(s: string, kws: seq<string>)
    requires Distinct(kws)
    ensures KeywordCount(s, kws) == |Found(s, kws)|
  {
    if kws != [] {
      DistinctTail(kws);
      KeywordCountIsFound(s, kws[1..]);
      FoundCons(s, kws);
      assert kws[0] !in Found(s, kws[1..]);
    }
  }

  /** The domain keywords are distinct, so each counts once. */
  lemma KeywordsDistinct()
    ensures Distinct(Keywords)
  {
  }

  /** 80 times `2 * keywords + min(1, length / 80)`, for a sentence with `k`
    * keywords and `len` characters. */
  function Weighted(k: nat, len: nat): nat {
    160 * k + (if len < 80 then len else 80)
  }

  /** 80 times the score of a sentence: the keyword count in the multiples of 160,
    * the length term, at most 80, below them. */
  function Score(s: string): (r: nat)
    ensures r / 160 == KeywordCount(s, Keywords)
    ensures r % 160 <= 80
  {
    var k := KeywordCount(s, Keywords);
    WeightedParts(k, |s|);
    Weighted(k, |s|)
  }

  /** The keyword count and the length term can be read back from a weighted score. */
  lemma WeightedParts(k: nat, len: nat)
    ensures Weighted(k, len) / 160 == k && Weighted(k, len) % 160 <= 80
  {
  }

  /** A sentence with more keywords always outranks one with fewer, whatever their
    * lengths; with as many keywords, the longer one up to 80 characters wins. */
  lemma ScoreOrder(a: string, b: string)
    ensures KeywordCount(a, Keywords) > KeywordCount(b, Keywords) ==> Score(a) > Score(b)
    ensures KeywordCount(a, Keywords) == KeywordCount(b, Keywords) ==>
      (Score(a) >= Score(b) <==> (if |a| < 80 then |a| else 80) >= (if |b| < 80 then |b| else 80))
  {
    WeightedOrder(KeywordCount(a, Keywords), |a|, KeywordCount(b, Keywords), |b|);
  }

  lemma WeightedOrder(ka: nat, la: nat, kb: nat, lb: nat)
    ensures ka > kb ==> Weighted(ka, la) > Weighted(kb, lb)
    ensures ka == kb ==>
      (Weighted(ka, la) >= Weighted(kb, lb) <==> (if la < 80 then la else 80) >= (if lb < 80 then lb else 80))
  {
  }

  /** A sentence together with its score: an element of `scored`. */
  datatype Scored = Scored(text: string, score: nat)

  /** `sentences.map(s => ({ s, score }))`. */
  function ScoreAll(sentences: seq<string>): (r: seq<Scored>)
    ensures |r| == |sentences|
    ensures forall i :: 0 <= i < |r| ==> r[i] == Scored(sentences[i], Score(sentences[i]))
  {
    seq(|sentences|, i requires 0 <= i < |sentences| => Scored(sentences[i], Score(sentences[i])))
  }

  /** Ordered by score, highest first. */
  predicate SortedDesc(xs: seq<Scored>) {
    forall i, j :: 0 <= i < j < |xs| ==> xs[i].score >= xs[j].score
  }

  /** Insertion of a later element into a sorted list: it goes after every
    * element whose score is at least its own. */
  function Insert(x: Scored, ys: seq<Scored>): (r: seq<Scored>)
    requires SortedDesc(ys)
    ensures |r| == |ys| + 1
    ensures ys == [] ==> r == [x]
    ensures ys != [] ==> r[0] == x || r[0] == ys[0]
    ensures SortedDesc(r)
  {
    if ys == [] then [x]
    else if ys[0].score >= x.score then
      var tail := Insert(x, ys[1..]);
      assert ys == [ys[0]] + ys[1..];
      [ys[0]] + tail
    else
      [x] + ys
  }

  /** `scored.sort((a, b) => b.score - a.score)`: a stable sort, highest score first
    * (section 23.1.3.30 of ECMA-262 requires `Array.prototype.sort` to be stable). */
  function SortByScore(xs: seq<Scored>): (r: seq<Scored>)
    ensures |r| == |xs|
    ensures SortedDesc(r)
  {
    if xs == [] then []
    else Insert(xs[|xs| - 1], SortByScore(xs[..|xs| - 1]))
  }

  /** Insertion adds exactly the inserted element. */
  lemma {:induction false} InsertPermutes(x: Scored, ys: seq<Scored>)
    requires SortedDesc(ys)
    ensures multiset(Insert(x, ys)) == multiset(ys) + multiset{x}
  {
    if ys != [] && ys[0].score >= x.score {
      InsertPermutes(x, ys[1..]);
      assert ys == [ys[0]] + ys[1..];
    }
  }

  /** The sort is a permutation: no sentence is lost or duplicated. */
  lemma {:induction false} SortPermutes(xs: seq<Scored>)
    ensures multiset(SortByScore(xs)) == multiset(xs)
  {
    if xs != [] {
      SortPermutes(xs[..|xs| - 1]);
      InsertPermutes(xs[|xs| - 1], SortByScore(xs[..|xs| - 1]));
      assert xs == xs[..|xs| - 1] + [xs[|xs| - 1]];
    }
  }

  /** The elements of `xs` whose score is `v`, in their order in `xs`. */
  function WithScore(xs: seq<Scored>, v: nat): seq<Scored> {
    if xs == [] then []
    else (if xs[0].score == v then [xs[0]] else []) + WithScore(xs[1..], v)
  }

  /** Selecting by score distributes over concatenation. */
  lemma {:induction false} WithScoreAppend(a: seq<Scored>, b: seq<Scored>, v: nat)
    ensures WithScore(a + b, v) == WithScore(a, v) + WithScore(b, v)
  {
    if a != [] {
      assert (a + b)[1..] == a[1..] + b;
      WithScoreAppend(a[1..], b, v);
    } else {
      assert a + b == b;
    }
  }

  /** A list with no element of score `v` has nothing to select. */
  lemma {:induction false} WithScoreNone(xs: seq<Scored>, v: nat)
    requires forall i :: 0 <= i < |xs| ==> xs[i].score != v
    ensures WithScore(xs, v) == []
  {
    if xs != [] {
      WithScoreNone(xs[1..], v);
    }
  }

  /** Selecting from a list with one more element in front. */
  lemma WithScoreCons(x: Scored, xs: seq<Scored>, v: nat)
    ensures WithScore([x] + xs, v) == (if x.score == v then [x] else []) + WithScore(xs, v)
  {
    assert ([x] + xs)[1..] == xs;
  }

  /** Inserting `x` adds it after the elements of its own score. */
  lemma {:induction false} InsertStable(x: Scored, ys: seq<Scored>, v: nat)
    requires SortedDesc(ys)
    ensures WithScore(Insert(x, ys), v) == WithScore(ys, v) + (if x.score == v then [x] else [])
  {
    if ys == [] {
      WithScoreCons(x, [], v);
    } else if ys[0].score >= x.score {
      InsertStable(x, ys[1..], v);
      WithScoreCons(ys[0], Insert(x, ys[1..]), v);
      WithScoreCons(ys[0], ys[1..], v);
      assert [ys[0]] + ys[1..] == ys;
      ConcatAssoc(if ys[0].score == v then [ys[0]] else [], WithScore(ys[1..], v), if x.score == v then [x] else []);
    } else {
      if x.score == v {
        WithScoreNone(ys, v);
      }
      WithScoreCons(x, ys, v);
    }
  }

  /** The sort is stable: the sentences of any one score keep their relative order. */
  lemma {:induction false} SortStable(xs: seq<Scored>, v: nat)
    ensures WithScore(SortByScore(xs), v) == WithScore(xs, v)
  {
    if xs != [] {
      var init := xs[..|xs| - 1];
      var last := xs[|xs| - 1];
      SortStable(init, v);
      InsertStable(last, SortByScore(init), v);
      assert xs == init + [last];
      WithScoreAppend(init, [last], v);
    }
  }

  /** A sentence with more keywords is always ranked before one with fewer: the
    * length bonus never makes up for a keyword. */
  lemma MoreKeywordsFirst(sentences: seq<string>)
    ensures var ranked := Ranked(sentences);
      forall i, j :: 0 <= i < j < |ranked| ==>
        KeywordCount(ranked[j].text, Keywords) <= KeywordCount(ranked[i].text, Keywords)
  {
    RankedEntries(sentences);
  }

  /** `.map(o => o.s)`. */
  function Texts(xs: seq<Scored>): (r: seq<string>)
    ensures |r| == |xs|
    ensures forall i :: 0 <= i < |xs| ==> r[i] == xs[i].text
  {
    seq(|xs|, i requires 0 <= i < |xs| => xs[i].text)
  }

  /** The ranking of the sentences, best first: a permutation of the scored
    * sentences, sorted by score. */
  function Ranked(sentences: seq<string>): (r: seq<Scored>)
    ensures |r| == |sentences| && SortedDesc(r)
    ensures multiset(r) == multiset(ScoreAll(sentences))
  {
    SortPermutes(ScoreAll(sentences));
    SortByScore(ScoreAll(sentences))
  }

  /** `picked`: the three best sentences, or the first 180 characters of the
    * snippet when there is no sentence. */
  function Pick(sentences: seq<string>, snippet: string): (r: seq<string>)
    ensures 1 <= |r| <= 3
  {
    if |sentences| > 0 then Texts(Take(Ranked(sentences), 3))
    else [Slice(snippet, 0, FallbackLimit)]
  }

  /** Each ranked entry is a sentence with its own score. */
  lemma RankedEntries(sentences: seq<string>)
    ensures |Ranked(sentences)| == |sentences|
    ensures forall k :: 0 <= k < |Ranked(sentences)| ==>
      Ranked(sentences)[k].text in sentences && Ranked(sentences)[k].score == Score(Ranked(sentences)[k].text)
  {
    var scored := ScoreAll(sentences);
    var sorted := Ranked(sentences);
    SortPermutes(scored);
    forall k | 0 <= k < |sorted|
      ensures sorted[k].text in sentences && sorted[k].score == Score(sorted[k].text)
    {
      assert sorted[k] in multiset(scored);
      var i :| 0 <= i < |scored| && scored[i] == sorted[k];
    }
  }

  /** Every pick is one of the sentences, and the picks are the best ones: no
    * sentence left out has a higher score, or more keywords, than a pick. */
  lemma PickedAreBest(sentences: seq<string>, snippet: string)
    requires |sentences| > 0
    ensures var picked := Pick(sentences, snippet);
      forall i :: 0 <= i < |picked| ==> picked[i] in sentences
    ensures var picked := Pick(sentences, snippet); var ranked := Ranked(sentences);
      forall i, j :: 0 <= i < |picked| <= j < |ranked| ==>
        Score(ranked[j].text) <= Score(picked[i])
        && KeywordCount(ranked[j].text, Keywords) <= KeywordCount(picked[i], Keywords)
  {
    RankedEntries(sentences);
    MoreKeywordsFirst(sentences);
  }

  /** With at least one sentence, the picks are the first `min(3, n)` entries of
    * the ranking, in rank order: best first, never a lower score before a higher. */
  lemma PickIsTop(sentences: seq<string>, snippet: string)
    requires |sentences| > 0
    ensures var picked := Pick(sentences, snippet);
      |picked| == (if |sentences| < 3 then |sentences| else 3)
        && forall i :: 0 <= i < |picked| ==> picked[i] == Ranked(sentences)[i].text
    ensures var picked := Pick(sentences, snippet);
      forall i, j :: 0 <= i < j < |picked| ==> Score(picked[j]) <= Score(picked[i])
  {
    RankedEntries(sentences);
    var ranked := Ranked(sentences);
    var picked := Pick(sentences, snippet);
    forall i, j | 0 <= i < j < |picked|
      ensures Score(picked[j]) <= Score(picked[i])
    {
      assert picked[i] == ranked[i].text && picked[j] == ranked[j].text;
    }
  }

  /** With no sentence, the single pick is exactly the first 180 characters. */
  lemma FallbackPick(snippet: string)
    ensures Pick([], snippet) == [snippet[..if |snippet| < FallbackLimit then |snippet| else FallbackLimit]]
  {
  }

  /** `xs.join(sep)`. */
  function Join(xs: seq<string>, sep: string): (r: string)
    ensures xs == [] ==> r == ""
    ensures |xs| == 1 ==> r == xs[0]
    ensures |xs| == 2 ==> r == xs[0] + sep + xs[1]
    ensures |xs| == 3 ==> r == xs[0] + sep + xs[1] + sep + xs[2]
  {
    if xs == [] then ""
    else if |xs| == 1 then xs[0]
    else xs[0] + sep + Join(xs[1..], sep)
  }

  /** The total length of the pieces. */
  function Total(xs: seq<string>): nat {
    if xs == [] then 0 else |xs[0]| + Total(xs[1..])
  }

  /** The joined string holds the pieces and one separator between each two. */
  lemma {:induction false} JoinLength(xs: seq<string>, sep: string)
    requires xs != []
    ensures |Join(xs, sep)| == Total(xs) + (|xs| - 1) * |sep|
  {
    if |xs| > 1 {
      JoinLength(xs[1..], sep);
    }
  }

  /** `"• " + picked.join("\n• ")`, before the length cap. */
  function Bulleted(picked: seq<string>): (r: string)
    ensures |r| >= 2 && r[..2] == "• "
    ensures |picked| == 1 ==> r == "• " + picked[0]
    ensures |picked| == 2 ==> r == "• " + picked[0] + "\n• " + picked[1]
    ensures |picked| == 3 ==> r == "• " + picked[0] + "\n• " + picked[1] + "\n• " + picked[2]
  {
    "• " + Join(picked, "\n• ")
  }

  /** The length cap: more than 500 characters are cut to 500 and `…` appended. */
  function Render(picked: seq<string>): (r: string)
    ensures |r| <= SummaryLimit + 1
    ensures |r| >= 2 && r[..2] == "• "
  {
    var u := Bulleted(picked);
    if |u| > SummaryLimit then u[..SummaryLimit] + "…" else u
  }

  /** A summary that was cut ends with `…` after the first 500 characters; one that
    * was not cut is the bulleted text itself. */
  lemma RenderCut(picked: seq<string>)
    ensures |Bulleted(picked)| > SummaryLimit ==>
      |Render(picked)| == SummaryLimit + 1 && Render(picked)[SummaryLimit] == '…'
      && Render(picked)[..SummaryLimit] == Bulleted(picked)[..SummaryLimit]
    ensures |Bulleted(picked)| <= SummaryLimit ==> Render(picked) == Bulleted(picked)
  {
  }

  /** Ending with `…` does not mean the summary was cut: a short sentence of its
    * own may end with it. */
  lemma EllipsisWithoutCut()
    ensures |Bulleted(["…"])| <= SummaryLimit
    ensures Render(["…"]) == "• …"
  {
    assert Bulleted(["…"]) == "• …";
  }

  /** The summary of a detail page: what `summarizeDetailFromHTML` returns. */
  function Summarize(html: string): (r: string)
    ensures |r| <= SummaryLimit + 1 && |r| >= 2 && r[..2] == "• "
  {
    var snippet := Snippet(StripTags(html));
    Render(Pick(Sentences(snippet), snippet))
  }

  /** The stop loop: `cut` starts at the end of the section and is lowered to each
    * stop heading found before it. */
  method CutAtStops(rest: string) returns (cut: nat)
    ensures cut == EarliestStop(rest, Stops)
  {
    cut := |rest|;
    for i := 0 to |Stops|
      invariant cut == EarliestStop(rest, Stops[..i])
    {
      assert Stops[..i + 1][..i] == Stops[..i];
      var found := IndexOf(rest, Stops[i], 0);
      if found.Some? && found.value < cut {
        cut := found.value;
      }
    }
    assert Stops[..|Stops|] == Stops;
  }

  /** `summarizeDetailFromHTML`. */
  method SummarizeDetail(html: string) returns (summary: string)
    ensures summary == Summarize(html)
  {
    var plain := StripTags(html);
    var snippet: string;
    match IndexOf(plain, Marker, 0) {
      case Some(start) =>
        var rest := plain[start + |Marker|..];
        var cut := CutAtStops(rest);
        snippet := Trim(rest[..cut]);
      case None =>
        snippet := Slice(plain, 0, SnippetLimit);
    }
    assert snippet == Snippet(plain);
    var sentences := Sentences(snippet);
    summary := Render(Pick(sentences, snippet));
  }
}
