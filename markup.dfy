/**
 * The markup normaliser `stripTags` of background.js: a fixed chain of global
 * rewrite passes that turns markup into flat, single-spaced, trimmed text.
 * Each pass is a scanner that walks the input left to right the way a global
 * `replace` does: at each position it either rewrites a match and resumes after
 * it, or copies one character and moves on.
 */
module Markup {
  import opened Text

  /** A character kept in front of the text kept after it. */
  lemma ConsSlice(s: string, i: nat, p: nat, rest: string)
    requires i < p <= |s|
    ensures [s[i]] + (s[i + 1..p] + rest) == s[i..p] + rest
  {
    assert s[i..p] == [s[i]] + s[i + 1..p];
  }

  /** A complete block starts at `j`: the opening word, and a closing word somewhere
    * after it. */
  predicate BlockAt(s: string, open: string, close: string, j: nat) {
    AtCI(s, j, open) && IndexOfCI(s, close, j + |open|).Some?
  }

  /** `replace(/<open[\s\S]*?close/gi, "")` from position `i`: a block runs from an
    * opening word to the NEAREST closing word after it, and an opening word with no
    * closing word after it is left in place. */
  function DropBlocks(s: string, open: string, close: string, i: nat): (r: string)
    requires |open| > 0 && i <= |s|
    decreases |s| - i
    ensures |r| <= |s| - i
  {
    if i == |s| then ""
    else if BlockAt(s, open, close, i) then
      DropBlocks(s, open, close, IndexOfCI(s, close, i + |open|).value + |close|)
    else [s[i]] + DropBlocks(s, open, close, i + 1)
  }

  /** Text with no complete block from `i` on comes back unchanged. */
  lemma {:induction false} DropBlocksNone(s: string, open: string, close: string, i: nat)
    requires |open| > 0 && i <= |s|
    requires forall j :: i <= j < |s| ==> !BlockAt(s, open, close, j)
    ensures DropBlocks(s, open, close, i) == s[i..]
    decreases |s| - i
  {
    if i < |s| {
      DropBlocksNone(s, open, close, i + 1);
    }
  }

  /** The leftmost complete block from `i` on is removed, from its opening word up to
    * and including the nearest closing word, and the text before it is kept. */
  lemma {:induction false} DropBlocksFirst(s: string, open: string, close: string, i: nat, p: nat)
    requires |open| > 0 && i <= p < |s|
    requires BlockAt(s, open, close, p)
    requires forall j :: i <= j < p ==> !BlockAt(s, open, close, j)
    ensures DropBlocks(s, open, close, i) == s[i..p] + DropBlocks(s, open, close, p)
    ensures DropBlocks(s, open, close, p)
      == DropBlocks(s, open, close, IndexOfCI(s, close, p + |open|).value + |close|)
    decreases p - i
  {
    if i < p {
      var rest := DropBlocks(s, open, close, p);
      assert !BlockAt(s, open, close, i);
      DropBlocksFirst(s, open, close, i + 1, p);
      ConsSlice(s, i, p, rest);
    } else {
      assert s[i..p] == [];
    }
  }

  /** `<[^>]+>` matches at `j`: a `<`, then at least one character before the nearest
    * `>`. */
  predicate TagAt(s: string, j: nat) {
    j < |s| && s[j] == '<' && IndexOf(s, ">", j + 1).Some? && IndexOf(s, ">", j + 1).value > j + 1
  }

  /** `replace(/<[^>]+>/g, " ")` from position `i`: a `<`, at least one character,
    * and the nearest `>` after it become one space; `<>` and a `<` never closed stay. */
  function ReplaceTags(s: string, i: nat): (r: string)
    requires i <= |s|
    decreases |s| - i
    ensures |r| <= |s| - i
  {
    if i == |s| then ""
    else if TagAt(s, i) then " " + ReplaceTags(s, IndexOf(s, ">", i + 1).value + 1)
    else [s[i]] + ReplaceTags(s, i + 1)
  }

  /** Text with no tag from `i` on comes back unchanged. */
  lemma {:induction false} ReplaceTagsNone(s: string, i: nat)
    requires i <= |s|
    requires forall j :: i <= j < |s| ==> !TagAt(s, j)
    ensures ReplaceTags(s, i) == s[i..]
    decreases |s| - i
  {
    if i < |s| {
      ReplaceTagsNone(s, i + 1);
    }
  }

  /** A tag at `p`, up to the nearest `>`, becomes one space. */
  lemma ReplaceTagsAtTag(s: string, p: nat)
    requires TagAt(s, p)
    ensures ReplaceTags(s, p) == " " + ReplaceTags(s, IndexOf(s, ">", p + 1).value + 1)
  {
  }

  /** The text from `i` up to a tag at `p` with no tag before it is kept as it is. */
  lemma {:induction false} ReplaceTagsBefore(s: string, i: nat, p: nat)
    requires i <= p && TagAt(s, p)
    requires forall j :: i <= j < p ==> !TagAt(s, j)
    ensures ReplaceTags(s, i) == s[i..p] + ReplaceTags(s, p)
    decreases p - i
  {
    if i < p {
      var rest := ReplaceTags(s, p);
      assert !TagAt(s, i);
      ReplaceTagsBefore(s, i + 1, p);
      ConsSlice(s, i, p, rest);
    } else {
      assert s[i..p] == [];
    }
  }

  /** The leftmost tag from `i` on becomes one space, and the text before it is kept. */
  lemma ReplaceTagsFirst(s: string, i: nat, p: nat)
    requires i <= p && TagAt(s, p)
    requires forall j :: i <= j < p ==> !TagAt(s, j)
    ensures ReplaceTags(s, i) == s[i..p] + ReplaceTags(s, p)
    ensures ReplaceTags(s, p) == " " + ReplaceTags(s, IndexOf(s, ">", p + 1).value + 1)
  {
    ReplaceTagsBefore(s, i, p);
    ReplaceTagsAtTag(s, p);
  }

  /** `replace(/pat/g, rep)` for a literal pattern, from position `i`. */
  function ReplaceAll(s: string, pat: string, rep: string, i: nat): (r: string)
    requires |pat| > 0 && i <= |s|
    decreases |s| - i
    ensures |rep| <= |pat| ==> |r| <= |s| - i
  {
    if i == |s| then ""
    else if At(s, i, pat) then rep + ReplaceAll(s, pat, rep, i + |pat|)
    else [s[i]] + ReplaceAll(s, pat, rep, i + 1)
  }

  /** Every occurrence is replaced, not only the first: the text before the leftmost
    * occurrence from `i` on is kept, the occurrence becomes `rep`, and the scan
    * resumes right after it. */
  lemma {:induction false} ReplaceAllFirst(s: string, pat: string, rep: string, i: nat, p: nat)
    requires |pat| > 0 && i <= p && At(s, p, pat)
    requires forall j :: i <= j < p ==> !At(s, j, pat)
    ensures ReplaceAll(s, pat, rep, i) == s[i..p] + ReplaceAll(s, pat, rep, p)
    ensures ReplaceAll(s, pat, rep, p) == rep + ReplaceAll(s, pat, rep, p + |pat|)
    decreases p - i
  {
    if i < p {
      var rest := ReplaceAll(s, pat, rep, p);
      assert !At(s, i, pat);
      ReplaceAllFirst(s, pat, rep, i + 1, p);
      ConsSlice(s, i, p, rest);
    } else {
      assert s[i..p] == [];
    }
  }

  /** When no occurrence straddles `m`, the scan reaches `m` exactly, so the text
    * before `m` is rewritten on its own. */
  lemma {:induction false} ReplaceAllSplit(s: string, pat: string, rep: string, i: nat, m: nat)
    requires |pat| > 0 && i <= m <= |s|
    requires forall j :: i <= j < m < j + |pat| ==> !At(s, j, pat)
    ensures ReplaceAll(s, pat, rep, i) == ReplaceAll(s[..m], pat, rep, i) + ReplaceAll(s, pat, rep, m)
    decreases m - i
  {
    var tail := ReplaceAll(s, pat, rep, m);
    if i < m {
      if At(s, i, pat) {
        assert s[..m][i..i + |pat|] == s[i..i + |pat|];
        ReplaceAllSplit(s, pat, rep, i + |pat|, m);
        ConcatAssoc(rep, ReplaceAll(s[..m], pat, rep, i + |pat|), tail);
      } else {
        assert !At(s[..m], i, pat) by {
          if i + |pat| <= m {
            assert s[..m][i..i + |pat|] == s[i..i + |pat|];
          }
        }
        ReplaceAllSplit(s, pat, rep, i + 1, m);
        ConcatAssoc([s[i]], ReplaceAll(s[..m], pat, rep, i + 1), tail);
      }
    }
  }

  /** An occurrence at `i` is replaced and the scan resumes after it. */
  lemma ReplaceAllHit(s: string, pat: string, rep: string, i: nat)
    requires |pat| > 0 && At(s, i, pat)
    ensures ReplaceAll(s, pat, rep, i) == rep + ReplaceAll(s, pat, rep, i + |pat|)
  {
  }

  /** A character where the pattern does not occur is kept. */
  lemma ReplaceAllMiss(s: string, pat: string, rep: string, i: nat)
    requires |pat| > 0 && i < |s| && !At(s, i, pat)
    ensures ReplaceAll(s, pat, rep, i) == [s[i]] + ReplaceAll(s, pat, rep, i + 1)
  {
  }

  /** The pattern occurs at `i` after `m` exactly when it occurs at `m + i`, and the
    * character there is the same. */
  lemma AtInSuffix(s: string, m: nat, i: nat, pat: string)
    requires m + i < |s|
    ensures i < |s[m..]| && s[m..][i] == s[m + i]
    ensures At(s[m..], i, pat) <==> At(s, m + i, pat)
  {
    if m + i + |pat| <= |s| {
      AtInSlice(s, m, |s|, i, pat);
      assert s[m..|s|] == s[m..];
    }
  }

  /** Rewriting from `m + i` is rewriting the text after `m` from `i`. */
  lemma {:induction false} ReplaceAllShift(s: string, pat: string, rep: string, m: nat, i: nat)
    requires |pat| > 0 && m + i <= |s|
    ensures ReplaceAll(s, pat, rep, m + i) == ReplaceAll(s[m..], pat, rep, i)
    decreases |s| - m - i
  {
    var t := s[m..];
    if m + i < |s| {
      AtInSuffix(s, m, i, pat);
      if At(s, m + i, pat) {
        ReplaceAllShift(s, pat, rep, m, i + |pat|);
        ReplaceAllHit(t, pat, rep, i);
      } else {
        ReplaceAllShift(s, pat, rep, m, i + 1);
        ReplaceAllMiss(t, pat, rep, i);
      }
    }
  }

  /** No occurrence of `pat` can cover the first or the last character of `e`
    * without starting or ending there: the first character of `e` is not in `pat`
    * after its start, and the last is not in `pat` before its end. */
  predicate Guarded(e: string, pat: string) {
    |e| > 0
    && (forall d :: 0 < d < |pat| ==> pat[d] != e[0])
    && (forall d :: 0 <= d < |pat| - 1 ==> pat[d] != e[|e| - 1])
  }

  /** A pass rewrites a guarded piece independently of the text around it. */
  lemma ReplaceAllAround(x: string, e: string, y: string, pat: string, rep: string)
    requires |pat| > 0 && Guarded(e, pat)
    ensures ReplaceAll(x + e + y, pat, rep, 0)
      == ReplaceAll(x, pat, rep, 0) + ReplaceAll(e, pat, rep, 0) + ReplaceAll(y, pat, rep, 0)
  {
    var s := x + (e + y);
    assert x + e + y == s;
    forall j: nat | j < |x| < j + |pat|
      ensures !At(s, j, pat)
    {
      NotAtMismatch(s, j, pat, |x| - j);
    }
    ReplaceAllSplit(s, pat, rep, 0, |x|);
    assert s[..|x|] == x && s[|x|..] == e + y;
    ReplaceAllShift(s, pat, rep, |x|, 0);
    var t := e + y;
    forall j: nat | j < |e| < j + |pat|
      ensures !At(t, j, pat)
    {
      NotAtMismatch(t, j, pat, |e| - 1 - j);
    }
    ReplaceAllSplit(t, pat, rep, 0, |e|);
    assert t[..|e|] == e && t[|e|..] == y;
    ReplaceAllShift(t, pat, rep, |e|, 0);
    ConcatAssoc(ReplaceAll(x, pat, rep, 0), ReplaceAll(e, pat, rep, 0), ReplaceAll(y, pat, rep, 0));
  }

  /** An HTML entity: `&`, then a name with neither `&` nor `;` in it, then `;`. */
  predicate IsEntity(e: string) {
    |e| >= 2 && e[0] == '&' && e[|e| - 1] == ';'
    && forall k :: 0 < k < |e| - 1 ==> e[k] != '&' && e[k] != ';'
  }

  /** One entity cannot overlap another except by being the same: a pattern that
    * is an entity is guarded by any entity, and occurs in one only as all of it. */
  lemma EntityAgainstEntity(e: string, pat: string)
    requires IsEntity(e) && IsEntity(pat)
    ensures Guarded(e, pat)
    ensures forall rep :: ReplaceAll(e, pat, rep, 0) == if e == pat then rep else e
  {
    forall j: nat
      ensures At(e, j, pat) <==> j == 0 && e == pat
    {
      if At(e, j, pat) {
        assert e[j..j + |pat|][0] == e[j];
        assert e[j..j + |pat|][|pat| - 1] == e[j + |pat| - 1];
        assert e[j..j + |pat|] == e;
      }
    }
    forall rep
      ensures ReplaceAll(e, pat, rep, 0) == if e == pat then rep else e
    {
      if e == pat {
        assert ReplaceAll(e, pat, rep, |pat|) == "";
      } else {
        ReplaceAllIdentity(e, pat, rep, 0);
      }
    }
  }

  /** The two entity passes, `&nbsp;` first and `&amp;` second. */
  function DecodeEntities(s: string): (r: string)
    ensures |r| <= |s|
  {
    ReplaceAll(ReplaceAll(s, "&nbsp;", " ", 0), "&amp;", "&", 0)
  }

  /** `replace(/\s+/g, " ")` from position `i`: every maximal run of spaces
    * becomes one plain space. */
  function Collapse(s: string, i: nat): (r: string)
    requires i <= |s|
    decreases |s| - i
    ensures |r| <= |s| - i
    ensures NoAdjacentSpaces(r) && OnlyPlainSpaces(r)
    ensures |r| > 0 && IsSpace(r[0]) ==> i < |s| && IsSpace(s[i])
  {
    if i == |s| then ""
    else if IsSpace(s[i]) then " " + Collapse(s, i + SpaceRun(s, i))
    else [s[i]] + Collapse(s, i + 1)
  }

  /** Every run of spaces is collapsed, not only the first: the text before the
    * leftmost space from `i` on is kept, the whole run becomes one space, and the
    * scan resumes after the run. */
  lemma {:induction false} CollapseFirst(s: string, i: nat, p: nat)
    requires i <= p < |s| && IsSpace(s[p])
    requires forall j :: i <= j < p ==> !IsSpace(s[j])
    ensures Collapse(s, i) == s[i..p] + Collapse(s, p)
    ensures Collapse(s, p) == " " + Collapse(s, p + SpaceRun(s, p))
    decreases p - i
  {
    if i < p {
      var rest := Collapse(s, p);
      assert Collapse(s, i) == [s[i]] + Collapse(s, i + 1) by {
        assert !IsSpace(s[i]);
      }
      CollapseFirst(s, i + 1, p);
      ConsSlice(s, i, p, rest);
    } else {
      assert s[i..p] == [];
    }
  }

  /** Text that is already single-spaced with plain spaces is not changed by
    * collapsing. */
  lemma {:induction false} CollapseKeepsSingleSpaces(s: string, i: nat)
    requires i <= |s| && NoAdjacentSpaces(s) && OnlyPlainSpaces(s)
    ensures Collapse(s, i) == s[i..]
    decreases |s| - i
  {
    if i < |s| {
      if IsSpace(s[i]) {
        RunLengthIs(s, i, IsSpace, 1);
      }
      CollapseKeepsSingleSpaces(s, i + 1);
      assert s[i..] == [s[i]] + s[i + 1..];
    }
  }

  /** `stripTags`: never fails, never lengthens its input, and yields text with
    * no space at either end, no two spaces in a row, and only plain spaces. */
  function StripTags(html: string): (r: string)
    ensures |r| <= |html|
    ensures Trimmed(r) && NoAdjacentSpaces(r) && OnlyPlainSpaces(r)
  {
    var noScript := DropBlocks(html, "<script", "</script>", 0);
    var noStyle := DropBlocks(noScript, "<style", "</style>", 0);
    var noTags := ReplaceTags(noStyle, 0);
    var collapsed := Collapse(DecodeEntities(noTags), 0);
    TrimKeepsSpacing(collapsed);
    Trim(collapsed)
  }

  /** Text with no `<` in it has no block to drop. */
  lemma {:induction false} DropBlocksIdentity(s: string, open: string, close: string, i: nat)
    requires |open| > 0 && open[0] == '<' && i <= |s|
    requires forall j :: 0 <= j < |s| ==> s[j] != '<'
    ensures DropBlocks(s, open, close, i) == s[i..]
    decreases |s| - i
  {
    if i < |s| {
      assert !AtCI(s, i, open) by {
        assert Lower(s[i]) != '<';
      }
      DropBlocksIdentity(s, open, close, i + 1);
    }
  }

  /** Text with no `<` in it has no tag to replace. */
  lemma {:induction false} ReplaceTagsIdentity(s: string, i: nat)
    requires i <= |s|
    requires forall j :: 0 <= j < |s| ==> s[j] != '<'
    ensures ReplaceTags(s, i) == s[i..]
    decreases |s| - i
  {
    if i < |s| {
      ReplaceTagsIdentity(s, i + 1);
    }
  }

  /** A pattern that occurs nowhere is not rewritten. */
  lemma {:induction false} ReplaceAllIdentity(s: string, pat: string, rep: string, i: nat)
    requires |pat| > 0 && i <= |s|
    requires forall j: nat :: !At(s, j, pat)
    ensures ReplaceAll(s, pat, rep, i) == s[i..]
    decreases |s| - i
  {
    if i < |s| {
      ReplaceAllIdentity(s, pat, rep, i + 1);
    }
  }

  /** Text with no space characters is not changed by collapsing. */
  lemma {:induction false} CollapseIdentity(s: string, i: nat)
    requires i <= |s|
    requires forall j :: i <= j < |s| ==> !IsSpace(s[j])
    ensures Collapse(s, i) == s[i..]
    decreases |s| - i
  {
    if i < |s| {
      CollapseIdentity(s, i + 1);
    }
  }

  /** Text holding neither `&nbsp;` nor `&amp;` is not changed by decoding. */
  lemma EntityFreeUnchanged(s: string)
    requires forall j: nat :: !At(s, j, "&nbsp;") && !At(s, j, "&amp;")
    ensures DecodeEntities(s) == s
  {
    ReplaceAllIdentity(s, "&nbsp;", " ", 0);
    ReplaceAllIdentity(s, "&amp;", "&", 0);
  }

  /** What decoding makes of one entity on its own. */
  function Decoded(e: string): (r: string)
    ensures e != "&nbsp;" && e != "&amp;" ==> r == e
  {
    if e == "&nbsp;" then " " else if e == "&amp;" then "&" else e
  }

  /** The space that `&nbsp;` becomes is left alone by the `&amp;` pass. */
  lemma SpaceAgainstAmp()
    ensures Guarded(" ", "&amp;") && ReplaceAll(" ", "&amp;", "&", 0) == " "
  {
    assert forall j: nat :: !At(" ", j, "&amp;");
    ReplaceAllIdentity(" ", "&amp;", "&", 0);
  }

  /** Each entity is decoded in place wherever it stands: `&nbsp;` becomes a space,
    * `&amp;` becomes `&`, and the text on either side is decoded on its own. */
  lemma DecodeEntitiesAround(x: string, e: string, y: string)
    requires IsEntity(e)
    ensures DecodeEntities(x + e + y) == DecodeEntities(x) + Decoded(e) + DecodeEntities(y)
  {
    var nbsp, amp := "&nbsp;", "&amp;";
    assert IsEntity(nbsp) && IsEntity(amp);
    EntityAgainstEntity(e, nbsp);
    ReplaceAllAround(x, e, y, nbsp, " ");
    var x1, y1 := ReplaceAll(x, nbsp, " ", 0), ReplaceAll(y, nbsp, " ", 0);
    if e == nbsp {
      SpaceAgainstAmp();
      ReplaceAllAround(x1, " ", y1, amp, "&");
    } else {
      EntityAgainstEntity(e, amp);
      ReplaceAllAround(x1, e, y1, amp, "&");
    }
  }

  /** Only `&nbsp;` and `&amp;` are decoded: any other entity passes through
    * unchanged, whatever text stands around it. */
  lemma OtherEntitiesPassThrough(x: string, e: string, y: string)
    requires IsEntity(e) && e != "&nbsp;" && e != "&amp;"
    ensures DecodeEntities(x + e + y) == DecodeEntities(x) + e + DecodeEntities(y)
  {
    DecodeEntitiesAround(x, e, y);
  }

  /** On text without markup, `stripTags` only decodes the two entities,
    * collapses spaces and trims. */
  lemma PlainTextOnlyNormalised(s: string)
    requires forall j :: 0 <= j < |s| ==> s[j] != '<'
    ensures StripTags(s) == Trim(Collapse(DecodeEntities(s), 0))
  {
    DropBlocksIdentity(s, "<script", "</script>", 0);
    DropBlocksIdentity(s, "<style", "</style>", 0);
    ReplaceTagsIdentity(s, 0);
  }

  /** Without an `&` there is no entity to decode. */
  lemma NoAmpersandNoEntity(s: string)
    requires forall j :: 0 <= j < |s| ==> s[j] != '&'
    ensures DecodeEntities(s) == s
  {
    forall j: nat ensures !At(s, j, "&nbsp;") && !At(s, j, "&amp;") {
      if j < |s| {
        assert j + 6 > |s| || s[j..j + 6][0] != '&';
        assert j + 5 > |s| || s[j..j + 5][0] != '&';
      }
    }
    EntityFreeUnchanged(s);
  }

  /** A word with no markup, entity or space comes out as it went in. */
  lemma PlainWordUnchanged(s: string)
    requires forall j :: 0 <= j < |s| ==> s[j] != '<' && s[j] != '&' && !IsSpace(s[j])
    ensures StripTags(s) == s
  {
    PlainTextOnlyNormalised(s);
    NoAmpersandNoEntity(s);
    CollapseIdentity(s, 0);
    assert Collapse(s, 0) == s;
    assert Trimmed(s);
  }

  /** Markup-free, entity-free text that is already trimmed and single-spaced with
    * plain spaces is what `stripTags` returns for it: in particular no text after
    * a space is lost. */
  lemma NormalTextUnchanged(s: string)
    requires forall j :: 0 <= j < |s| ==> s[j] != '<' && s[j] != '&'
    requires Trimmed(s) && NoAdjacentSpaces(s) && OnlyPlainSpaces(s)
    ensures StripTags(s) == s
  {
    PlainTextOnlyNormalised(s);
    NoAmpersandNoEntity(s);
    CollapseKeepsSingleSpaces(s, 0);
  }

  /** The `&amp;` pass applied to `&amp;nbsp;`. */
  lemma AmpDecodedOnce()
    ensures ReplaceAll("&amp;nbsp;", "&amp;", "&", 0) == "&nbsp;"
  {
    var s := "&amp;nbsp;";
    assert At(s, 0, "&amp;");
    assert ReplaceAll(s, "&amp;", "&", 5) == "nbsp;" by {
      assert forall j: nat :: j < 5 ==> !At(s[5..], j, "&amp;");
    }
  }

  /** Markup-free text whose decoded form has no spaces comes out decoded. */
  lemma DecodedWordIsResult(s: string, t: string)
    requires forall j :: 0 <= j < |s| ==> s[j] != '<'
    requires DecodeEntities(s) == t
    requires forall j :: 0 <= j < |t| ==> !IsSpace(t[j])
    ensures StripTags(s) == t
  {
    PlainTextOnlyNormalised(s);
    CollapseIdentity(t, 0);
    assert Collapse(t, 0) == t && Trimmed(t);
  }

  /** `&amp;nbsp;` holds no `&nbsp;`, so the first entity pass leaves it alone. */
  lemma NbspPassSkipsEscaped()
    ensures ReplaceAll("&amp;nbsp;", "&nbsp;", " ", 0) == "&amp;nbsp;"
  {
    var s := "&amp;nbsp;";
    forall j: nat ensures !At(s, j, "&nbsp;") {
      if j + 6 <= |s| {
        assert s[j..j + 6][0] != '&' || s[j..j + 6][1] != 'n';
      }
    }
    ReplaceAllIdentity(s, "&nbsp;", " ", 0);
  }

  /** The entity passes turn `&amp;nbsp;` into `&nbsp;`. */
  lemma EscapedNbspDecoded()
    ensures DecodeEntities("&amp;nbsp;") == "&nbsp;"
  {
    NbspPassSkipsEscaped();
    AmpDecodedOnce();
  }

  /** `&amp;nbsp;` has no markup, and `&nbsp;` has no whitespace. */
  lemma EscapedNbspIsPlain()
    ensures forall j :: 0 <= j < |"&amp;nbsp;"| ==> "&amp;nbsp;"[j] != '<'
    ensures forall j :: 0 <= j < |"&nbsp;"| ==> !IsSpace("&nbsp;"[j])
  {
  }

  /** `&nbsp;` is decoded before `&amp;`, so `&amp;nbsp;` becomes the literal `&nbsp;`
    * and is not decoded a second time. */
  lemma EscapedNbspStaysLiteral()
    ensures StripTags("&amp;nbsp;") == "&nbsp;"
  {
    EscapedNbspDecoded();
    EscapedNbspIsPlain();
    DecodedWordIsResult("&amp;nbsp;", "&nbsp;");
  }
}
