/** The text normaliser applied to every extracted block: inline tags are cut
    out, runs of spaces are collapsed and the ends trimmed (`removeHTMLTags`),
    and blocks of ten bytes or fewer are dropped (`filterValidTexts`), both in
    backend/internal/services/parser.go. */
module Normalizer {
  import opened Text

  const DoubleSpace: Bytes := "  "

  /** Blocks must be longer than this many bytes to be kept. */
  const MinValidLength: nat := 10

  // ---------------------------------------------------------------------------
  // Removing inline tags
  // ---------------------------------------------------------------------------

  /** One round of the first loop of `removeHTMLTags`: cut from the first `<`
      to the first `>` after it, or nothing when either is missing. */
  function CutTag(text: Bytes): (r: Option<Bytes>)
    ensures r.Some? ==> |r.value| < |text|
  {
    var start := IndexOf(text, "<");
    if start == -1 then None
    else
      var end := IndexOf(text[start..], ">");
      if end == -1 then None else Some(text[..start] + text[start + end + 1..])
  }

  /** The first loop of `removeHTMLTags`: cut until no `<` has a `>` after it. */
  function StripInline(text: Bytes): Bytes
    decreases |text|
  {
    match CutTag(text)
    case None => text
    case Some(rest) => StripInline(rest)
  }

  /** No `<` is followed, anywhere later, by a `>`: nothing tag-like is left. */
  predicate NoTagLeft(s: Bytes)
  {
    forall i, j | 0 <= i < j < |s| :: !(s[i] == '<' && s[j] == '>')
  }

  /** A round cuts exactly when some `<` has a `>` after it. */
  lemma CutTagNone(text: Bytes)
    ensures CutTag(text).None? <==> NoTagLeft(text)
  {
    var start := IndexOf(text, "<");
    IndexOfByte(text, '<');
    if start != -1 {
      var end := IndexOf(text[start..], ">");
      IndexOfByte(text[start..], '>');
      if end != -1 {
        assert text[start + end] == '>';
        assert !NoTagLeft(text) by {
          assert text[start] == '<';
        }
      } else {
        forall i, j | 0 <= i < j < |text| && text[i] == '<'
          ensures text[j] != '>'
        {
          FirstByteBefore(text, '<', i);
          assert text[start..][j - start] == text[j];
        }
      }
    }
  }

  /** A round keeps a subsequence of the text. */
  lemma CutTagIsSubseq(text: Bytes)
    requires CutTag(text).Some?
    ensures IsSubseq(CutTag(text).value, text)
  {
    var start := IndexOf(text, "<");
    var end := IndexOf(text[start..], ">");
    CutIsSubseq(text, start, start + end + 1);
  }

  /** The first loop ends with nothing tag-like left, and keeps a
      subsequence of the text. */
  lemma {:induction false} StripInlineFacts(text: Bytes)
    decreases |text|
    ensures NoTagLeft(StripInline(text))
    ensures IsSubseq(StripInline(text), text)
  {
    match CutTag(text)
    case None =>
      CutTagNone(text);
      SubseqRefl(text);
    case Some(rest) =>
      StripInlineFacts(rest);
      CutTagIsSubseq(text);
      SubseqTrans(StripInline(rest), rest, text);
  }

  /** The first loop leaves a text alone exactly when nothing tag-like is in it. */
  lemma StripInlineFixed(text: Bytes)
    ensures StripInline(text) == text <==> NoTagLeft(text)
  {
    CutTagNone(text);
    StripInlineFacts(text);
  }

  /** Deleting elements keeps the property: a subsequence of a text with
      nothing tag-like has nothing tag-like either. */
  lemma {:induction false} NoTagLeftSubseq(a: Bytes, b: Bytes)
    requires IsSubseq(a, b) && NoTagLeft(b)
    decreases |b|
    ensures NoTagLeft(a)
  {
    if b != [] {
      assert NoTagLeft(b[1..]) by {
        forall i, j | 0 <= i < j < |b[1..]| ensures !(b[1..][i] == '<' && b[1..][j] == '>') {
          assert b[1..][i] == b[i + 1] && b[1..][j] == b[j + 1];
        }
      }
      if IsSubseq(a, b[1..]) {
        NoTagLeftSubseq(a, b[1..]);
      } else {
        NoTagLeftSubseq(a[1..], b[1..]);
        SubseqWithin(a[1..], b[1..]);
        if a[0] == '<' {
          forall k | 0 <= k < |b[1..]| ensures b[1..][k] != '>' {
            assert b[1..][k] == b[k + 1];
          }
          assert '>' !in a[1..];
        }
        forall i, j | 0 <= i < j < |a| ensures !(a[i] == '<' && a[j] == '>') {
          if i == 0 {
            assert a[j] == a[1..][j - 1];
          } else {
            assert a[i] == a[1..][i - 1] && a[j] == a[1..][j - 1];
          }
        }
      }
    }
  }

  /** A subsequence brings in no element. */
  lemma {:induction false} SubseqWithin(a: Bytes, b: Bytes)
    requires IsSubseq(a, b)
    decreases |b|
    ensures forall x | x in a :: x in b
  {
    if b != [] {
      if IsSubseq(a, b[1..]) {
        SubseqWithin(a, b[1..]);
      } else {
        SubseqWithin(a[1..], b[1..]);
        assert a == [a[0]] + a[1..];
      }
    }
  }

  // ---------------------------------------------------------------------------
  // Collapsing spaces
  // ---------------------------------------------------------------------------

  /** The second loop of `removeHTMLTags`: replace `"  "` by `" "` while the
      text still holds a double space. */
  function Collapse(text: Bytes): Bytes
    decreases |text|
  {
    if IndexOf(text, DoubleSpace) == -1 then text
    else
      IndexOfSpec(text, DoubleSpace);
      ReplaceAllShrinks(text, DoubleSpace, " ");
      Collapse(ReplaceAll(text, DoubleSpace, " "))
  }

  /** `removeHTMLTags`' result: the tags cut out, one unconditional collapse
      round and then the loop, and the ends trimmed. */
  function WithoutTags(text: Bytes): Bytes
  {
    TrimSpace(Collapse(ReplaceAll(StripInline(text), DoubleSpace, " ")))
  }

  /** A collapse round deletes one space of each double space it meets, so it
      keeps a subsequence. */
  lemma {:induction false} CollapseRoundIsSubseq(s: Bytes)
    decreases |s|
    ensures IsSubseq(ReplaceAll(s, DoubleSpace, " "), s)
  {
    if |s| < 2 {
      SubseqRefl(s);
    } else if s[..2] == DoubleSpace {
      var r := ReplaceAll(s[2..], DoubleSpace, " ");
      CollapseRoundIsSubseq(s[2..]);
      assert s[1..][1..] == s[2..];
      assert s[1..][0] == s[..2][1] == ' ';
      var kept: Bytes := [' '] + r;
      assert kept[1..] == r;
      assert IsSubseq(kept, s[1..]);
      assert ReplaceAll(s, DoubleSpace, " ") == kept;
    } else {
      var r := ReplaceAll(s[1..], DoubleSpace, " ");
      CollapseRoundIsSubseq(s[1..]);
      assert ([s[0]] + r)[1..] == r;
    }
  }

  /** A round over a text without a double space changes nothing. */
  lemma {:induction false} CollapseRoundAbsent(s: Bytes)
    requires Absent(s, DoubleSpace)
    decreases |s|
    ensures ReplaceAll(s, DoubleSpace, " ") == s
  {
    if |s| >= 2 {
      assert !MatchAt(s, DoubleSpace, 0);
      assert Absent(s[1..], DoubleSpace) by {
        forall k ensures !MatchAt(s[1..], DoubleSpace, k) {
          MatchInSlice(s, DoubleSpace, 1, k);
        }
      }
      CollapseRoundAbsent(s[1..]);
    }
  }

  /** The loop ends with no double space left, and keeps a subsequence. */
  lemma {:induction false} CollapseFacts(text: Bytes)
    decreases |text|
    ensures Absent(Collapse(text), DoubleSpace)
    ensures IsSubseq(Collapse(text), text)
  {
    IndexOfSpec(text, DoubleSpace);
    if IndexOf(text, DoubleSpace) == -1 {
      SubseqRefl(text);
    } else {
      var next := ReplaceAll(text, DoubleSpace, " ");
      ReplaceAllShrinks(text, DoubleSpace, " ");
      CollapseFacts(next);
      CollapseRoundIsSubseq(text);
      SubseqTrans(Collapse(next), next, text);
    }
  }

  /** A slice of a text without `p` has no `p` either. */
  lemma AbsentInSlice(s: Bytes, p: Bytes, a: nat, b: nat)
    requires a <= b <= |s| && Absent(s, p)
    ensures Absent(s[a..b], p)
  {
    forall k ensures !MatchAt(s[a..b], p, k) {
      MatchInSliceOf(s, p, a, b, k);
    }
  }

  /** A match inside `s[a..b]` is a match in `s`. */
  lemma MatchInSliceOf(s: Bytes, p: Bytes, a: nat, b: nat, k: int)
    requires a <= b <= |s|
    ensures MatchAt(s[a..b], p, k) ==> MatchAt(s, p, a + k)
  {
    if 0 <= k && k + |p| <= b - a {
      var t := s[a..b];
      assert forall i | k <= i < k + |p| :: t[i] == s[a + i];
      assert s[a..b][k..k + |p|] == s[a + k..a + k + |p|];
    }
  }

  /** A slice is a subsequence. */
  lemma SliceIsSubseq(s: Bytes, a: nat, b: nat)
    requires a <= b <= |s|
    ensures IsSubseq(s[a..b], s)
  {
    SuffixIsSubseq(s[..b], a);
    assert s[..b][a..] == s[a..b];
    CutIsSubseq(s, b, |s|);
    assert s[..b] + s[|s|..] == s[..b];
    SubseqTrans(s[a..b], s[..b], s);
  }

  /** What `removeHTMLTags` guarantees: its result keeps bytes of the text in
      order (it only deletes), holds no `<` with a `>` after it, holds no
      double space, and has no whitespace at either end. */
  lemma WithoutTagsFacts(text: Bytes)
    ensures IsSubseq(WithoutTags(text), text)
    ensures NoTagLeft(WithoutTags(text))
    ensures Absent(WithoutTags(text), DoubleSpace)
    ensures Trimmed(WithoutTags(text))
  {
    var a := StripInline(text);
    var b := ReplaceAll(a, DoubleSpace, " ");
    var c := Collapse(b);
    StripInlineFacts(text);
    CollapseRoundIsSubseq(a);
    CollapseFacts(b);
    SubseqTrans(c, b, a);
    SubseqTrans(c, a, text);
    var s := TrimStart(c, 0);
    var e := TrimEnd(c, s, |c|);
    SliceIsSubseq(c, s, e);
    AbsentInSlice(c, DoubleSpace, s, e);
    SubseqTrans(c[s..e], c, text);
    NoTagLeftSubseq(c, a);
    NoTagLeftSubseq(c[s..e], c);
  }

  /** Normalising leaves a text as it is exactly when it already has the
      three properties of a result: no tag, no double space, trimmed. */
  lemma WithoutTagsFixed(text: Bytes)
    ensures WithoutTags(text) == text <==>
      NoTagLeft(text) && Absent(text, DoubleSpace) && Trimmed(text)
  {
    WithoutTagsFacts(text);
    if NoTagLeft(text) && Absent(text, DoubleSpace) && Trimmed(text) {
      StripInlineFixed(text);
      CollapseRoundAbsent(text);
      IndexOfMissing(text, DoubleSpace);
      TrimSpaceOfTrimmed(text);
    }
  }

  /** Normalising a normalised text changes nothing. */
  lemma WithoutTagsIdempotent(text: Bytes)
    ensures WithoutTags(WithoutTags(text)) == WithoutTags(text)
  {
    WithoutTagsFacts(text);
    WithoutTagsFixed(WithoutTags(text));
  }

  /** A text without `<` holds no tag. */
  lemma NoOpenNoTag(text: Bytes)
    requires '<' !in text
    ensures NoTagLeft(text)
  {
  }

  /** The first loop of `removeHTMLTags`. */
  method RemoveInlineTags(input: Bytes) returns (text: Bytes)
    ensures text == StripInline(input)
  {
    text := input;
    while true
      invariant StripInline(text) == StripInline(input)
      decreases |text|
    {
      var start := IndexOf(text, "<");
      if start == -1 {
        break;
      }
      var end := IndexOf(text[start..], ">");
      if end == -1 {
        break;
      }
      text := text[..start] + text[start + end + 1..];
    }
  }

  /** `removeHTMLTags`. */
  method RemoveHTMLTags(input: Bytes) returns (text: Bytes)
    ensures text == WithoutTags(input)
  {
    text := RemoveInlineTags(input);
    text := ReplaceAll(text, DoubleSpace, " ");
    while IndexOf(text, DoubleSpace) != -1
      invariant Collapse(text) == Collapse(ReplaceAll(StripInline(input), DoubleSpace, " "))
      decreases |text|
    {
      IndexOfSpec(text, DoubleSpace);
      ReplaceAllShrinks(text, DoubleSpace, " ");
      text := ReplaceAll(text, DoubleSpace, " ");
    }
    text := TrimSpace(text);
  }

  // ---------------------------------------------------------------------------
  // Keeping the blocks that are long enough
  // ---------------------------------------------------------------------------

  /** What `filterValidTexts` makes of one block: normalised, trimmed once
      more, and kept when longer than `MinValidLength` bytes. */
  function ValidText(text: Bytes): seq<Bytes>
  {
    var t := TrimSpace(WithoutTags(text));
    if |t| > MinValidLength then [t] else []
  }

  /** `filterValidTexts`' result: the kept blocks in their original order. */
  function ValidTexts(texts: seq<Bytes>): seq<Bytes>
    decreases |texts|
  {
    if texts == [] then [] else ValidTexts(texts[..|texts| - 1]) + ValidText(texts[|texts| - 1])
  }

  /** One block is kept, normalised, exactly when its normalised form is longer
      than ten bytes; the extra trim changes nothing. */
  lemma ValidTextSpec(text: Bytes)
    ensures ValidText(text) ==
      if |WithoutTags(text)| > MinValidLength then [WithoutTags(text)] else []
  {
    WithoutTagsFacts(text);
    TrimSpaceOfTrimmed(WithoutTags(text));
  }

  /** Filtering works block by block and keeps the order: the result for two
      runs of blocks is the two results one after the other. */
  lemma {:induction false} ValidTextsAppend(a: seq<Bytes>, b: seq<Bytes>)
    decreases |b|
    ensures ValidTexts(a + b) == ValidTexts(a) + ValidTexts(b)
  {
    if b == [] {
      assert a + b == a;
    } else {
      var n := |b| - 1;
      assert (a + b)[..|a + b| - 1] == a + b[..n];
      assert (a + b)[|a + b| - 1] == b[n];
      ValidTextsAppend(a, b[..n]);
    }
  }

  /** Every kept block is the normalised form of an input block, and is
      longer than ten bytes. */
  lemma {:induction false} ValidTextsSound(texts: seq<Bytes>, v: Bytes)
    requires v in ValidTexts(texts)
    decreases |texts|
    ensures |v| > MinValidLength
    ensures exists k | 0 <= k < |texts| :: v == WithoutTags(texts[k])
  {
    var n := |texts| - 1;
    ValidTextSpec(texts[n]);
    if v in ValidTexts(texts[..n]) {
      ValidTextsSound(texts[..n], v);
      var k :| 0 <= k < n && v == WithoutTags(texts[..n][k]);
      assert texts[..n][k] == texts[k];
    } else {
      assert v == WithoutTags(texts[n]);
    }
  }

  /** Every input block whose normalised form is longer than ten bytes is kept. */
  lemma {:induction false} ValidTextsComplete(texts: seq<Bytes>, k: nat)
    requires k < |texts| && |WithoutTags(texts[k])| > MinValidLength
    decreases |texts|
    ensures WithoutTags(texts[k]) in ValidTexts(texts)
  {
    var n := |texts| - 1;
    if k < n {
      var front := texts[..n];
      assert front[k] == texts[k];
      ValidTextsComplete(front, k);
      ValidTextsKeepsFront(texts, WithoutTags(texts[k]));
    } else {
      ValidTextsKeepsLast(texts);
    }
  }

  /** What is kept from all blocks but the last is kept from all of them, */
  lemma ValidTextsKeepsFront(texts: seq<Bytes>, v: Bytes)
    requires texts != [] && v in ValidTexts(texts[..|texts| - 1])
    ensures v in ValidTexts(texts)
  {
  }

  /** and so is the last block, when its normalised form is long enough. */
  lemma ValidTextsKeepsLast(texts: seq<Bytes>)
    requires texts != [] && |WithoutTags(texts[|texts| - 1])| > MinValidLength
    ensures WithoutTags(texts[|texts| - 1]) in ValidTexts(texts)
  {
    ValidTextSpec(texts[|texts| - 1]);
  }

  /** `filterValidTexts`. */
  method FilterValidTexts(texts: seq<Bytes>) returns (valid: seq<Bytes>)
    ensures valid == ValidTexts(texts)
  {
    valid := [];
    for k := 0 to |texts|
      invariant valid == ValidTexts(texts[..k])
    {
      var text := RemoveHTMLTags(texts[k]);
      text := TrimSpace(text);
      if |text| > MinValidLength {
        valid := valid + [text];
      }
      assert texts[..k + 1][..k] == texts[..k];
    }
    assert texts[..|texts|] == texts;
  }
}
