// A small but complete page run through the whole composition: the title and
// description are found, the script element is stripped, the one paragraph
// survives the filter and becomes the digest's content.

module WholePage {
  import opened Text
  import TagStripper
  import Blocks
  import Normalizer
  import Fields
  import Pipeline
  import Summarizer

  // The page is written in pieces short enough for the verifier to handle.
  const Head: Bytes := "<html><head>"
  const TitleEl: Bytes := "<title>Hi</title>"
  const MetaOpen: Bytes := "<meta "
  const NameEl: Bytes := "name=\"description\" "
  const ContentOpen: Bytes := "content=\""
  const DescValue: Bytes := "Desc"
  const MetaEnd: Bytes := "\">"
  const Mid: Bytes := "</head><body>"
  const ScriptEl: Bytes := "<script>evil()</script>"
  const ParaStart: Bytes := "This is a long enough "
  const ParaEnd: Bytes := "paragraph to survive filtering."
  const ParaOpen: Bytes := "<p>"
  const ParaClose: Bytes := "</p>"
  const Tail: Bytes := "</body></html>"

  const Para: Bytes := ParaStart + ParaEnd
  const ParaEl: Bytes := ParaOpen + (Para + (ParaClose + Tail))
  const AfterMeta: Bytes := Mid + (ScriptEl + ParaEl)
  const AfterValue: Bytes := MetaEnd + AfterMeta
  const AfterName: Bytes := ContentOpen + (DescValue + AfterValue)
  const AfterTitle: Bytes := MetaOpen + (NameEl + AfterName)

  /** `<html><head><title>Hi</title><meta name="description" content="Desc">
      </head><body><script>evil()</script><p>This is a long enough paragraph
      to survive filtering.</p></body></html>`, without the line breaks. */
  const Page: Bytes := Head + (TitleEl + AfterTitle)

  /** The head and the start of the body, up to the script element. */
  const Front: Bytes :=
    Head + (TitleEl + (MetaOpen + (NameEl + (ContentOpen + (DescValue + (MetaEnd + Mid))))))

  /** The page once the script element is gone. */
  const Rest: Bytes := Front + ParaEl

  // Lower-case forms of the pieces that hold capitals.
  const TitleLower: Bytes := "<title>hi</title>"
  const ParaStartLower: Bytes := "this is a long enough "
  const ParaLower: Bytes := ParaStartLower + ParaEnd

  // ---------------------------------------------------------------------------
  // Searching concatenations
  // ---------------------------------------------------------------------------

  /** Searching past a front part that never holds the pattern's first two
      bytes together, not even across the seam. */
  lemma IndexOfPast(a: Bytes, b: Bytes, p: Bytes)
    requires |p| >= 2 && PairFree(a, p[0], p[1])
    requires a == [] || b == [] || !(a[|a| - 1] == p[0] && b[0] == p[1])
    ensures IndexOf(a + b, p) == if IndexOf(b, p) == -1 then -1 else |a| + IndexOf(b, p)
  {
    NoMatchInPairFree(a, b, p);
    IndexOfBack(a, b, p);
  }

  /** Searching past a front part that lacks the pattern's first byte. */
  lemma IndexOfPastFirst(a: Bytes, b: Bytes, p: Bytes)
    requires |p| >= 1 && p[0] !in a
    ensures IndexOf(a + b, p) == if IndexOf(b, p) == -1 then -1 else |a| + IndexOf(b, p)
  {
    NoMatchInFirstFree(a, b, p);
    IndexOfBack(a, b, p);
  }

  /** Every `<` in `s` is followed, inside `s`, by a byte from `ok`. */
  predicate TagsStartWith(s: Bytes, ok: set<Byte>)
  {
    forall i | 0 <= i < |s| && s[i] == '<' :: i + 1 < |s| && s[i + 1] in ok
  }

  lemma TagsStartAppend(a: Bytes, b: Bytes, ok: set<Byte>)
    requires TagsStartWith(a, ok) && TagsStartWith(b, ok)
    ensures TagsStartWith(a + b, ok)
  {
    var s := a + b;
    forall i | 0 <= i < |s| && s[i] == '<' ensures i + 1 < |s| && s[i + 1] in ok {
      if i < |a| {
        assert s[i] == a[i] && s[i + 1] == a[i + 1];
      } else {
        assert s[i] == b[i - |a|] && s[i + 1] == b[i + 1 - |a|];
      }
    }
  }

  /** Lower-casing keeps the property for a set of lower-case bytes. */
  lemma TagsStartLower(s: Bytes, ok: set<Byte>)
    requires TagsStartWith(s, ok)
    requires forall y | y in ok :: !('A' <= y <= 'Z')
    ensures TagsStartWith(Lower(s), ok)
  {
  }

  /** A byte outside the set never follows a `<`. */
  lemma TagsStartPairFree(s: Bytes, ok: set<Byte>, y: Byte)
    requires TagsStartWith(s, ok) && y !in ok
    ensures PairFree(s, '<', y)
  {
  }

  /** A pattern made of `<` and a byte outside the set is not found in the
      front part. */
  lemma IndexOfPastTags(a: Bytes, b: Bytes, ok: set<Byte>, p: Bytes)
    requires TagsStartWith(a, ok) && |p| >= 2 && p[0] == '<' && p[1] !in ok
    ensures IndexOf(a + b, p) == if IndexOf(b, p) == -1 then -1 else |a| + IndexOf(b, p)
  {
    TagsStartPairFree(a, ok, p[1]);
    if a != [] {
      assert a[|a| - 1] != '<';
    }
    IndexOfPast(a, b, p);
  }

  /** A tag found at the start of the back part, past a front part that
      holds no tag of its kind. */
  lemma FoundAfterTags(a: Bytes, b: Bytes, ok: set<Byte>, p: Bytes)
    requires TagsStartWith(a, ok) && |p| >= 2 && p[0] == '<' && p[1] !in ok
    requires IndexOf(b, p) == 0
    ensures IndexOf(a + b, p) == |a|
  {
    IndexOfPastTags(a, b, ok, p);
  }

  // ---------------------------------------------------------------------------
  // The page lower-cased
  // ---------------------------------------------------------------------------

  lemma PlainPiecesLower()
    ensures Lower(Head) == Head && Lower(Mid) == Mid && Lower(ScriptEl) == ScriptEl
    ensures Lower(Tail) == Tail && Lower(ParaEnd) == ParaEnd
    ensures Lower(MetaOpen) == MetaOpen && Lower(NameEl) == NameEl
    ensures Lower(ContentOpen) == ContentOpen && Lower(MetaEnd) == MetaEnd
    ensures Lower(ParaOpen) == ParaOpen && Lower(ParaClose) == ParaClose
  {
    HeadPiecesLower();
    BodyPiecesLower();
  }

  lemma HeadPiecesLower()
    ensures Lower(Head) == Head && Lower(Mid) == Mid
    ensures Lower(MetaOpen) == MetaOpen && Lower(NameEl) == NameEl
    ensures Lower(ContentOpen) == ContentOpen && Lower(MetaEnd) == MetaEnd
  {
    LowerNoUpper(Head);
    LowerNoUpper(Mid);
    LowerNoUpper(MetaOpen);
    LowerNoUpper(NameEl);
    LowerNoUpper(ContentOpen);
    LowerNoUpper(MetaEnd);
  }

  lemma BodyPiecesLower()
    ensures Lower(ScriptEl) == ScriptEl
    ensures Lower(Tail) == Tail && Lower(ParaEnd) == ParaEnd
    ensures Lower(ParaOpen) == ParaOpen && Lower(ParaClose) == ParaClose
  {
    LowerNoUpper(ScriptEl);
    LowerNoUpper(Tail);
    LowerNoUpper(ParaEnd);
    LowerNoUpper(ParaOpen);
    LowerNoUpper(ParaClose);
  }

  lemma CapitalPiecesLower()
    ensures Lower(TitleEl) == TitleLower && Lower(DescValue) == "desc"
    ensures Lower(ParaStart) == ParaStartLower
  {
  }

  /** The page lower-cased, piece by piece up to the description. */
  lemma PageLower()
    ensures Lower(Page) == Head + (TitleLower + Lower(AfterTitle))
    ensures Lower(AfterTitle) == MetaOpen + (NameEl + Lower(AfterName))
  {
    PlainPiecesLower();
    CapitalPiecesLower();
    LowerAppend(Head, TitleEl + AfterTitle);
    LowerAppend(TitleEl, AfterTitle);
    LowerAppend(MetaOpen, NameEl + AfterName);
    LowerAppend(NameEl, AfterName);
  }

  lemma PageSplit()
    ensures Page == Front + (ScriptEl + ParaEl)
  {
    Regroup(Head, TitleEl, MetaOpen, NameEl, ContentOpen, DescValue, MetaEnd, Mid, ScriptEl + ParaEl);
  }

  /** The page lower-cased around its script element. */
  lemma PageLowerSplit()
    ensures Lower(Page) == Lower(Front) + (ScriptEl + Lower(ParaEl))
  {
    PageSplit();
    PlainPiecesLower();
    LowerAppend(Front, ScriptEl + ParaEl);
    LowerAppend(ScriptEl, ParaEl);
  }

  lemma ParaElLower()
    ensures Lower(ParaEl) == ParaOpen + (ParaLower + (ParaClose + Tail))
    ensures Lower(Rest) == Lower(Front) + Lower(ParaEl)
  {
    PlainPiecesLower();
    CapitalPiecesLower();
    LowerAppend(ParaClose, Tail);
    LowerAppend(ParaStart, ParaEnd);
    LowerAppend(Para, ParaClose + Tail);
    LowerAppend(ParaOpen, Para + (ParaClose + Tail));
    LowerAppend(Front, ParaEl);
  }

  // ---------------------------------------------------------------------------
  // Title
  // ---------------------------------------------------------------------------

  lemma TitlePieceFacts()
    ensures PairFree(Head, '<', 't')
    ensures IndexOf(TitleLower, Fields.TitleOpen) == 0
    ensures IndexOf(TitleEl, ">") == 6
    ensures TitleLower[7..] == "hi" + Fields.TitleClose
    ensures IndexOf("hi" + Fields.TitleClose, Fields.TitleClose) == 2
  {
    TitleOpenFacts();
    FirstByteIs(TitleEl, '>', 6);
    TitleCloseFacts();
  }

  lemma TitleOpenFacts()
    ensures PairFree(Head, '<', 't')
    ensures IndexOf(TitleLower, Fields.TitleOpen) == 0
  {
    assert TitleLower[..6] == Fields.TitleOpen;
    IndexOfIs(TitleLower, Fields.TitleOpen, 0);
  }

  lemma TitleCloseFacts()
    ensures TitleLower[7..] == "hi" + Fields.TitleClose
    ensures IndexOf("hi" + Fields.TitleClose, Fields.TitleClose) == 2
  {
    IndexOfIs(Fields.TitleClose, Fields.TitleClose, 0);
    IndexOfPast("hi", Fields.TitleClose, Fields.TitleClose);
  }

  lemma TitleOpenAt()
    ensures IndexOf(Lower(Page), Fields.TitleOpen) == 12
  {
    var low := Lower(AfterTitle);
    PageLower();
    TitlePieceFacts();
    IndexOfPast(Head, TitleLower + low, Fields.TitleOpen);
    IndexOfFront(TitleLower, low, Fields.TitleOpen);
  }

  lemma TitleTagEnd()
    ensures IndexOf(Page[12..], ">") == 6
  {
    DropInto(Head, TitleEl + AfterTitle, 12);
    TitlePieceFacts();
    IndexOfFront(TitleEl, AfterTitle, ">");
  }

  lemma TitleCloseAt()
    ensures IndexOf(Lower(Page)[19..], Fields.TitleClose) == 2
  {
    var low := Lower(AfterTitle);
    PageLower();
    DropInto(Head, TitleLower + low, 19);
    DropWithin(TitleLower, low, 7);
    TitlePieceFacts();
    IndexOfFront(TitleLower[7..], low, Fields.TitleClose);
  }

  lemma TitleFound()
    ensures Fields.TitleSpan(Page) == Some((19, 21))
  {
    TitleOpenAt();
    TitleTagEnd();
    TitleCloseAt();
  }

  /** A title element whose text needs no cleaning and is at least two
      bytes long gives that text. */
  lemma TitleIs(html: Bytes, s: int, e: int, t: Bytes)
    requires Fields.TitleSpan(html) == Some((s, e)) && html[s..e] == t
    requires '\n' !in t && '\r' !in t && '\t' !in t && Trimmed(t) && |t| >= 2
    ensures Fields.ExtractTitle(html) == t
  {
    Fields.TitleBytesPlain(t);
    TrimSpaceOfTrimmed(t);
  }

  lemma TitleText()
    ensures Page[19..21] == "Hi"
  {
    DropInto(Head, TitleEl + AfterTitle, 12);
    assert TitleEl[7..9] == "Hi";
  }

  /** The page's title is the text of its title element. */
  lemma PageTitle()
    ensures Fields.ExtractTitle(Page) == "Hi"
  {
    TitleFound();
    TitleText();
    TitleIs(Page, 19, 21, "Hi");
  }

  // ---------------------------------------------------------------------------
  // Description
  // ---------------------------------------------------------------------------

  lemma NamePieceFacts()
    ensures var p := Fields.NameAttr('"');
      PairFree(Head, p[0], p[1]) && PairFree(TitleLower, p[0], p[1]) &&
      PairFree(MetaOpen, p[0], p[1]) && IndexOf(NameEl, p) == 0
  {
    var p := Fields.NameAttr('"');
    assert NameEl[..|p|] == p;
    IndexOfIs(NameEl, p, 0);
  }

  lemma NameAt()
    ensures IndexOf(Lower(Page), Fields.NameAttr('"')) == 35
  {
    var p := Fields.NameAttr('"');
    var named := NameEl + Lower(AfterName);
    PageLower();
    NamePieceFacts();
    IndexOfFront(NameEl, Lower(AfterName), p);
    IndexOfPast(MetaOpen, named, p);
    IndexOfPast(TitleLower, MetaOpen + named, p);
    IndexOfPast(Head, TitleLower + (MetaOpen + named), p);
  }

  lemma ContentPieceFacts()
    ensures var p := Fields.ContentAttr('"');
      PairFree(NameEl, p[0], p[1]) && IndexOf(ContentOpen, p) == 0
  {
    IndexOfIs(ContentOpen, Fields.ContentAttr('"'), 0);
  }

  lemma ContentAt()
    ensures IndexOf(Page[35..], Fields.ContentAttr('"')) == 19
  {
    var p := Fields.ContentAttr('"');
    var rest := DescValue + AfterValue;
    DropParts(Head, TitleEl, MetaOpen, NameEl, ContentOpen, rest);
    ContentPieceFacts();
    IndexOfPast(NameEl, ContentOpen + rest, p);
    IndexOfFront(ContentOpen, rest, p);
  }

  lemma ValueEnd()
    ensures IndexOf(Page[63..], ['"']) == 4
  {
    DropParts(Head, TitleEl, MetaOpen, NameEl, ContentOpen, DescValue + AfterValue);
    IndexOfPastFirst(DescValue, AfterValue, ['"']);
    FirstByteIs(MetaEnd, '"', 0);
    IndexOfFront(MetaEnd, AfterMeta, ['"']);
  }

  /** The page's description is the double-quoted content of its description
      meta element, verbatim. */
  lemma PageDescription()
    ensures Fields.ExtractMetaDescription(Page) == "Desc"
  {
    NameAt();
    ContentAt();
    ValueEnd();
    DropParts(Head, TitleEl, MetaOpen, NameEl, ContentOpen, DescValue + AfterValue);
    assert Page[63..67] == DescValue;
  }

  // ---------------------------------------------------------------------------
  // Stripping the script element
  // ---------------------------------------------------------------------------

  /** The bytes that follow a `<` in the front part. */
  const FrontTags: set<Byte> := {'h', 't', '/', 'm', 'b'}

  /** The bytes that follow a `<` anywhere once the script is gone. */
  const RestTags: set<Byte> := FrontTags + {'p'}

  lemma FrontPieceTags()
    ensures var ok := FrontTags;
      TagsStartWith(Head, ok) && TagsStartWith(TitleEl, ok) &&
      TagsStartWith(MetaOpen, ok) && TagsStartWith(NameEl, ok) &&
      TagsStartWith(ContentOpen, ok) && TagsStartWith(DescValue, ok) &&
      TagsStartWith(MetaEnd, ok) && TagsStartWith(Mid, ok)
  {
  }

  lemma FrontTagsHold()
    ensures TagsStartWith(Lower(Front), FrontTags)
  {
    var ok := FrontTags;
    FrontPieceTags();
    TagsStartAppend(MetaEnd, Mid, ok);
    TagsStartAppend(DescValue, MetaEnd + Mid, ok);
    TagsStartAppend(ContentOpen, DescValue + (MetaEnd + Mid), ok);
    TagsStartAppend(NameEl, ContentOpen + (DescValue + (MetaEnd + Mid)), ok);
    TagsStartAppend(MetaOpen, NameEl + (ContentOpen + (DescValue + (MetaEnd + Mid))), ok);
    TagsStartAppend(TitleEl, MetaOpen + (NameEl + (ContentOpen + (DescValue + (MetaEnd + Mid)))), ok);
    TagsStartAppend(Head, TitleEl + (MetaOpen + (NameEl + (ContentOpen + (DescValue + (MetaEnd + Mid))))), ok);
    TagsStartLower(Front, ok);
  }

  lemma ScriptPieceFacts()
    ensures IndexOf(ScriptEl, TagStripper.OpenTag("script")) == 0
    ensures IndexOf(ScriptEl, TagStripper.CloseTag("script")) == 14
  {
    var p := TagStripper.OpenTag("script");
    var q := TagStripper.CloseTag("script");
    assert ScriptEl[..|p|] == p;
    IndexOfIs(ScriptEl, p, 0);
    assert ScriptEl[14..14 + |q|] == q;
    assert PairFree(ScriptEl[..15], q[0], q[1]);
    IndexOfPair(ScriptEl, q, 14);
  }

  lemma ScriptOpenAt()
    ensures IndexOf(Lower(Page), TagStripper.OpenTag("script")) == 82
  {
    var p := TagStripper.OpenTag("script");
    PageLowerSplit();
    FrontTagsHold();
    ScriptPieceFacts();
    IndexOfFront(ScriptEl, Lower(ParaEl), p);
    FoundAfterTags(Lower(Front), ScriptEl + Lower(ParaEl), FrontTags, p);
  }

  lemma ScriptCloseAt()
    ensures IndexOf(Lower(Page)[82..], TagStripper.CloseTag("script")) == 14
  {
    PageLowerSplit();
    DropInto(Lower(Front), ScriptEl + Lower(ParaEl), 82);
    ScriptPieceFacts();
    IndexOfFront(ScriptEl, Lower(ParaEl), TagStripper.CloseTag("script"));
  }

  /** A pass that finds the start tag right after `a` and the end of the
      closing tag right after `b` cuts `b` out. */
  lemma PassCuts(content: Bytes, tag: Bytes, a: Bytes, b: Bytes, c: Bytes)
    requires content == a + (b + c)
    requires IndexOf(Lower(content), TagStripper.OpenTag(tag)) == |a|
    requires |TagStripper.CloseTag(tag)| <= |b|
    requires IndexOf(Lower(content)[|a|..], TagStripper.CloseTag(tag)) == |b| - |TagStripper.CloseTag(tag)|
    ensures TagStripper.Pass(content, tag) == TagStripper.Removed(a + c)
  {
    CutMiddle(a, b, c);
    var stop := |a| + |b|;
    assert TagStripper.Pass(content, tag) == TagStripper.Removed(content[..|a|] + content[stop..]);
  }

  /** The first pass cuts the script element out, from its start tag to the
      end of its closing tag. */
  lemma ScriptPass()
    ensures TagStripper.Pass(Page, "script") == TagStripper.Removed(Rest)
  {
    ScriptOpenAt();
    ScriptCloseAt();
    PageSplit();
    assert |Front| == 82 && |ScriptEl| == 23;
    PassCuts(Page, "script", Front, ScriptEl, ParaEl);
  }

  lemma ParaPieceTags()
    ensures var ok := RestTags;
      TagsStartWith(ParaOpen, ok) && TagsStartWith(ParaStart, ok) &&
      TagsStartWith(ParaEnd, ok) && TagsStartWith(ParaClose, ok) && TagsStartWith(Tail, ok)
  {
  }

  lemma RestTagsHold()
    ensures TagsStartWith(Lower(Rest), RestTags)
  {
    var ok := RestTags;
    FrontTagsHold();
    ParaPieceTags();
    ParaElLower();
    TagsStartAppend(ParaClose, Tail, ok);
    TagsStartAppend(ParaEnd, ParaClose + Tail, ok);
    TagsStartAppend(ParaStart, ParaEnd + (ParaClose + Tail), ok);
    AppendAssoc(ParaStart, ParaEnd, ParaClose + Tail);
    TagsStartAppend(ParaOpen, Para + (ParaClose + Tail), ok);
    TagsStartLower(ParaEl, ok);
    TagsStartAppend(Lower(Front), Lower(ParaEl), ok);
  }

  /** No `<script`, `<style`, `<iframe` or `<noscript` is left. */
  lemma RestHalts(tag: Bytes)
    requires tag in Pipeline.StrippedTags
    ensures TagStripper.Pass(Rest, tag) == TagStripper.Halted(TagStripper.NotFound)
  {
    var p := TagStripper.OpenTag(tag);
    RestTagsHold();
    assert p[1] == tag[0] && p[1] !in RestTags;
    TagsStartPairFree(Lower(Rest), RestTags, p[1]);
    IndexOfPairFree(Lower(Rest), p);
  }

  /** The first removal loop: one pass for the script element, then none
      left. */
  lemma ScriptStripped()
    ensures TagStripper.StripTag(Page, "script", 0) == TagStripper.Stripped(Rest, 1, TagStripper.NotFound)
  {
    ScriptPass();
    RestHalts("script");
    TagStripper.StripTagStep(Page, "script", 0, Rest);
    assert TagStripper.StripTag(Rest, "script", 1) == TagStripper.Stripped(Rest, 1, TagStripper.NotFound);
  }

  /** After the first `k` removal loops the page is the page without its
      script element. */
  lemma {:induction false} StripPrefix(k: nat)
    requires 1 <= k <= |Pipeline.StrippedTags|
    ensures TagStripper.StripEach(Page, Pipeline.StrippedTags[..k]) == Rest
  {
    var tags: seq<Bytes> := Pipeline.StrippedTags[..k];
    assert tags[..k - 1] == Pipeline.StrippedTags[..k - 1];
    if k == 1 {
      ScriptStripped();
      assert tags[..0] == [];
    } else {
      StripPrefix(k - 1);
      RestHalts(tags[k - 1]);
      TagStripper.StripTagHalts(Rest, tags[k - 1], 0);
    }
  }

  /** The four removal loops leave the page without its script element. */
  lemma PageCleaned()
    ensures Pipeline.Cleaned(Page) == Rest
  {
    StripPrefix(4);
    assert Pipeline.StrippedTags[..4] == Pipeline.StrippedTags;
  }

  // ---------------------------------------------------------------------------
  // The paragraph
  // ---------------------------------------------------------------------------

  lemma ParaPieceFacts()
    ensures IndexOf(ParaOpen + (ParaLower + (ParaClose + Tail)), Blocks.ParagraphOpen) == 0
    ensures IndexOf(ParaOpen + (ParaLower + (ParaClose + Tail)), ">") == 2
    ensures '<' !in ParaLower
    ensures IndexOf(ParaClose + Tail, Blocks.ParagraphClose) == 0
    ensures IndexOf(Tail, Blocks.ParagraphOpen) == -1
  {
    ParaOpenFacts();
    ParaCloseFacts();
  }

  lemma ParaOpenFacts()
    ensures IndexOf(ParaOpen + (ParaLower + (ParaClose + Tail)), Blocks.ParagraphOpen) == 0
    ensures IndexOf(ParaOpen + (ParaLower + (ParaClose + Tail)), ">") == 2
  {
    var rest := ParaLower + (ParaClose + Tail);
    IndexOfIs(ParaOpen, Blocks.ParagraphOpen, 0);
    IndexOfFront(ParaOpen, rest, Blocks.ParagraphOpen);
    FirstByteIs(ParaOpen, '>', 2);
    IndexOfFront(ParaOpen, rest, ">");
  }

  lemma ParaCloseFacts()
    ensures '<' !in ParaLower
    ensures IndexOf(ParaClose + Tail, Blocks.ParagraphClose) == 0
    ensures IndexOf(Tail, Blocks.ParagraphOpen) == -1
  {
    IndexOfIs(ParaClose, Blocks.ParagraphClose, 0);
    IndexOfFront(ParaClose, Tail, Blocks.ParagraphClose);
    assert TagsStartWith(Tail, {'/'});
    TagsStartPairFree(Tail, {'/'}, 'p');
    IndexOfPairFree(Tail, Blocks.ParagraphOpen);
  }

  lemma ParagraphOpenAt()
    ensures IndexOf(Lower(Rest), Blocks.ParagraphOpen) == 82
    ensures IndexOf(Lower(Rest)[82..], ">") == 2
  {
    ParaElLower();
    FrontTagsHold();
    ParaPieceFacts();
    FoundAfterTags(Lower(Front), Lower(ParaEl), FrontTags, Blocks.ParagraphOpen);
    DropInto(Lower(Front), Lower(ParaEl), 82);
  }

  lemma ParagraphCloseAt()
    ensures IndexOf(Lower(Rest)[85..], Blocks.ParagraphClose) == 53
  {
    var close := ParaClose + Tail;
    ParaElLower();
    DropFour(Lower(Front), ParaOpen, ParaLower, ParaClose, Tail);
    ParaPieceFacts();
    IndexOfPastFirst(ParaLower, close, Blocks.ParagraphClose);
  }

  lemma NoSecondParagraph()
    ensures Blocks.ParagraphSpan(Lower(Rest), 142) == None
  {
    ParaElLower();
    DropFour(Lower(Front), ParaOpen, ParaLower, ParaClose, Tail);
    ParaPieceFacts();
    SpanNone(Lower(Rest), 142);
  }

  lemma SpanNone(lower: Bytes, idx: nat)
    requires idx <= |lower| && IndexOf(lower[idx..], Blocks.ParagraphOpen) == -1
    ensures Blocks.ParagraphSpan(lower, idx) == None
  {
  }

  /** A page with exactly one element from the start yields its text, and
      the fallback is not consulted. */
  lemma OneParagraph(html: Bytes, s: nat, e: nat, t: Bytes)
    requires Blocks.ParagraphSpan(Lower(html), 0) == Some((s, e))
    requires Blocks.ParagraphSpan(Lower(html), e + 4) == None
    requires html[s..e] == t && Trimmed(t)
    ensures Blocks.Paragraphs(html) == [t]
  {
    assert Blocks.ParagraphsFrom(html, Lower(html), e + 4) == [];
    TrimSpaceOfTrimmed(t);
  }

  lemma RestMiddle()
    ensures Rest[85..138] == Para
  {
    ThirdPart(Front, ParaOpen, Para, ParaClose + Tail);
  }

  lemma ParagraphFound()
    ensures Blocks.ParagraphSpan(Lower(Rest), 0) == Some((85, 138))
  {
    ParagraphOpenAt();
    ParagraphCloseAt();
    assert Lower(Rest)[0..] == Lower(Rest);
  }

  /** The cleaned page has one paragraph: its text, trimmed. */
  lemma PageParagraphs()
    ensures Blocks.Paragraphs(Rest) == [Para]
  {
    ParagraphFound();
    NoSecondParagraph();
    RestMiddle();
    ParaShape();
    OneParagraph(Rest, 85, 138, Para);
  }

  // ---------------------------------------------------------------------------
  // Filter, content and report
  // ---------------------------------------------------------------------------

  lemma ParaShape()
    ensures '<' !in Para && Trimmed(Para) && |Para| == 53
    ensures Absent(Para, Normalizer.DoubleSpace)
  {
    assert PairFree(ParaStart, ' ', ' ');
    assert PairFree(ParaEnd, ' ', ' ');
    PairFreeAppend(ParaStart, ParaEnd, ' ', ' ');
    AbsentPair(Para, ' ', ' ');
  }

  /** The paragraph has no tag, no double space and no outer whitespace, so
      normalising leaves it alone. */
  lemma ParaSettled()
    ensures Normalizer.WithoutTags(Para) == Para
  {
    ParaShape();
    Normalizer.NoOpenNoTag(Para);
    Normalizer.WithoutTagsFixed(Para);
  }

  /** And it is long enough to keep. */
  lemma ParaKept()
    ensures Normalizer.ValidTexts([Para]) == [Para]
  {
    ParaSettled();
    ParaShape();
    TrimSpaceOfTrimmed(Para);
    assert [Para][..0] == [];
  }

  /** The digest is built from that one paragraph. */
  lemma PageContent()
    ensures Pipeline.ContentText(Page) == Some(Para)
  {
    PageCleaned();
    PageParagraphs();
    ParaKept();
  }

  /** End to end: the report carries the title, the description and the
      address around the digest of the paragraph. */
  lemma PageReport(url: Bytes)
    ensures Pipeline.Parse(Page, url) ==
      Some(Pipeline.Report("Hi", "Desc", url, Summarizer.Summary("Hi", "Desc", Para)))
  {
    PageContent();
    PageTitle();
    PageDescription();
  }

  /** The digest opens with the bracketed title and the description, each on
      its own line. */
  lemma PageDigestStarts()
    ensures var digest := Summarizer.Summary("Hi", "Desc", Para);
      var lead := Summarizer.TitleLine("Hi") + "\n" + ("Desc" + "\n");
      |lead| <= |digest| && digest[..|lead|] == lead
  {
    Summarizer.SummaryStarts("Hi", "Desc", Para);
  }
}
