/** Worked examples: the pipeline's steps on small concrete pages. */
module Worked {
  import opened Text
  import Blocks
  import Normalizer
  import PlainText

  const TwoParagraphsPage: Bytes := "<p>A</p><p>B</p>"

  /** Two paragraphs come out as their inner texts, in order. */
  lemma TwoParagraphs()
    ensures Blocks.Paragraphs(TwoParagraphsPage) == ["A", "B"]
  {
    var html := TwoParagraphsPage;
    var lower := Lower(html);
    FirstStep(html, lower);
    SecondStep(html, lower);
    LastStep(html, lower);
    Blocks.ParagraphsFromSome(html, lower, 0, "A", 8);
    Blocks.ParagraphsFromSome(html, lower, 8, "B", 16);
    Blocks.ParagraphsFromNone(html, lower, 16);
  }

  /** The first round yields `A` and moves past the first `</p>`. */
  lemma FirstStep(html: Bytes, lower: Bytes)
    requires html == "<p>A</p><p>B</p>" && lower == Lower(html)
    ensures Blocks.ParagraphStep(html, lower, 0) == Some(("A", 8))
  {
    FirstParagraph(html, lower);
    assert html[3..4] == "A" by { assert html[3] == 'A'; }
    TrimSpaceOfTrimmed("A");
    Blocks.ParagraphStepOf(html, lower, 0, 3, 4);
  }

  /** The second round yields `B` and moves to the end of the page. */
  lemma SecondStep(html: Bytes, lower: Bytes)
    requires html == "<p>A</p><p>B</p>" && lower == Lower(html)
    ensures Blocks.ParagraphStep(html, lower, 8) == Some(("B", 16))
  {
    SecondParagraph(html, lower);
    assert html[11..12] == "B" by { assert html[11] == 'B'; }
    TrimSpaceOfTrimmed("B");
    Blocks.ParagraphStepOf(html, lower, 8, 11, 12);
  }

  /** At the end of the page the third round finds nothing. */
  lemma LastStep(html: Bytes, lower: Bytes)
    requires html == "<p>A</p><p>B</p>" && lower == Lower(html)
    ensures Blocks.ParagraphStep(html, lower, 16).None?
  {
    assert Blocks.ParagraphSpan(lower, 16) == None by {
      assert lower[16..] == [];
    }
  }

  lemma FirstParagraph(html: Bytes, lower: Bytes)
    requires html == "<p>A</p><p>B</p>" && lower == Lower(html)
    ensures Blocks.ParagraphSpan(lower, 0) == Some((3, 4))
  {
    LoweredPage(html, lower);
    OneByteParagraph(lower, 0, 'a');
  }

  lemma SecondParagraph(html: Bytes, lower: Bytes)
    requires html == "<p>A</p><p>B</p>" && lower == Lower(html)
    ensures Blocks.ParagraphSpan(lower, 8) == Some((11, 12))
  {
    LoweredPage(html, lower);
    OneByteParagraph(lower, 8, 'b');
  }

  /** The page lower-cased, as two elements. */
  lemma LoweredPage(html: Bytes, lower: Bytes)
    requires html == "<p>A</p><p>B</p>" && lower == Lower(html)
    ensures lower[0..8] == "<p>a</p>" && lower[8..16] == "<p>b</p>"
  {
    var first: Bytes := "<p>A</p>";
    var second: Bytes := "<p>B</p>";
    assert html == first + second;
    LowerAppend(first, second);
    assert Lower(first) == "<p>a</p>" by { assert LowerByte('A') == 'a'; }
    assert Lower(second) == "<p>b</p>" by { assert LowerByte('B') == 'b'; }
  }

  /** A `<p>` element holding one byte that is not a bracket, at `idx`: the
      round finds that byte as the element's text. */
  lemma OneByteParagraph(lower: Bytes, idx: nat, x: Byte)
    requires x != '<' && x != '>'
    requires idx + 8 <= |lower| && lower[idx..idx + 8] == "<p>" + [x] + "</p>"
    ensures Blocks.ParagraphSpan(lower, idx) == Some((idx + 3, idx + 4))
  {
    var el := lower[idx..idx + 8];
    var from := lower[idx..];
    assert from[..8] == el;
    assert MatchAt(from, Blocks.ParagraphOpen, 0) by { assert from[..2] == el[..2]; }
    var tag := lower[idx..];
    MatchOneByte(tag, '>', 0);
    MatchOneByte(tag, '>', 1);
    MatchOneByte(tag, '>', 2);
    assert tag[0] == '<' && tag[1] == 'p' && tag[2] == '>';
    var inner := lower[idx + 3..];
    assert inner[..5] == el[3..];
    assert MatchAt(inner, Blocks.ParagraphClose, 1) by { assert inner[1..5] == el[4..]; }
    assert !MatchAt(inner, Blocks.ParagraphClose, 0) by { assert inner[0] == x; }
    Blocks.ParagraphSpanFound(lower, idx, idx, idx + 3, idx + 4);
  }

  const Short: Bytes := "short"
  const Long: Bytes := "this is a sufficiently long paragraph"

  /** The filter drops a five-byte block and keeps a long one as it is. */
  lemma FilterShortAndLong()
    ensures Normalizer.ValidTexts([Short, Long]) == [Long]
  {
    ShortDropped();
    LongKept();
    TwoTexts(Short, Long);
  }

  lemma TwoTexts(a: Bytes, b: Bytes)
    ensures Normalizer.ValidTexts([a, b]) == Normalizer.ValidText(a) + Normalizer.ValidText(b)
  {
    assert [a][..0] == [];
    assert Normalizer.ValidTexts([a]) == [] + Normalizer.ValidText(a);
    assert [a, b][..1] == [a];
    assert Normalizer.ValidTexts([a, b]) == Normalizer.ValidTexts([a]) + Normalizer.ValidText(b);
  }

  lemma ShortDropped()
    ensures Normalizer.ValidText(Short) == []
  {
    Settled(Short);
    Normalizer.ValidTextSpec(Short);
  }

  lemma LongKept()
    ensures Normalizer.ValidText(Long) == [Long]
  {
    Settled(Long);
    Normalizer.ValidTextSpec(Long);
  }

  /** A text without `<`, double spaces or outer white space is its own
      normal form. */
  lemma Settled(t: Bytes)
    requires '<' !in t && Trimmed(t)
    requires forall i | 0 <= i < |t| - 1 :: !(t[i] == ' ' && t[i + 1] == ' ')
    ensures Normalizer.WithoutTags(t) == t
  {
    Normalizer.NoOpenNoTag(t);
    AbsentPair(t, ' ', ' ');
    Normalizer.WithoutTagsFixed(t);
  }

  const Bold: Bytes := "<b>Hello</b>  world"
  const HelloWorld: Bytes := "Hello world"

  /** Tags are cut out, the double space they leave collapses, and the ends
      are trimmed. */
  lemma BoldHello()
    ensures Normalizer.WithoutTags(Bold) == HelloWorld
  {
    BoldCuts();
    Collapsed();
    HelloWorldSettled();
    NormalizedVia(Bold, BoldAfterClose, HelloWorld);
  }

  lemma HelloWorldSettled()
    ensures Absent(HelloWorld, Normalizer.DoubleSpace) && Trimmed(HelloWorld)
  {
    AbsentPair(HelloWorld, ' ', ' ');
  }

  /** Normalising in terms of the first loop's result and the first collapse
      round's, when that round leaves nothing to collapse or trim. */
  lemma NormalizedVia(text: Bytes, stripped: Bytes, collapsed: Bytes)
    requires Normalizer.StripInline(text) == stripped
    requires ReplaceAll(stripped, Normalizer.DoubleSpace, " ") == collapsed
    requires Absent(collapsed, Normalizer.DoubleSpace) && Trimmed(collapsed)
    ensures Normalizer.WithoutTags(text) == collapsed
  {
    IndexOfMissing(collapsed, Normalizer.DoubleSpace);
    TrimSpaceOfTrimmed(collapsed);
  }

  const BoldAfterOpen: Bytes := "Hello</b>  world"
  const BoldAfterClose: Bytes := "Hello  world"

  /** The first loop cuts `<b>`, then `</b>`, then finds no `<`. */
  lemma BoldCuts()
    ensures Normalizer.StripInline(Bold) == BoldAfterClose
  {
    CutOpen();
    CutClose();
    CutNone();
  }

  lemma CutOpen()
    ensures Normalizer.CutTag(Bold) == Some(BoldAfterOpen)
  {
    FirstByteIs(Bold, '<', 0);
    assert Bold[0..] == Bold;
    FirstByteIs(Bold, '>', 2);
    assert Bold[..0] + Bold[3..] == BoldAfterOpen;
  }

  lemma CutClose()
    ensures Normalizer.CutTag(BoldAfterOpen) == Some(BoldAfterClose)
  {
    var t := BoldAfterOpen;
    FirstByteIs(t, '<', 5);
    FirstByteIs(t[5..], '>', 3);
    assert t[..5] + t[9..] == BoldAfterClose;
  }

  lemma CutNone()
    ensures Normalizer.CutTag(BoldAfterClose) == None
  {
    IndexOfByte(BoldAfterClose, '<');
  }

  /** The collapse round turns the one double space into a space. */
  lemma Collapsed()
    ensures ReplaceAll(BoldAfterClose, Normalizer.DoubleSpace, " ") == HelloWorld
  {
    var hello: Bytes := "Hello";
    var world: Bytes := "world";
    assert BoldAfterClose == hello + Normalizer.DoubleSpace + world;
    assert HelloWorld == hello + " " + world;
    AbsentPair(world, ' ', ' ');
    CollapseOne(hello, world);
  }

  /** One double space between two words without spaces becomes one space. */
  lemma CollapseOne(a: Bytes, b: Bytes)
    requires ' ' !in a && Absent(b, Normalizer.DoubleSpace)
    ensures ReplaceAll(a + Normalizer.DoubleSpace + b, Normalizer.DoubleSpace, " ") == a + " " + b
  {
    var t := a + Normalizer.DoubleSpace + b;
    forall j | 0 <= j < |a| ensures !MatchAt(t, Normalizer.DoubleSpace, j) {
      assert t[j..j + 2][0] == t[j] == a[j];
    }
    ReplaceSkip(t, Normalizer.DoubleSpace, " ", |a|);
    var rest := t[|a|..];
    assert rest == Normalizer.DoubleSpace + b;
    assert rest[..2] == Normalizer.DoubleSpace && rest[2..] == b;
    Normalizer.CollapseRoundAbsent(b);
    assert t[..|a|] == a;
  }

  const Arrow: Bytes := "<p>x > y</p>"

  /** A `>` inside the text ends up ahead of the next `<`: after the first cut
      the loop is stuck and the plain-text fallback never returns. */
  lemma ArrowHangs()
    ensures PlainText.StripAll(Arrow) == PlainText.Hangs
  {
    ArrowFirstCut();
    ArrowStuck();
    PlainText.StripAllEnds(ArrowRest);
  }

  /** What is left after the first cut takes out `<p>`. */
  const ArrowRest: Bytes := "x > y</p>"

  lemma ArrowFirstCut()
    ensures PlainText.StripAll(Arrow) == PlainText.StripAll(ArrowRest)
  {
    FirstByteIs(Arrow, '<', 0);
    FirstByteIs(Arrow, '>', 2);
    assert PlainText.Cut(Arrow) == Arrow[3..] == ArrowRest;
  }

  lemma ArrowStuck()
    ensures PlainText.Stuck(ArrowRest)
  {
    FirstByteIs(ArrowRest, '<', 5);
    FirstByteIs(ArrowRest, '>', 2);
  }
}
