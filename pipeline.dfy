/** What `ParseURL` in backend/internal/services/parser.go makes of a page it
    has fetched: the title and description, the page cleaned of scripts,
    styles, frames and `noscript` blocks, the paragraph text (or, when none
    survives the filter, the plain text of the raw page), the digest of that
    text, and the final report. */
module Pipeline {
  import opened Text
  import TagStripper
  import Fields
  import Blocks
  import Normalizer
  import PlainText
  import Summarizer

  /** The elements removed before the paragraphs are looked for. */
  const StrippedTags: seq<Bytes> := ["script", "style", "iframe", "noscript"]

  /** Between paragraphs of the content text, and between the report's fields. */
  const BlankLine: Bytes := "\n\n"
  const Newline: Bytes := "\n"

  const TitleLabelText: string := "标题："
  const DescriptionLabelText: string := "描述："
  const SourceLabelText: string := "来源链接："
  const SummaryLabelText: string := "内容总结："
  const NoDescriptionText: string := "无描述"

  /** The same strings as the bytes of their UTF-8 encoding. */
  const TitleLabel: Bytes := Utf8(TitleLabelText)
  const DescriptionLabel: Bytes := Utf8(DescriptionLabelText)
  const SourceLabel: Bytes := Utf8(SourceLabelText)
  const SummaryLabel: Bytes := Utf8(SummaryLabelText)
  const NoDescription: Bytes := Utf8(NoDescriptionText)

  // ---------------------------------------------------------------------------
  // The composition
  // ---------------------------------------------------------------------------

  /** `cond`: `a` when the condition holds, `b` otherwise. */
  function Cond(c: bool, a: Bytes, b: Bytes): (r: Bytes)
    ensures c ==> r == a
    ensures !c ==> r == b
  {
    if c then a else b
  }

  /** The page with the four kinds of element removed. */
  function Cleaned(html: Bytes): Bytes
  {
    TagStripper.StripEach(html, StrippedTags)
  }

  /** The paragraphs of the cleaned page that pass the length filter. */
  function ValidParagraphs(html: Bytes): seq<Bytes>
  {
    Normalizer.ValidTexts(Blocks.Paragraphs(Cleaned(html)))
  }

  /** The text the digest is built from: the kept paragraphs separated by
      blank lines, or, when that is empty, the plain text of the raw (not the
      cleaned) page; `None` where the plain-text extraction does not return. */
  function ContentText(html: Bytes): Option<Bytes>
  {
    var joined := Join(ValidParagraphs(html), BlankLine);
    if joined != [] then Some(joined) else PlainText.PlainTextOf(html)
  }

  /** The description field of the report. */
  function DescriptionField(metaDesc: Bytes): Bytes
  {
    Cond(metaDesc != [], metaDesc, NoDescription)
  }

  /** The final `Sprintf`: four labelled fields separated by blank lines, the
      digest on the line after its label. */
  function Report(title: Bytes, metaDesc: Bytes, url: Bytes, summary: Bytes): Bytes
  {
    TitleLabel + title + AfterTitle(metaDesc) + url + BeforeSummary + summary
  }

  /** The format between the title and the address: the description field
      with its label. */
  function AfterTitle(metaDesc: Bytes): Bytes
  {
    BlankLine + DescriptionLabel + DescriptionField(metaDesc) + BlankLine + SourceLabel
  }

  /** The format between the address and the digest. */
  const BeforeSummary: Bytes := BlankLine + SummaryLabel + Newline

  /** `ParseURL`'s content for the already-fetched `html` of `url`. */
  function Parse(html: Bytes, url: Bytes): Option<Bytes>
  {
    match ContentText(html)
    case None => None
    case Some(content) =>
      var title := Fields.ExtractTitle(html);
      var metaDesc := Fields.ExtractMetaDescription(html);
      Some(Report(title, metaDesc, url, Summarizer.Summary(title, metaDesc, content)))
  }

  // ---------------------------------------------------------------------------
  // Properties
  // ---------------------------------------------------------------------------

  /** The description field is the page's description when it has one and
      the placeholder otherwise, so it is never empty. */
  lemma DescriptionFieldSpec(metaDesc: Bytes)
    ensures DescriptionField(metaDesc) == if metaDesc != [] then metaDesc else NoDescription
    ensures DescriptionField(metaDesc) != []
  {
    Utf8NonEmpty(NoDescriptionText);
  }

  /** A non-empty string encodes to at least one byte. */
  lemma Utf8NonEmpty(s: string)
    requires s != []
    ensures Utf8(s) != []
  {
    var pieces := seq(|s|, i requires 0 <= i < |s| => EncodeRune(s[i]));
    assert |pieces[0]| >= 1;
    assert Concat(pieces) == pieces[0] + Concat(pieces[1..]);
  }

  /** The plain-text fallback is used exactly when no paragraph of the cleaned
      page passes the filter: the kept paragraphs are all longer than ten
      bytes, so their join is empty only when there are none. */
  lemma FallbackExactly(html: Bytes)
    ensures ContentText(html) ==
      if ValidParagraphs(html) != [] then Some(Join(ValidParagraphs(html), BlankLine))
      else PlainText.PlainTextOf(html)
  {
    var valid := ValidParagraphs(html);
    if valid != [] {
      Normalizer.ValidTextsSound(Blocks.Paragraphs(Cleaned(html)), valid[0]);
    }
    JoinEmpty(valid, BlankLine);
  }

  /** Parsing gives no content only when no paragraph passes the filter and
      the plain-text extraction of the raw page does not return. */
  lemma ParseFails(html: Bytes, url: Bytes)
    ensures Parse(html, url).None? <==>
      ValidParagraphs(html) == [] && PlainText.PlainTextOf(html).None?
  {
    FallbackExactly(html);
  }

  /** The fields can be read back from the report: the title right after its
      label, the address after the description field, and the digest at the
      end. */
  lemma ReportFields(title: Bytes, metaDesc: Bytes, url: Bytes, summary: Bytes)
    ensures var out := Report(title, metaDesc, url, summary);
      var at := |TitleLabel| + |title| + |AfterTitle(metaDesc)|;
      at + |url| <= |out| &&
      out[..|TitleLabel|] == TitleLabel &&
      out[|TitleLabel|..|TitleLabel| + |title|] == title &&
      out[at..at + |url|] == url &&
      EndsWith(out, summary)
  {
    Pieces(TitleLabel, title, AfterTitle(metaDesc), url, BeforeSummary, summary);
  }

  /** Where the pieces of a six-piece concatenation sit. */
  lemma Pieces(a: Bytes, b: Bytes, c: Bytes, d: Bytes, e: Bytes, f: Bytes)
    ensures var out := a + b + c + d + e + f;
      out[..|a|] == a &&
      out[|a|..|a| + |b|] == b &&
      out[|a| + |b| + |c|..|a| + |b| + |c| + |d|] == d &&
      out[|out| - |f|..] == f
  {
  }

  /** `t` is how `s` ends. */
  predicate EndsWith(s: Bytes, t: Bytes)
  {
    |t| <= |s| && s[|s| - |t|..] == t
  }

  /** Every report ends with the digest's closing note. */
  lemma ReportEnds(title: Bytes, metaDesc: Bytes, url: Bytes, content: Bytes)
    ensures EndsWith(Report(title, metaDesc, url, Summarizer.Summary(title, metaDesc, content)),
      Summarizer.Footer)
  {
    var summary := Summarizer.Summary(title, metaDesc, content);
    Summarizer.SummaryEnds(title, metaDesc, content);
    ReportFields(title, metaDesc, url, summary);
    SuffixOfSuffix(Report(title, metaDesc, url, summary), summary, Summarizer.Footer);
  }

  /** An ending of an ending is an ending. */
  lemma SuffixOfSuffix(s: Bytes, t: Bytes, u: Bytes)
    requires EndsWith(s, t) && EndsWith(t, u)
    ensures EndsWith(s, u)
  {
    assert s[|s| - |u|..] == s[|s| - |t|..][|t| - |u|..];
  }

  // ---------------------------------------------------------------------------
  // The method
  // ---------------------------------------------------------------------------

  /** The extraction steps of `ParseURL`, in the source's order, over the
      fetched page. */
  method ParseFetched(html: Bytes, url: Bytes) returns (r: Option<Bytes>)
    ensures r == Parse(html, url)
  {
    var title := Fields.ExtractTitle(html);
    var metaDesc := Fields.ExtractMetaDescription(html);
    var cleanedContent := TagStripper.RemoveTags(html, StrippedTags);
    var paragraphs := Blocks.ExtractParagraphs(cleanedContent);
    var validTexts := Normalizer.FilterValidTexts(paragraphs);
    var contentText := Join(validTexts, BlankLine);
    if contentText == [] {
      var plain := PlainText.ExtractPlainText(html);
      if plain.None? {
        return None;
      }
      contentText := plain.value;
    }
    var summary := Summarizer.SummarizeContent(title, metaDesc, contentText);
    r := Some(Report(title, metaDesc, url, summary));
  }
}
