# Page extraction and digest pipeline

A Dafny model of the extraction pipeline in
`backend/internal/services/parser.go` of the URL-to-content service.
The service fetches a web page and turns its markup into four things:
a title, a description, the body text, and a short digest of that text.
It then formats the four, together with the page address, into the content it
archives.

All of this works by substring search and index arithmetic on Go strings, with
no HTML parser. The model keeps that form:

- Text is a sequence of bytes (`Text.Bytes`, Go's `string`).
- `Text.IndexOf` is `strings.Index`. `Text.Lower` is ASCII-only
  `strings.ToLower`. `Text.TrimSpace`, `Text.Split`, `Text.Join`,
  `Text.ReplaceAll` and `Text.Count` model their `strings` namesakes on bytes.
- `Text.RuneCount` decodes UTF-8 the way `utf8.RuneCount` does. It is used
  where the source counts runes (`strings.Count(line, "")`).
- The Chinese literals of the source are the UTF-8 bytes of their text, built
  by `Text.Utf8`. Examples are the "无标题" sentinel, the keyword list, the
  digest markers and the report labels.

Modules follow the source's steps:

| module | source |
|---|---|
| `TagStripper` | `removeTags`: deletes `<tag …</tag>` spans of script, style, iframe and noscript |
| `Fields` | `extractTitle`, `extractMetaDescription`, `extractMetaProperty` |
| `Blocks` | `extractParagraphs`: the `<p` pass, then the h1–h6/li pass |
| `Normalizer` | `removeHTMLTags`, `filterValidTexts` |
| `PlainText` | `extractPlainText`, the last-resort whole-page text |
| `Summarizer` | `summarizeContent`, `truncateString`, `min` |
| `Pipeline` | `cond` and the composition inside `ParseURL` (lines 113-164) |
| `Worked` | small concrete pages run through single steps |
| `WholePage` | one complete page run through the whole composition |

Where the source has loops (`removeTags`, `extractParagraphs`,
`removeHTMLTags`, `filterValidTexts`, `extractPlainText`, `summarizeContent`),
the model has a method with the same loops. Each method's postcondition ties
its result to a recursive function, and the properties are proved as lemmas
about that function. Straight-line code (`extractTitle`,
`extractMetaDescription`, `extractMetaProperty`, `truncateString`, `cond`,
`min`) becomes functions.

The model follows the code, including where it behaves differently from
what its names and comments suggest:

- Blocks are kept when their cleaned text is longer than 10 **bytes**
  (`len`), not 10 characters.
- The title is "无标题" whenever `<title`, the `>` closing it or `</title>` is
  missing. og:title is consulted only when a title element is found and its
  cleaned text is under two bytes, so a page with og:title but no `<title`
  still gets the sentinel (`Fields.TitleCases`).
- The title cleanup replaces each `\n` and `\t` with one space and deletes
  `\r`. It does not collapse runs of whitespace.
- The inline-tag stripper stops at a `<` with no `>` after it, not when no `<`
  is left.
- A stripped tag whose `<tag` has neither `</tag>` nor `>` after it stays in
  the text. So "no `<script` is left" holds only when the loop ends because
  none is found (`TagStripper.StripTagFacts`).
- The heading/list-item fallback does not yield each element once. The round
  for a count of `i` collects the first `i + 1` elements again from the start
  of the page, so `n` elements give `n(n+1)/2` blocks with repeats
  (`Blocks.RoundsRepeat`). The number of rounds is the count of `<tag` on the
  page, which also counts `<link` for `li` and unclosed elements. Every round
  past the number of complete elements appends all of them once more
  (`Blocks.TagBlocksShape`).
- The plain-text fallback keeps lines of at least ten runes, not merely
  non-blank lines. It does not return at all when a `>` precedes the page's
  first `<`: each cut then copies the bytes between the two a second time, so
  the text grows by that gap and the gap doubles every round. The loop spins
  in place only on `><`; otherwise it grows the text until memory runs out
  (`PlainText.StuckPersists`).
- The primary pass opens a block at any tag starting with `<p`, so `<pre>`,
  `<param>` and `<path>` open blocks too.

## Model

| member | source | states |
|---|---|---|
| Text.IndexOfSpec | backend/internal/services/parser.go:193 | `strings.Index` returns the first offset where the pattern occurs, and -1 exactly when it occurs nowhere |
| Text.IndexOfIs | backend/internal/services/parser.go:193 | whenever the pattern first occurs at `k`, `strings.Index` returns `k` |
| Text.TrimSpace | backend/internal/services/parser.go:216 | `strings.TrimSpace`'s result has no leading or trailing ASCII space |
| Text.TrimSpaceDropsSpaces | backend/internal/services/parser.go:216 | the trimmed text is a slice of the input, and only white space lies outside it |
| Text.TrimSpaceOfTrimmed | backend/internal/services/parser.go:402 | trimming text with no outer white space changes nothing |
| Text.ReplaceByte | backend/internal/services/parser.go:213-215 | replacing every occurrence of a byte leaves none, and brings in only bytes of the replacement |
| Text.ReplaceOneByte | backend/internal/services/parser.go:213-215 | replacing a one-byte pattern maps each occurrence to the replacement and keeps every other byte, in order |
| Text.ReplaceAppend | backend/internal/services/parser.go:213-215 | replacing a one-byte pattern in a concatenation replaces in each part |
| Text.ReplaceSkip | backend/internal/services/parser.go:427-429 | where no match starts before offset `k`, a replacement keeps the first `k` bytes and replaces in the rest |
| Text.ReplaceAllShrinks | backend/internal/services/parser.go:426-429 | replacing a pattern by something shorter never lengthens the text, and shortens it when the pattern occurs |
| Text.SplitPartsFree | backend/internal/services/parser.go:451 | no part of `strings.Split` on a one-byte separator contains that byte |
| Text.JoinEmpty | backend/internal/services/parser.go:149-150 | `strings.Join` gives "" exactly when there are no parts or a single empty one |
| Text.CountSuffix | backend/internal/services/parser.go:366 | `strings.Count` of a suffix is at most that of the whole text |
| Text.CountPastFirst | backend/internal/services/parser.go:366 | the text after the first occurrence holds at least one occurrence fewer than the whole |
| Text.SplitJoin | backend/internal/services/parser.go:460 | splitting a join on its separator gives the parts back when no part holds the separator's first byte |
| Text.RuneCountBounds | backend/internal/services/parser.go:455 | the rune count lies between a quarter of the byte length and the byte length |
| Text.RuneCountAscii | backend/internal/services/parser.go:455 | on ASCII text the rune count is the byte length |
| TagStripper.Pass | backend/internal/services/parser.go:300-323 | a removal strictly shortens the text, and a single pass never reports the cap |
| TagStripper.PassRemovesOneSpan | backend/internal/services/parser.go:303-322 | a removal deletes exactly one span: from the first case-insensitive `<tag` to the end of the first `</tag>` after it, or to the first `>` when none follows; the span is unique |
| TagStripper.PassIsSubseq | backend/internal/services/parser.go:316-322 | what a pass keeps is a subsequence of the text, in its original case |
| TagStripper.HaltedFacts | backend/internal/services/parser.go:303-315 | a pass stops when no `<tag` is left, or when the first `<tag` has neither `</tag>` nor `>` after it |
| TagStripper.StripTagFacts | backend/internal/services/parser.go:290-324 | per tag name: at most 10 000 passes; the cap is the stop reason exactly when they are all used; each pass removes at least a byte; the text changes exactly when a pass ran; the result is a subsequence; stopping for "not found" leaves no case-insensitive `<tag` |
| TagStripper.StripTagStep | backend/internal/services/parser.go:316-323 | after a removal the loop goes on from the shortened text with one more pass counted |
| TagStripper.StripTagHalts | backend/internal/services/parser.go:295-315 | when the cap is reached or a pass halts, the text is left as it is |
| TagStripper.StripEach | backend/internal/services/parser.go:286-327 | stripping the tag names in order gives a subsequence of the page, never longer |
| TagStripper.RemoveTags | backend/internal/services/parser.go:286-327 | the loop over the tag names computes the tag names' stripping in list order |
| TagStripper.RemoveTag | backend/internal/services/parser.go:290-324 | the capped loop for one tag name computes the stripping of that tag name |
| TagStripper.RemoveOnce | backend/internal/services/parser.go:300-322 | one round of that loop, with its searches on the lower-cased copy and its cut on the original text, computes one pass |
| Fields.CleanTitle | backend/internal/services/parser.go:213-216 | the cleaned title is the raw title with each `\n` and `\t` turned into one space and each `\r` deleted, byte by byte, then trimmed; so it holds no newline, carriage return or tab, and no outer white space |
| Fields.TitleReplaces | backend/internal/services/parser.go:213-215 | the three replacements in a row act on each byte of the title separately |
| Fields.TitleReplacesByte | backend/internal/services/parser.go:213-215 | on one byte the three replacements give a space for `\n` and `\t`, nothing for `\r`, and the byte itself otherwise |
| Fields.TitleSpan | backend/internal/services/parser.go:190-211 | the title span lies inside the page |
| Fields.TitleSpanSpec | backend/internal/services/parser.go:190-211 | no span when `<title`, its `>` or `</title>` is missing; otherwise the span runs from just past the first `>` to the first `</title>` |
| Fields.TitleCases | backend/internal/services/parser.go:187-227 | "无标题" whenever a piece of the element is missing, with og:title not consulted; otherwise the cleaned text, replaced by og:title only when it is under two bytes and og:title is non-empty |
| Fields.DescriptionFound | backend/internal/services/parser.go:232-251 | three successful searches locate a quoted description element |
| Fields.DescriptionWithSpec | backend/internal/services/parser.go:232-251 | one quote style's lookup misses exactly when the page has no such element; otherwise it is the text up to the closing quote |
| Fields.DescriptionCases | backend/internal/services/parser.go:229-255 | the double-quoted description verbatim; the single-quoted one only when there is no double-quoted one; otherwise "" |
| Fields.PropertyIndex | backend/internal/services/parser.go:259-264 | the case-sensitive `property="…"`, else `property='…'`, position lies inside the page |
| Fields.ContentIndex | backend/internal/services/parser.go:269-272 | the `content="` (else `content='`) found after the property lies inside the page |
| Fields.ValueStart | backend/internal/services/parser.go:265-276 | the start of the value lies inside the page, or is -1 on a miss |
| Fields.RawPropertyUnquoted | backend/internal/services/parser.go:278-282 | the value always ends at a double quote, whichever quote opened it |
| Fields.MetaPropertyShape | backend/internal/services/parser.go:257-284 | the property value is trimmed and has no double quote; "" when the property occurs in neither quoting |
| Fields.PropertySearches | backend/internal/services/parser.go:259-278 | the searches report the first double-quoted property, its `content="` and the closing quote |
| Fields.MetaPropertyFound | backend/internal/services/parser.go:257-284 | for a double-quoted property and value, the result is the trimmed value |
| Fields.PropertyIndexSpec | backend/internal/services/parser.go:259-267 | the property search reports -1 exactly when the page names the property in neither quote style, and otherwise the first `property="name"`, or the first `property='name'` when there is no double-quoted one |
| Fields.ContentIndexSpec | backend/internal/services/parser.go:269-275 | the content search reports -1 exactly when neither `content="` nor `content='` follows the property, and otherwise the first `content="`, or the first `content='` when there is no `content="` |
| Fields.MetaPropertyValue | backend/internal/services/parser.go:257-284 | with the property found in either quote style and a content attribute in either quote style after it, the value is the trimmed text up to the first double quote after the attribute |
| Fields.MetaPropertyNoContent | backend/internal/services/parser.go:269-275 | when neither content attribute follows the property, the value is "" |
| Fields.MetaPropertyUnclosed | backend/internal/services/parser.go:278-281 | when no double quote follows the content attribute, the value is "" |
| Fields.MetaPropertyCases | backend/internal/services/parser.go:257-284 | case by case on the page: the trimmed value when every search succeeds, whichever quote style the property and the content attribute use; "" when the property is missing in both styles, when no content attribute follows it, or when no double quote closes the value |
| Blocks.ParagraphSpan | backend/internal/services/parser.go:337-354 | a round's span starts at or after the cursor, and a `</p>` fits after it |
| Blocks.ParagraphStep | backend/internal/services/parser.go:356-359 | a round strictly advances the cursor and stays inside the page |
| Blocks.ParagraphSpanFound | backend/internal/services/parser.go:337-354 | whenever there is a first complete `<p…>…</p>` after the cursor, the round finds that element's inner text |
| Blocks.ParagraphSpanElement | backend/internal/services/parser.go:337-354 | what a round finds is such a first element, and its text starts at least three bytes after the cursor |
| Blocks.OpenTagGap | backend/internal/services/parser.go:344-348 | the `>` ending a `<p` tag comes at least two bytes after its `<` |
| Blocks.ParagraphAdvance | backend/internal/services/parser.go:359 | each round moves the cursor on by at least seven bytes |
| Blocks.ParagraphsFromBound | backend/internal/services/parser.go:336-360 | the primary pass yields at most one block per seven bytes of page |
| Blocks.ParagraphsFromTrimmed | backend/internal/services/parser.go:357 | every block of the primary pass is trimmed |
| Blocks.ParagraphsFromSome | backend/internal/services/parser.go:356-359 | a round that finds an element adds its text, and the pass goes on from the new cursor |
| Blocks.ParagraphsFromNone | backend/internal/services/parser.go:337-354 | a round that finds nothing ends the pass |
| Blocks.BlockSpan | backend/internal/services/parser.go:370-383 | a fallback span, with its `</tag>`, lies inside the remaining text |
| Blocks.NextBlock | backend/internal/services/parser.go:370-388 | each inner step strictly shortens the remaining text |
| Blocks.Take | backend/internal/services/parser.go:369-389 | a round collects `k` blocks, or all of them when there are fewer |
| Blocks.RoundsRepeat | backend/internal/services/parser.go:366-390 | when the page has at least `n` complete elements, `n` rounds yield `n(n+1)/2` blocks: round `r` is the first `r + 1` blocks, repeated from the start |
| Blocks.RoundsBeyond | backend/internal/services/parser.go:366-390 | when the count `n` is at least the number `m` of complete elements, the rounds are the `m(m+1)/2` blocks of the first `m` rounds followed by `n - m` whole copies of all `m` elements |
| Blocks.BlocksWithinCount | backend/internal/services/parser.go:366-384 | the count of case-insensitive `<tag` on the page is never below the number of complete elements, since each element starts at a `<tag` of its own and these do not overlap |
| Blocks.TagBlocksShape | backend/internal/services/parser.go:364-390 | for every page, one tag name's fallback blocks are the triangle of repeats over all its complete elements followed by one whole copy of them for each further `<tag` (a `<link` for `li`, an unclosed or nested element) |
| Blocks.RoundsWithin | backend/internal/services/parser.go:366-390 | every fallback block is one of the tag's elements |
| Blocks.AllBlocksTrimmed | backend/internal/services/parser.go:386 | every fallback block is trimmed |
| Blocks.NextBlockAt | backend/internal/services/parser.go:385-388 | a found span's step yields its trimmed text and drops everything up to the end of `</tag>` |
| Blocks.TakeStep | backend/internal/services/parser.go:369-389 | an inner step that finds a block adds it, and the round continues on the rest |
| Blocks.TakeStop | backend/internal/services/parser.go:370-383 | an inner step that finds nothing ends the round |
| Blocks.AllBlocksStep | backend/internal/services/parser.go:369-389 | a tag's blocks are the first block followed by the blocks of the remaining text |
| Blocks.RoundsNext | backend/internal/services/parser.go:367-390 | one more round appends the next prefix of blocks |
| Blocks.ExtractParagraphs | backend/internal/services/parser.go:329-395 | the result is the primary pass, or the fallback over h1…h6, li in that order when the primary pass is empty |
| Blocks.PrimaryParagraphs | backend/internal/services/parser.go:333-360 | the cursor loop yields the primary pass |
| Blocks.ParagraphRound | backend/internal/services/parser.go:337-359 | one loop round computes one primary step |
| Blocks.FindParagraph | backend/internal/services/parser.go:337-354 | the three searches succeed exactly when a round finds a span, and report it |
| Blocks.AppendTag | backend/internal/services/parser.go:365-391 | one tag name's rounds append that tag's fallback blocks |
| Blocks.AppendRound | backend/internal/services/parser.go:368-389 | one round appends the first `i + 1` blocks |
| Blocks.FindBlock | backend/internal/services/parser.go:370-388 | the inner step's searches succeed exactly when there is a next block, and report it |
| Normalizer.CutTag | backend/internal/services/parser.go:414-422 | a cut strictly shortens the text |
| Normalizer.CutTagNone | backend/internal/services/parser.go:413-421 | the cutting loop stops exactly when no `<` is followed by a `>` |
| Normalizer.CutTagIsSubseq | backend/internal/services/parser.go:422 | a cut keeps a subsequence |
| Normalizer.StripInlineFacts | backend/internal/services/parser.go:413-423 | after the loop no `<` is followed by a `>`, and the text is a subsequence of the input |
| Normalizer.StripInlineFixed | backend/internal/services/parser.go:413-423 | the loop changes the text exactly when some `<` is followed by a `>` |
| Normalizer.NoTagLeftSubseq | backend/internal/services/parser.go:426-431 | collapsing and trimming cannot create a tag |
| Normalizer.CollapseRoundIsSubseq | backend/internal/services/parser.go:426 | a collapse round keeps a subsequence |
| Normalizer.CollapseRoundAbsent | backend/internal/services/parser.go:427-429 | a collapse round on text without double spaces changes nothing |
| Normalizer.CollapseFacts | backend/internal/services/parser.go:426-429 | after collapsing no double space is left, and the text is a subsequence |
| Normalizer.WithoutTagsFacts | backend/internal/services/parser.go:411-432 | the cleaned text is a subsequence of the input, has no tag, no double space and no outer white space |
| Normalizer.WithoutTagsFixed | backend/internal/services/parser.go:411-432 | cleaning leaves a text as it is exactly when it holds no tag, no double space and no outer white space |
| Normalizer.WithoutTagsIdempotent | backend/internal/services/parser.go:411-432 | cleaning cleaned text changes nothing |
| Normalizer.RemoveInlineTags | backend/internal/services/parser.go:413-423 | the cutting loop computes the stripped text |
| Normalizer.RemoveHTMLTags | backend/internal/services/parser.go:411-432 | `removeHTMLTags` computes the cleaned text |
| Normalizer.ValidTextSpec | backend/internal/services/parser.go:401-405 | a block is kept, cleaned, exactly when its cleaned form is longer than 10 bytes; the extra trim changes nothing |
| Normalizer.ValidTextsAppend | backend/internal/services/parser.go:399-406 | filtering works block by block and keeps the order |
| Normalizer.ValidTextsSound | backend/internal/services/parser.go:397-408 | every kept text is longer than 10 bytes and is the cleaned form of an input block |
| Normalizer.ValidTextsComplete | backend/internal/services/parser.go:397-408 | every input block whose cleaned form is longer than 10 bytes is kept |
| Normalizer.ValidTextsKeepsFront | backend/internal/services/parser.go:399-406 | a later block never removes an earlier kept text |
| Normalizer.ValidTextsKeepsLast | backend/internal/services/parser.go:403-405 | the last block is kept when its cleaned form is long enough |
| Normalizer.FilterValidTexts | backend/internal/services/parser.go:397-408 | the loop computes the filtered texts |
| PlainText.StuckPersists | backend/internal/services/parser.go:438-448 | once the first `>` precedes the first `<`, a cut keeps it so, lengthens the text by exactly the bytes between the two, and doubles that gap: the loop never returns, spinning in place on `><` and otherwise growing the text without bound |
| PlainText.CutShrinks | backend/internal/services/parser.go:447 | when the `<` comes first, a cut strictly shortens the text and keeps a subsequence |
| PlainText.StripAllDone | backend/internal/services/parser.go:438-448 | when the loop ends, no `<` or no `>` is left, and the text is a subsequence of the page |
| PlainText.StripAllEnds | backend/internal/services/parser.go:438-448 | on stuck text the loop yields no result, since the source never returns; text without `<` or `>` is left unchanged |
| PlainText.CleanLinesSound | backend/internal/services/parser.go:451-458 | every kept line is a trimmed line of the text with at least ten runes |
| PlainText.CleanLinesComplete | backend/internal/services/parser.go:451-458 | every trimmed line with at least ten runes is kept |
| PlainText.CleanLinesAppend | backend/internal/services/parser.go:453-458 | the line filter works line by line and keeps the order |
| PlainText.PlainTextSplits | backend/internal/services/parser.go:451-460 | the result splits back on blank lines into exactly the kept lines |
| PlainText.ExtractPlainText | backend/internal/services/parser.go:434-461 | the two loops compute the plain text, or report that the source does not return |
| Summarizer.Min | backend/internal/services/parser.go:463-468 | the result is one of the two and not above either |
| Summarizer.TruncateString | backend/internal/services/parser.go:470-475 | the result is the prefix of the text of length `min(len, maxLen)` |
| Summarizer.Prefix | backend/internal/services/parser.go:532-535 | the bullet loop uses the prefix of at most three key paragraphs |
| Summarizer.Bullets | backend/internal/services/parser.go:532-537 | one bullet per shown key paragraph |
| Summarizer.CollectExtends | backend/internal/services/parser.go:504-527 | the collection loop only appends |
| Summarizer.CollectFirstThree | backend/internal/services/parser.go:504-527 | the first three collected lines are the first three trimmed lines of at least 10 bytes, whatever the keywords |
| Summarizer.LongLinesSkip | backend/internal/services/parser.go:505-508 | a short line is skipped |
| Summarizer.LongLinesTake | backend/internal/services/parser.go:505-508 | a long line comes first among the long lines |
| Summarizer.CollectTakes | backend/internal/services/parser.go:521-522 | while fewer than three are held, a long line is taken |
| Summarizer.LongLinesSpec | backend/internal/services/parser.go:504-508 | the long lines are exactly the trimmed lines with at least 10 bytes |
| Summarizer.SummaryIgnoresKeywords | backend/internal/services/parser.go:485-544 | the digest equals the one built from the first three long lines: the keyword test never changes it |
| Summarizer.SummaryStarts | backend/internal/services/parser.go:486-543 | the digest opens with the bracketed title line, followed by the description line exactly when the description is non-empty |
| Summarizer.JoinEnds | backend/internal/services/parser.go:543 | the join starts with the first part and ends with the last |
| Summarizer.PartsShape | backend/internal/services/parser.go:486-541 | parts: the bracketed title first, the description second exactly when non-empty, the key-points header and up to three bullets of at most `•` + 150 bytes, the closing note last |
| Summarizer.KeyPointsPresent | backend/internal/services/parser.go:504-530 | the key-points section appears exactly when some trimmed line has at least 10 bytes |
| Summarizer.SummaryEnds | backend/internal/services/parser.go:485-544 | the digest starts with "【title】" and ends with the closing note |
| Summarizer.ContainsKeyword | backend/internal/services/parser.go:511-518 | the keyword loop reports whether the lowered line contains a lowered keyword |
| Summarizer.CollectKeyParagraphs | backend/internal/services/parser.go:498-527 | the collection loop computes the key paragraphs |
| Summarizer.SummarizeContent | backend/internal/services/parser.go:485-544 | `summarizeContent` computes the digest |
| Summarizer.SummaryParts | backend/internal/services/parser.go:486-541 | the parts are built in the digest's order |
| Summarizer.AppendKeyPoints | backend/internal/services/parser.go:529-538 | the header and bullets are added only when there are key paragraphs |
| Summarizer.AppendBullets | backend/internal/services/parser.go:532-537 | one bullet for each of the first three key paragraphs |
| Pipeline.Cond | backend/internal/services/parser.go:477-482 | `cond` is the first value when the condition holds and the second otherwise |
| Pipeline.DescriptionFieldSpec | backend/internal/services/parser.go:160-162 | the description field is the page's description, or "无描述" when it is empty; it is never empty |
| Pipeline.FallbackExactly | backend/internal/services/parser.go:129-152 | the plain-text fallback of the unstripped page is used exactly when no paragraph of the cleaned page survives the filter |
| Pipeline.ParseFails | backend/internal/services/parser.go:122-152 | there is no content exactly when no paragraph survives and the plain-text extraction does not return |
| Pipeline.ReportFields | backend/internal/services/parser.go:160-164 | the title follows its label at the start, the address follows the description field, and the digest ends the report |
| Pipeline.ReportEnds | backend/internal/services/parser.go:157-164 | every report ends with the digest's closing note |
| Pipeline.ParseFetched | backend/internal/services/parser.go:113-164 | the extraction steps, run in the source's order, compute the parse of the page |
| Worked.TwoParagraphs | backend/internal/services/parser.go:329-395 | the page `<p>A</p><p>B</p>` gives the blocks `A` and `B`, in that order |
| Worked.FilterShortAndLong | backend/internal/services/parser.go:397-408 | the filter drops `short` (5 bytes) and keeps `this is a sufficiently long paragraph` as it is |
| Worked.BoldHello | backend/internal/services/parser.go:411-432 | cleaning `<b>Hello</b>  world` gives `Hello world` |
| Worked.ArrowHangs | backend/internal/services/parser.go:438-448 | on `<p>x > y</p>` the plain-text loop cuts `<p>` and is then stuck, so it never returns |
| WholePage.ScriptStripped | backend/internal/services/parser.go:286-327 | on the example page, stripping `script` removes exactly `<script>evil()</script>` in one pass and stops because no `<script` is left |
| WholePage.PageCleaned | backend/internal/services/parser.go:123 | the four tag names strip the example page down to the page without its script element |
| WholePage.PageTitle | backend/internal/services/parser.go:187-227 | the example page's title is `Hi` |
| WholePage.PageDescription | backend/internal/services/parser.go:229-255 | the example page's description is `Desc` |
| WholePage.PageParagraphs | backend/internal/services/parser.go:329-395 | the cleaned example page has exactly one block, `This is a long enough paragraph to survive filtering.` |
| WholePage.PageContent | backend/internal/services/parser.go:122-152 | that block survives the filter and is the whole content the digest is built from |
| WholePage.PageReport | backend/internal/services/parser.go:113-164 | the report for the example page carries title `Hi`, description `Desc`, the address and the digest of that paragraph |
| WholePage.PageDigestStarts | backend/internal/services/parser.go:486-543 | the example page's digest begins with `【Hi】` and then `Desc`, each on its own line |

## Left out

- Fetching the page (parser.go:45-92) is not modelled: URL validation, the HTTP request and its headers, the status check, the body read and the empty-body error. The model starts from the fetched markup and the address.
- Logging is not modelled: the element counts, every `fmt.Print*`, the preview loop and the timings (parser.go:97-111, 114-147, 153-175). The cap warning at parser.go:296 is recorded as the `Capped` stop reason instead.
- The `ExtractedContent` record and its `time.Now` timestamp (parser.go:177-182) are not modelled. `Pipeline.Parse` returns only the formatted content.
- Case folding is ASCII only, and `Text.Lower` keeps every byte, so the lowered copy always lines up with the page. Go's `strings.ToLower` does not always do that. Unicode case mappings can change a character's byte length. Every byte that is not valid UTF-8 becomes the three-byte U+FFFD (on a GBK page, for example). In both cases the positions found in the lowered copy (parser.go:193-196, 338, 370) no longer line up with the page. The source then cuts the page at the wrong place, and `html[start:]` can panic. The model does not capture either effect.
- `Text.TrimSpace` trims ASCII white space only, and not Unicode white space.
- PlainText.ExtractPlainText: when the source's first loop never returns, it returns `None`. That `None` does not tell apart the two ways the source fails to return, spinning in place on `><` or growing the text until the process runs out of memory; `PlainText.StuckPersists` states both. `Pipeline.Parse` passes the `None` on as "no content".
- Summarizer.TruncateString: takes a `nat` length, so the panic on a negative length is not modelled. The source only passes 150, 100, 80 and 50.
- The truncation at byte 150 may split a multi-byte character, as in the source. The model works on bytes and does not state anything about character boundaries.
