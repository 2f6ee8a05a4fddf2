/** The block extractor: the trimmed text of every `<p …>…</p>` element and,
    when there is none, of the `h1`–`h6` and `li` elements
    (`extractParagraphs` in backend/internal/services/parser.go). */
module Blocks {
  import opened Text
  import opened TagStripper

  const ParagraphOpen: Bytes := "<p"
  const ParagraphClose: Bytes := "</p>"

  /** The tag names the fallback pass looks for, in order. */
  const FallbackTags: seq<Bytes> := ["h1", "h2", "h3", "h4", "h5", "h6", "li"]

  // ---------------------------------------------------------------------------
  // Primary pass over `<p` elements
  // ---------------------------------------------------------------------------

  /** One round of the primary loop from cursor `idx` in the lower-cased
      page: the first `<p` at or after `idx`, the first `>` after it, then the
      first `</p>` after that. The result is the span of the inner text. Any
      tag whose name starts with `p` (`<pre`, `<param`) opens an element
      too. */
  function ParagraphSpan(lower: Bytes, idx: nat): (r: Option<(nat, nat)>)
    requires idx <= |lower|
    ensures r.Some? ==> idx <= r.value.0 <= r.value.1 && r.value.1 + 4 <= |lower|
  {
    var o := IndexOf(lower[idx..], ParagraphOpen);
    if o == -1 then None
    else
      var start := idx + o;
      var endTag := IndexOf(lower[start..], ">");
      if endTag == -1 then None
      else
        var s := start + endTag + 1;
        var end := IndexOf(lower[s..], ParagraphClose);
        if end == -1 then None else Some((s, s + end))
  }

  /** One round of the primary loop over the page and its lower-cased copy:
      the trimmed inner text of the element, in the page's own case, and the
      cursor just past its `</p>`. */
  function ParagraphStep(html: Bytes, lower: Bytes, idx: nat): (r: Option<(Bytes, nat)>)
    requires |lower| == |html| && idx <= |html|
    ensures r.Some? ==> idx < r.value.1 <= |html|
  {
    match ParagraphSpan(lower, idx)
    case None => None
    case Some((s, e)) => Some((TrimSpace(html[s..e]), e + 4))
  }

  /** The blocks the primary loop collects from cursor `idx` on. */
  function ParagraphsFrom(html: Bytes, lower: Bytes, idx: nat): seq<Bytes>
    requires |lower| == |html| && idx <= |html|
    decreases |html| - idx
  {
    match ParagraphStep(html, lower, idx)
    case None => []
    case Some((text, next)) => [text] + ParagraphsFrom(html, lower, next)
  }

  // ---------------------------------------------------------------------------
  // Fallback pass over heading and list-item elements
  // ---------------------------------------------------------------------------

  /** Where the fallback's innermost loop finds an element in `temp`: the first
      case-insensitive `<tag`, the first `>` after it, then the first
      case-SENSITIVE `</tag>` after that. The result is the span of the inner
      text. */
  function BlockSpan(temp: Bytes, tag: Bytes): (r: Option<(nat, nat)>)
    ensures r.Some? ==> r.value.0 <= r.value.1 && r.value.1 + |CloseTag(tag)| <= |temp|
  {
    var start := IndexOf(Lower(temp), OpenTag(tag));
    if start == -1 then None
    else
      var endTag := IndexOf(temp[start..], ">");
      if endTag == -1 then None
      else
        var s := start + endTag + 1;
        var end := IndexOf(temp[s..], CloseTag(tag));
        if end == -1 then None else Some((s, s + end))
  }

  /** One round of the innermost loop: the trimmed inner text and what follows
      the closing tag. */
  function NextBlock(temp: Bytes, tag: Bytes): (r: Option<(Bytes, Bytes)>)
    ensures r.Some? ==> |r.value.1| < |temp|
  {
    match BlockSpan(temp, tag)
    case None => None
    case Some((s, e)) => Some((TrimSpace(temp[s..e]), temp[e + |tag| + 3..]))
  }

  /** Every complete element from the start of `temp` on, as the innermost
      loop would collect them given enough rounds. */
  function AllBlocks(temp: Bytes, tag: Bytes): seq<Bytes>
    decreases |temp|
  {
    match NextBlock(temp, tag)
    case None => []
    case Some((text, rest)) => [text] + AllBlocks(rest, tag)
  }

  /** At most `k` of `blocks`: the innermost loop runs at most `k` rounds and
      breaks at the first incomplete element. */
  function Take(blocks: seq<Bytes>, k: nat): (r: seq<Bytes>)
    ensures |r| == if k <= |blocks| then k else |blocks|
  {
    if k <= |blocks| then blocks[..k] else blocks
  }

  /** What `n` rounds of the middle loop append: round `i` restarts from the
      whole page and collects up to `i + 1` blocks. */
  function Rounds(blocks: seq<Bytes>, n: nat): seq<Bytes>
  {
    if n == 0 then [] else Rounds(blocks, n - 1) + Take(blocks, n)
  }

  /** The middle loop runs once per case-insensitive `<tag` on the page. */
  function TagBlocks(html: Bytes, tag: Bytes): seq<Bytes>
  {
    Rounds(AllBlocks(html, tag), Count(Lower(html), OpenTag(tag)))
  }

  /** The fallback pass: the tag names in order, each over the whole page. */
  function Fallback(html: Bytes, tags: seq<Bytes>): seq<Bytes>
    decreases |tags|
  {
    if tags == [] then []
    else Fallback(html, tags[..|tags| - 1]) + TagBlocks(html, tags[|tags| - 1])
  }

  /** `extractParagraphs`' result: the `<p` blocks, or the fallback blocks when
      there is no complete `<p` element. */
  function Paragraphs(html: Bytes): seq<Bytes>
  {
    var primary := ParagraphsFrom(html, Lower(html), 0);
    if primary != [] then primary else Fallback(html, FallbackTags)
  }

  // ---------------------------------------------------------------------------
  // The primary pass: what a round finds
  // ---------------------------------------------------------------------------

  /** `lower[s..e]` is the inner text of the first `<p` element at or after
      `idx`: `o` is the first `<p` from `idx` on, `s` is just past the first
      `>` after it, and `e` is the first `</p>` after that. */
  ghost predicate ParagraphElement(lower: Bytes, idx: nat, o: int, s: int, e: int)
  {
    idx <= o <= |lower| && FirstAt(lower[idx..], ParagraphOpen, o - idx) &&
    o < s <= |lower| && FirstAt(lower[o..], ">", s - 1 - o) &&
    s <= e <= |lower| && FirstAt(lower[s..], ParagraphClose, e - s)
  }

  /** A round finds the first `<p` element whenever there is a complete one, */
  lemma ParagraphSpanFound(lower: Bytes, idx: nat, o: int, s: int, e: int)
    requires idx <= |lower| && ParagraphElement(lower, idx, o, s, e)
    ensures ParagraphSpan(lower, idx) == Some((s, e))
  {
    IndexOfIs(lower[idx..], ParagraphOpen, o - idx);
    IndexOfIs(lower[o..], ">", s - 1 - o);
    IndexOfIs(lower[s..], ParagraphClose, e - s);
    ParagraphSpanAt(lower, idx, o, s, e);
  }

  /** The last step of `ParagraphSpanFound`, once the three searches are known. */
  lemma ParagraphSpanAt(lower: Bytes, idx: nat, o: int, s: int, e: int)
    requires idx <= o < s <= e <= |lower|
    requires IndexOf(lower[idx..], ParagraphOpen) == o - idx
    requires IndexOf(lower[o..], ">") == s - 1 - o
    requires IndexOf(lower[s..], ParagraphClose) == e - s
    ensures ParagraphSpan(lower, idx) == Some((s, e))
  {
    var start := idx + (o - idx);
    assert start == o;
    assert start + (s - 1 - o) + 1 == s;
    assert s + (e - s) == e;
  }

  /** and what a round finds is such an element, whose inner text starts at
      least three bytes after the cursor. */
  lemma ParagraphSpanElement(lower: Bytes, idx: nat)
    requires idx <= |lower| && ParagraphSpan(lower, idx).Some?
    ensures var (s, e) := ParagraphSpan(lower, idx).value;
      idx + 3 <= s && exists o :: ParagraphElement(lower, idx, o, s, e)
  {
    var o := IndexOf(lower[idx..], ParagraphOpen);
    var start := idx + o;
    var t := IndexOf(lower[start..], ">");
    var s := start + t + 1;
    var e := IndexOf(lower[s..], ParagraphClose);
    var stop := s + e;
    assert ParagraphSpan(lower, idx) == Some((s, stop));
    assert idx + 3 <= s && ParagraphElement(lower, idx, start, s, stop) by {
      IndexOfSpec(lower[idx..], ParagraphOpen);
      IndexOfSpec(lower[start..], ">");
      IndexOfSpec(lower[s..], ParagraphClose);
      OpenTagGap(lower, idx, o, t);
    }
  }

  /** The `>` that ends a `<p` tag comes after the two bytes of `<p`. */
  lemma OpenTagGap(lower: Bytes, idx: nat, o: nat, t: int)
    requires idx + o <= |lower| && MatchAt(lower[idx..], ParagraphOpen, o)
    requires 0 <= t && FirstAt(lower[idx + o..], ">", t)
    ensures t >= 2
  {
    var rest := lower[idx + o..];
    assert rest[0] == '<' && rest[1] == 'p' by {
      assert rest[..2] == lower[idx..][o..o + 2];
    }
    assert rest[t] == '>' by {
      assert rest[t..t + 1] == ">";
    }
  }

  /** So a round moves the cursor on by at least seven bytes: `<p`, `>` and
      `</p>`, */
  lemma ParagraphAdvance(html: Bytes, lower: Bytes, idx: nat)
    requires |lower| == |html| && idx <= |html| && ParagraphStep(html, lower, idx).Some?
    ensures idx + 7 <= ParagraphStep(html, lower, idx).value.1
  {
    ParagraphSpanElement(lower, idx);
  }

  /** and a page of `n` bytes yields at most `n / 7` blocks. */
  lemma {:induction false} ParagraphsFromBound(html: Bytes, lower: Bytes, idx: nat)
    requires |lower| == |html| && idx <= |html|
    decreases |html| - idx
    ensures 7 * |ParagraphsFrom(html, lower, idx)| <= |html| - idx
  {
    match ParagraphStep(html, lower, idx)
    case None =>
    case Some((text, next)) =>
      ParagraphAdvance(html, lower, idx);
      ParagraphsFromBound(html, lower, next);
  }

  /** Every block of the primary pass is trimmed. */
  lemma {:induction false} ParagraphsFromTrimmed(html: Bytes, lower: Bytes, idx: nat)
    requires |lower| == |html| && idx <= |html|
    decreases |html| - idx
    ensures forall k | 0 <= k < |ParagraphsFrom(html, lower, idx)| ::
      Trimmed(ParagraphsFrom(html, lower, idx)[k])
  {
    match ParagraphStep(html, lower, idx)
    case None =>
    case Some((text, next)) =>
      ParagraphsFromTrimmed(html, lower, next);
  }

  // ---------------------------------------------------------------------------
  // The fallback pass: repetition
  // ---------------------------------------------------------------------------

  /** 0 + 1 + ... + n, which is n(n+1)/2. */
  function Triangle(n: nat): nat
  {
    if n == 0 then 0 else Triangle(n - 1) + n
  }

  lemma {:induction false} TriangleGrows(r: nat, m: nat)
    requires r <= m
    decreases m
    ensures Triangle(r) <= Triangle(m)
  {
    if r < m {
      TriangleGrows(r, m - 1);
    }
  }

  /** When the page has at least `n` complete elements, `n` rounds of the
      middle loop append 1 + 2 + ... + n blocks: round `r` appends the first
      `r + 1` elements again, so the first element's text is repeated once per
      round. */
  lemma {:induction false} RoundsRepeat(blocks: seq<Bytes>, n: nat)
    requires n <= |blocks|
    ensures |Rounds(blocks, n)| == Triangle(n)
    ensures forall r {:trigger Triangle(r)} | 0 <= r < n ::
      Triangle(r + 1) <= |Rounds(blocks, n)| &&
      Rounds(blocks, n)[Triangle(r)..Triangle(r + 1)] == blocks[..r + 1]
  {
    if n > 0 {
      RoundsRepeat(blocks, n - 1);
      var prev := Rounds(blocks, n - 1);
      var all := Rounds(blocks, n);
      assert all == prev + blocks[..n];
      forall r {:trigger Triangle(r)} | 0 <= r < n
        ensures Triangle(r + 1) <= |all| && all[Triangle(r)..Triangle(r + 1)] == blocks[..r + 1]
      {
        if r < n - 1 {
          TriangleGrows(r + 1, n - 1);
          SliceOfPrefix(prev, blocks[..n], Triangle(r), Triangle(r + 1));
        } else {
          assert all[Triangle(r)..Triangle(r + 1)] == blocks[..n];
        }
      }
    }
  }

  /** Once every element has been collected, each further round of the middle
      loop appends all `m` of them again: `n` rounds give the triangle of the
      first `m` rounds followed by `n - m` whole copies. */
  lemma {:induction false} RoundsBeyond(blocks: seq<Bytes>, n: nat)
    requires |blocks| <= n
    decreases n
    ensures |Rounds(blocks, n)| == Triangle(|blocks|) + (n - |blocks|) * |blocks|
    ensures Rounds(blocks, n) == Rounds(blocks, |blocks|) + Copies(blocks, n - |blocks|)
  {
    var m := |blocks|;
    RoundsRepeat(blocks, m);
    if n > m {
      RoundsBeyond(blocks, n - 1);
      assert Take(blocks, n) == blocks;
      assert (n - m) * m == (n - 1 - m) * m + m;
    }
  }

  /** `k` copies of `blocks`, one after another. */
  function Copies(blocks: seq<Bytes>, k: nat): (r: seq<Bytes>)
    ensures |r| == k * |blocks|
  {
    if k == 0 then [] else Copies(blocks, k - 1) + blocks
  }

  /** Every complete element starts at a case-insensitive `<tag` of its own,
      and these do not overlap, so the page holds at least as many `<tag` as
      complete elements. */
  lemma {:induction false} BlocksWithinCount(temp: Bytes, tag: Bytes)
    decreases |temp|
    ensures |AllBlocks(temp, tag)| <= Count(Lower(temp), OpenTag(tag))
  {
    AllBlocksStep(temp, tag);
    if NextBlock(temp, tag).Some? {
      var cut := NextBlockCut(temp, tag);
      BlocksWithinCount(temp[cut..], tag);
      LowerSuffix(temp, cut);
      CountPastFirst(Lower(temp), OpenTag(tag), cut);
    }
  }

  /** A found element leaves the text after its closing tag, which lies past
      the `<tag` the round started from. */
  lemma NextBlockCut(temp: Bytes, tag: Bytes) returns (cut: nat)
    requires NextBlock(temp, tag).Some?
    ensures IndexOf(Lower(temp), OpenTag(tag)) != -1
    ensures IndexOf(Lower(temp), OpenTag(tag)) + |OpenTag(tag)| <= cut <= |temp|
    ensures NextBlock(temp, tag).value.1 == temp[cut..]
  {
    var (s, e) := BlockSpan(temp, tag).value;
    NextBlockAt(temp, tag, s, e);
    cut := e + |tag| + 3;
  }

  /** So the fallback for one tag name is always the repetition pattern of
      `RoundsRepeat` over all `m` complete elements, followed by one whole copy
      of them for every `<tag` beyond the `m`-th (such as the `<link` that
      `<li` also matches, or an unclosed element). */
  lemma TagBlocksShape(html: Bytes, tag: Bytes, blocks: seq<Bytes>, n: nat)
    requires blocks == AllBlocks(html, tag) && n == Count(Lower(html), OpenTag(tag))
    ensures |blocks| <= n
    ensures TagBlocks(html, tag) == Rounds(blocks, |blocks|) + Copies(blocks, n - |blocks|)
    ensures |TagBlocks(html, tag)| == Triangle(|blocks|) + (n - |blocks|) * |blocks|
  {
    BlocksWithinCount(html, tag);
    RoundsShape(TagBlocks(html, tag), blocks, n);
  }

  /** `RoundsBeyond` for rounds already computed. */
  lemma RoundsShape(all: seq<Bytes>, blocks: seq<Bytes>, n: nat)
    requires all == Rounds(blocks, n) && |blocks| <= n
    ensures all == Rounds(blocks, |blocks|) + Copies(blocks, n - |blocks|)
    ensures |all| == Triangle(|blocks|) + (n - |blocks|) * |blocks|
  {
    RoundsBeyond(blocks, n);
  }

  lemma SliceOfPrefix<T>(a: seq<T>, b: seq<T>, i: nat, j: nat)
    requires i <= j <= |a|
    ensures (a + b)[i..j] == a[i..j]
  {
  }

  /** The fallback repeats blocks but invents none: everything the rounds
      append is one of the page's complete elements. */
  lemma {:induction false} RoundsWithin(blocks: seq<Bytes>, n: nat)
    ensures forall x | x in Rounds(blocks, n) :: x in blocks
  {
    if n > 0 {
      RoundsWithin(blocks, n - 1);
      forall x | x in Rounds(blocks, n) ensures x in blocks {
        if x !in Rounds(blocks, n - 1) {
          assert x in Take(blocks, n);
        }
      }
    }
  }

  /** Every block of the fallback pass is trimmed. */
  lemma {:induction false} AllBlocksTrimmed(temp: Bytes, tag: Bytes)
    decreases |temp|
    ensures forall k | 0 <= k < |AllBlocks(temp, tag)| :: Trimmed(AllBlocks(temp, tag)[k])
  {
    match NextBlock(temp, tag)
    case None =>
    case Some((text, rest)) =>
      AllBlocksTrimmed(rest, tag);
  }

  /** The fallback round's span in terms of its three searches. */
  lemma BlockSpanOf(temp: Bytes, tag: Bytes, o: int, t: int, e: int)
    requires IndexOf(Lower(temp), OpenTag(tag)) == o
    requires o == -1 || IndexOf(temp[o..], ">") == t
    requires o == -1 || t == -1 || IndexOf(temp[o + t + 1..], CloseTag(tag)) == e
    ensures BlockSpan(temp, tag) ==
      if o == -1 || t == -1 || e == -1 then None else Some((o + t + 1, o + t + 1 + e))
  {
  }

  /** One round of the innermost loop in terms of its three searches; `s` is
      where the inner text starts. */
  lemma NextBlockOf(temp: Bytes, tag: Bytes, o: int, t: int, s: int, e: int)
    requires IndexOf(Lower(temp), OpenTag(tag)) == o
    requires o == -1 || IndexOf(temp[o..], ">") == t
    requires s == o + t + 1
    requires o == -1 || t == -1 || IndexOf(temp[s..], CloseTag(tag)) == e
    ensures o == -1 || t == -1 || e == -1 ==> NextBlock(temp, tag).None?
    ensures o != -1 && t != -1 && e != -1 ==>
      NextBlock(temp, tag) == Some((TrimSpace(temp[s..s + e]), temp[s + e + |tag| + 3..]))
  {
    BlockSpanOf(temp, tag, o, t, e);
    if o != -1 && t != -1 && e != -1 {
      NextBlockAt(temp, tag, s, s + e);
    }
  }

  lemma NextBlockAt(temp: Bytes, tag: Bytes, s: nat, e: nat)
    requires BlockSpan(temp, tag) == Some((s, e))
    ensures e + |tag| + 3 <= |temp|
    ensures NextBlock(temp, tag) == Some((TrimSpace(temp[s..e]), temp[e + |tag| + 3..]))
  {
  }

  /** A round of the innermost loop with `k` rounds left takes one block and
      leaves `k - 1` rounds for the rest, */
  lemma TakeStep(temp: Bytes, tag: Bytes, k: nat, text: Bytes, rest: Bytes)
    requires NextBlock(temp, tag) == Some((text, rest)) && k > 0
    ensures Take(AllBlocks(temp, tag), k) == [text] + Take(AllBlocks(rest, tag), k - 1)
  {
    AllBlocksStep(temp, tag);
    TakeCons(text, AllBlocks(rest, tag), k);
  }

  /** or finds no complete element and stops. */
  lemma TakeStop(temp: Bytes, tag: Bytes, k: nat)
    requires NextBlock(temp, tag).None?
    ensures Take(AllBlocks(temp, tag), k) == []
  {
    AllBlocksStep(temp, tag);
  }

  lemma TakeCons(x: Bytes, xs: seq<Bytes>, k: nat)
    requires k > 0
    ensures Take([x] + xs, k) == [x] + Take(xs, k - 1)
  {
    if k - 1 <= |xs| {
      assert ([x] + xs)[..k] == [x] + xs[..k - 1];
    }
  }

  lemma AllBlocksStep(temp: Bytes, tag: Bytes)
    ensures NextBlock(temp, tag).None? ==> AllBlocks(temp, tag) == []
    ensures NextBlock(temp, tag).Some? ==>
      var (text, rest) := NextBlock(temp, tag).value;
      AllBlocks(temp, tag) == [text] + AllBlocks(rest, tag)
  {
  }

  // ---------------------------------------------------------------------------
  // The loops
  // ---------------------------------------------------------------------------

  /** `extractParagraphs`: the `<p>` pass, and when it finds nothing the
      heading and list-item pass. */
  method ExtractParagraphs(html: Bytes) returns (paragraphs: seq<Bytes>)
    ensures paragraphs == Paragraphs(html)
  {
    var content := Lower(html);
    paragraphs := PrimaryParagraphs(html, content);
    if |paragraphs| == 0 {
      var tags := ["h1", "h2", "h3", "h4", "h5", "h6", "li"];
      for t := 0 to |tags|
        invariant paragraphs == Fallback(html, tags[..t])
      {
        paragraphs := AppendTag(html, tags[t], paragraphs);
        assert tags[..t + 1][..t] == tags[..t];
      }
      assert tags[..|tags|] == FallbackTags;
    }
  }

  /** The first loop of `extractParagraphs` over the page and its lower-cased
      copy `content`: every `<p ...>...</p>` element from left to right, its
      inner text trimmed. */
  method PrimaryParagraphs(html: Bytes, content: Bytes) returns (paragraphs: seq<Bytes>)
    requires |content| == |html|
    ensures paragraphs == ParagraphsFrom(html, content, 0)
  {
    paragraphs := [];
    var idx: nat := 0;
    ghost var goal := ParagraphsFrom(html, content, 0);
    while true
      invariant idx <= |html|
      invariant paragraphs + ParagraphsFrom(html, content, idx) == goal
      decreases |html| - idx
    {
      var round := ParagraphRound(html, content, idx);
      match round
      case None =>
        ParagraphsFromNone(html, content, idx);
        break;
      case Some((text, next)) =>
        ParagraphsFromSome(html, content, idx, text, next);
        AppendAssoc(paragraphs, [text], ParagraphsFrom(html, content, next));
        paragraphs := paragraphs + [text];
        idx := next;
    }
    assert paragraphs + [] == paragraphs;
  }

  /** One round of the primary loop from cursor `idx`: the trimmed text of the
      next element and the cursor past it, or nothing when the searches fail. */
  method ParagraphRound(html: Bytes, content: Bytes, idx: nat) returns (r: Option<(Bytes, nat)>)
    requires |content| == |html| && idx <= |html|
    ensures r == ParagraphStep(html, content, idx)
  {
    var found, start, end := FindParagraph(content, idx);
    if !found {
      return None;
    }
    var stop := start + end;
    ParagraphStepOf(html, content, idx, start, stop);
    r := Some((TrimSpace(html[start..stop]), stop + 4));
  }

  /** The three searches of one round of the primary loop, from cursor `idx`
      in the lower-cased page: the span of the inner text starts at `start`
      and has `end` bytes. */
  method FindParagraph(content: Bytes, idx: nat) returns (found: bool, start: nat, end: nat)
    requires idx <= |content|
    ensures found <==> ParagraphSpan(content, idx).Some?
    ensures found ==> ParagraphSpan(content, idx) == Some((start, start + end))
  {
    var o := IndexOf(content[idx..], ParagraphOpen);
    if o == -1 {
      return false, 0, 0;
    }
    start := idx + o;
    var endTag := IndexOf(content[start..], ">");
    if endTag == -1 {
      return false, 0, 0;
    }
    start := start + endTag + 1;
    var e := IndexOf(content[start..], ParagraphClose);
    if e == -1 {
      return false, 0, 0;
    }
    return true, start, e;
  }

  /** A round's result in terms of the span its searches find, */
  lemma ParagraphStepOf(html: Bytes, lower: Bytes, idx: nat, s: nat, e: nat)
    requires |lower| == |html| && idx <= |html|
    requires ParagraphSpan(lower, idx) == Some((s, e))
    ensures s <= e && e + 4 <= |html|
    ensures ParagraphStep(html, lower, idx) == Some((TrimSpace(html[s..e]), e + 4))
  {
  }

  /** a round that finds an element adds its text and moves the cursor, */
  lemma ParagraphsFromSome(html: Bytes, lower: Bytes, idx: nat, text: Bytes, next: nat)
    requires |lower| == |html| && idx <= |html|
    requires ParagraphStep(html, lower, idx) == Some((text, next))
    ensures ParagraphsFrom(html, lower, idx) == [text] + ParagraphsFrom(html, lower, next)
  {
  }

  /** and one that finds none ends the loop. */
  lemma ParagraphsFromNone(html: Bytes, lower: Bytes, idx: nat)
    requires |lower| == |html| && idx <= |html|
    requires ParagraphStep(html, lower, idx).None?
    ensures ParagraphsFrom(html, lower, idx) == []
  {
  }

  /** One tag of the fallback: as many rounds as the page has opening tags,
      round `i` taking the first `i + 1` elements again. */
  method AppendTag(html: Bytes, tag: Bytes, before: seq<Bytes>) returns (paragraphs: seq<Bytes>)
    ensures paragraphs == before + TagBlocks(html, tag)
  {
    paragraphs := before;
    ghost var blocks := AllBlocks(html, tag);
    var tagCount := Count(Lower(html), OpenTag(tag));
    for i := 0 to tagCount
      invariant paragraphs == before + Rounds(blocks, i)
    {
      paragraphs := AppendRound(html, tag, i, paragraphs);
      RoundsNext(before, blocks, i);
    }
  }

  /** Appending a round to what the earlier rounds appended. */
  lemma RoundsNext(before: seq<Bytes>, blocks: seq<Bytes>, i: nat)
    ensures before + Rounds(blocks, i) + Take(blocks, i + 1) == before + Rounds(blocks, i + 1)
  {
  }

  /** One round `i` of the fallback's middle loop: restart from the whole page
      and append at most `i + 1` blocks. */
  method AppendRound(html: Bytes, tag: Bytes, i: nat, before: seq<Bytes>) returns (paragraphs: seq<Bytes>)
    ensures paragraphs == before + Take(AllBlocks(html, tag), i + 1)
  {
    paragraphs := before;
    var tempContent := html;
    var j := 0;
    ghost var goal := before + Take(AllBlocks(html, tag), i + 1);
    while j <= i
      invariant 0 <= j <= i + 1
      invariant paragraphs + Take(AllBlocks(tempContent, tag), i + 1 - j) == goal
      decreases i + 1 - j
    {
      var found, text, rest := FindBlock(tempContent, tag);
      if !found {
        TakeStop(tempContent, tag, i + 1 - j);
        assert paragraphs + [] == paragraphs;
        break;
      }
      TakeStep(tempContent, tag, i + 1 - j, text, rest);
      AppendAssoc(paragraphs, [text], Take(AllBlocks(rest, tag), i - j));
      paragraphs := paragraphs + [text];
      tempContent := rest;
      j := j + 1;
    }
    if j == i + 1 {
      assert Take(AllBlocks(tempContent, tag), 0) == [];
      assert paragraphs + [] == paragraphs;
    }
  }

  /** The body of the innermost loop: the three searches, and the trimmed
      inner text and the rest of the page when all three succeed. */
  method FindBlock(tempContent: Bytes, tag: Bytes) returns (found: bool, text: Bytes, rest: Bytes)
    ensures found <==> NextBlock(tempContent, tag).Some?
    ensures found ==> NextBlock(tempContent, tag) == Some((text, rest))
  {
    text, rest := [], [];
    var start := IndexOf(Lower(tempContent), OpenTag(tag));
    if start == -1 {
      NextBlockOf(tempContent, tag, -1, 0, 0, 0);
      return false, text, rest;
    }
    ghost var o := start;
    var endTag := IndexOf(tempContent[start..], ">");
    if endTag == -1 {
      NextBlockOf(tempContent, tag, o, -1, o, 0);
      return false, text, rest;
    }
    start := start + endTag + 1;
    var end := IndexOf(tempContent[start..], CloseTag(tag));
    if end == -1 {
      NextBlockOf(tempContent, tag, o, endTag, start, -1);
      return false, text, rest;
    }
    NextBlockOf(tempContent, tag, o, endTag, start, end);
    text := TrimSpace(tempContent[start..start + end]);
    rest := tempContent[start + end + |tag| + 3..];
    return true, text, rest;
  }
}
