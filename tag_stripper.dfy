/** The tag stripper: deletes `<tag …</tag>` spans, one tag name after another,
    before blocks are extracted (`removeTags` in backend/internal/services/parser.go). */
module TagStripper {
  import opened Text

  /** Passes allowed per tag name before stripping stops early. */
  const MaxIterations: nat := 10000

  /** Why stripping one tag name stopped. */
  datatype Stop =
    | NotFound   // no `<tag` is left
    | Unclosed   // a `<tag` with neither a `</tag>` nor a `>` after it
    | Capped     // the iteration cap was reached

  /** The outcome of stripping one tag name: the text, how many spans were
      removed, and why the loop ended (`Capped` is where the source prints its warning). */
  datatype Stripped = Stripped(text: Bytes, passes: nat, stop: Stop)

  /** One pass of the loop: a removal, or the reason it breaks out. */
  datatype PassResult = Removed(rest: Bytes) | Halted(why: Stop)

  function OpenTag(tag: Bytes): Bytes
  {
    "<" + tag
  }

  function CloseTag(tag: Bytes): Bytes
  {
    "</" + tag + ">"
  }

  /** One pass: find the first `<tag` in the lower-cased text and cut from there
      to the end of the first `</tag>` after it, or, when there is none, to the
      first `>` after it. Positions found in the lower-cased copy are used on
      the original text, which is the same length. */
  function Pass(content: Bytes, tag: Bytes): (p: PassResult)
    ensures p.Removed? ==> |p.rest| < |content|
    ensures p.Halted? ==> p.why != Capped
  {
    var lower := Lower(content);
    var startIdx := IndexOf(lower, OpenTag(tag));
    if startIdx == -1 then Halted(NotFound)
    else
      var endIdx := IndexOf(lower[startIdx..], CloseTag(tag));
      if endIdx == -1 then
        var tagEnd := IndexOf(content[startIdx..], ">");
        if tagEnd == -1 then Halted(Unclosed)
        else Removed(content[..startIdx] + content[startIdx + tagEnd + 1..])
      else Removed(content[..startIdx] + content[startIdx + endIdx + |CloseTag(tag)|..])
  }

  /** The span `content[s..e]` is the one a pass deletes: it starts at the first
      case-insensitive `<tag`, and ends right after the first `</tag>` that
      follows, or, when no `</tag>` follows, right after the first `>`. */
  ghost predicate RemovesSpan(content: Bytes, tag: Bytes, s: int, e: int)
  {
    var lower := Lower(content);
    0 <= s < e <= |content| &&
    FirstAt(lower, OpenTag(tag), s) &&
    (FirstAt(lower[s..], CloseTag(tag), e - s - |CloseTag(tag)|) ||
     (Absent(lower[s..], CloseTag(tag)) && FirstAt(content[s..], ">", e - s - 1)))
  }

  /** What a pass keeps is a subsequence of the text, in its original case. */
  lemma PassIsSubseq(content: Bytes, tag: Bytes)
    requires Pass(content, tag).Removed?
    ensures IsSubseq(Pass(content, tag).rest, content)
  {
    PassRemovesOneSpan(content, tag);
    var s, e :| RemovesSpan(content, tag, s, e) && Pass(content, tag).rest == content[..s] + content[e..];
    CutIsSubseq(content, s, e);
  }

  /** A pass deletes exactly one contiguous span, the one `RemovesSpan`
      describes, and keeps everything else in its original case. */
  lemma PassRemovesOneSpan(content: Bytes, tag: Bytes)
    ensures Pass(content, tag).Removed? ==>
      exists s, e :: RemovesSpan(content, tag, s, e) &&
        Pass(content, tag).rest == content[..s] + content[e..]
    ensures forall s, e | RemovesSpan(content, tag, s, e) ::
      Pass(content, tag) == Removed(content[..s] + content[e..])
  {
    var lower := Lower(content);
    var startIdx := IndexOf(lower, OpenTag(tag));
    IndexOfSpec(lower, OpenTag(tag));
    if startIdx != -1 {
      var endIdx := IndexOf(lower[startIdx..], CloseTag(tag));
      IndexOfSpec(lower[startIdx..], CloseTag(tag));
      IndexOfSpec(content[startIdx..], ">");
      if endIdx != -1 {
        assert RemovesSpan(content, tag, startIdx, startIdx + endIdx + |CloseTag(tag)|);
      } else {
        var tagEnd := IndexOf(content[startIdx..], ">");
        if tagEnd != -1 {
          assert RemovesSpan(content, tag, startIdx, startIdx + tagEnd + 1);
        }
      }
    }
    forall s, e | RemovesSpan(content, tag, s, e)
      ensures Pass(content, tag) == Removed(content[..s] + content[e..])
    {
      FirstAtUnique(lower, OpenTag(tag), s, startIdx);
      IndexOfSpec(lower[s..], CloseTag(tag));
      IndexOfSpec(content[s..], ">");
      if IndexOf(lower[s..], CloseTag(tag)) != -1 {
        FirstAtUnique(lower[s..], CloseTag(tag), e - s - |CloseTag(tag)|, IndexOf(lower[s..], CloseTag(tag)));
      } else {
        FirstAtUnique(content[s..], ">", e - s - 1, IndexOf(content[s..], ">"));
      }
    }
  }

  /** A pass halts for lack of a closing `>` only when the first `<tag` has
      neither a `</tag>` nor a `>` after it. */
  lemma HaltedFacts(content: Bytes, tag: Bytes)
    ensures Pass(content, tag) == Halted(NotFound) ==> Absent(Lower(content), OpenTag(tag))
    ensures Pass(content, tag) == Halted(Unclosed) ==>
      var s := IndexOf(Lower(content), OpenTag(tag));
      0 <= s && '>' !in content[s..] && Absent(Lower(content)[s..], CloseTag(tag))
  {
    var s := IndexOf(Lower(content), OpenTag(tag));
    IndexOfSpec(Lower(content), OpenTag(tag));
    if s != -1 {
      IndexOfByte(content[s..], '>');
      IndexOfSpec(Lower(content)[s..], CloseTag(tag));
    }
  }

  /** The inner loop of `removeTags` for one tag name, `done` passes in. */
  function StripTag(content: Bytes, tag: Bytes, done: nat): Stripped
    requires done <= MaxIterations
    decreases MaxIterations - done
  {
    if done == MaxIterations then Stripped(content, done, Capped)
    else
      match Pass(content, tag)
      case Halted(why) => Stripped(content, done, why)
      case Removed(rest) => StripTag(rest, tag, done + 1)
  }

  /** What the loop for one tag name guarantees: at most `MaxIterations`
      passes, each of which strictly shortens the text (so the cap can only be
      reached on a text at least that long); the result is a subsequence of the
      input in its original case; a loop that ends because no `<tag` is found
      leaves none, and one that ends on an unclosed start tag stops at a `<tag`
      with neither `</tag>` nor `>` after it. */
  lemma {:induction false} StripTagFacts(content: Bytes, tag: Bytes, done: nat)
    requires done <= MaxIterations
    decreases MaxIterations - done
    ensures var r := StripTag(content, tag, done);
      done <= r.passes <= MaxIterations &&
      (r.stop == Capped <==> r.passes == MaxIterations) &&
      |r.text| + (r.passes - done) <= |content| &&
      ((r.passes == done) == (r.text == content)) &&
      IsSubseq(r.text, content) &&
      (r.stop == NotFound ==> Absent(Lower(r.text), OpenTag(tag))) &&
      (r.stop == Unclosed ==>
        var s := IndexOf(Lower(r.text), OpenTag(tag));
        0 <= s && '>' !in r.text[s..] && Absent(Lower(r.text)[s..], CloseTag(tag)))
  {
    if done == MaxIterations {
      SubseqRefl(content);
    } else {
      match Pass(content, tag)
      case Halted(why) =>
        SubseqRefl(content);
        HaltedFacts(content, tag);
      case Removed(rest) =>
        StripTagFacts(rest, tag, done + 1);
        PassIsSubseq(content, tag);
        SubseqTrans(StripTag(rest, tag, done + 1).text, rest, content);
    }
  }

  /** A pass that removes a span hands the rest of the loop the shorter text. */
  lemma StripTagStep(content: Bytes, tag: Bytes, done: nat, next: Bytes)
    requires done < MaxIterations && Pass(content, tag) == Removed(next)
    ensures StripTag(content, tag, done) == StripTag(next, tag, done + 1)
  {
  }

  /** A loop that breaks out leaves the text as it is. */
  lemma StripTagHalts(content: Bytes, tag: Bytes, done: nat)
    requires done <= MaxIterations
    requires done == MaxIterations || Pass(content, tag).Halted?
    ensures StripTag(content, tag, done).text == content
  {
  }

  /** `removeTags`' result: the tag names are stripped in list order, each from
      what the previous ones left. */
  function StripEach(html: Bytes, tags: seq<Bytes>): (r: Bytes)
    decreases |tags|
    ensures |r| <= |html|
    ensures IsSubseq(r, html)
  {
    if tags == [] then
      SubseqRefl(html);
      html
    else
      var prev := StripEach(html, tags[..|tags| - 1]);
      var r := StripTag(prev, tags[|tags| - 1], 0).text;
      StripTagFacts(prev, tags[|tags| - 1], 0);
      SubseqTrans(r, prev, html);
      r
  }

  /** `removeTags`: for each tag name, remove `<tag …</tag>` spans until none is
      left, a start tag has nothing to close it, or the cap is reached. */
  method RemoveTags(html: Bytes, tagsToRemove: seq<Bytes>) returns (content: Bytes)
    ensures content == StripEach(html, tagsToRemove)
  {
    content := html;
    for t := 0 to |tagsToRemove|
      invariant content == StripEach(html, tagsToRemove[..t])
    {
      content := RemoveTag(content, tagsToRemove[t]);
      assert tagsToRemove[..t + 1][..t] == tagsToRemove[..t];
    }
    assert tagsToRemove[..|tagsToRemove|] == tagsToRemove;
  }

  /** The body of `removeTags`' outer loop: the capped removal loop for one tag name. */
  method RemoveTag(html: Bytes, tag: Bytes) returns (content: Bytes)
    ensures content == StripTag(html, tag, 0).text
  {
    content := html;
    var lowerContent := Lower(content);
    var iteration := 0;
    while true
      invariant 0 <= iteration <= MaxIterations
      invariant lowerContent == Lower(content)
      invariant StripTag(content, tag, iteration) == StripTag(html, tag, 0)
      decreases MaxIterations - iteration
    {
      iteration := iteration + 1;
      if iteration > MaxIterations {
        StripTagHalts(content, tag, iteration - 1);
        break;
      }
      var pass := RemoveOnce(content, lowerContent, tag);
      if pass.Halted? {
        StripTagHalts(content, tag, iteration - 1);
        break;
      }
      var next := pass.rest;
      StripTagStep(content, tag, iteration - 1, next);
      content := next;
      lowerContent := Lower(content);
    }
  }

  /** One round of the removal loop on `content` and its lower-cased copy:
      the searches for `<tag`, then `</tag>` or, failing that, `>`, and the
      text with the span cut out, or why the loop breaks out. */
  method RemoveOnce(content: Bytes, lowerContent: Bytes, tag: Bytes) returns (r: PassResult)
    requires lowerContent == Lower(content)
    ensures r == Pass(content, tag)
  {
    var startTag: Bytes := "<" + tag;
    var endTag: Bytes := "</" + tag + ">";
    assert startTag == OpenTag(tag) && endTag == CloseTag(tag);
    var startIdx := IndexOf(lowerContent, startTag);
    if startIdx == -1 {
      return Halted(NotFound);
    }
    var endIdx := IndexOf(lowerContent[startIdx..], endTag);
    if endIdx == -1 {
      var tagEnd := IndexOf(content[startIdx..], ">");
      if tagEnd == -1 {
        return Halted(Unclosed);
      }
      r := Removed(content[..startIdx] + content[startIdx + tagEnd + 1..]);
    } else {
      r := Removed(content[..startIdx] + content[startIdx + endIdx + |endTag|..]);
    }
  }
}
