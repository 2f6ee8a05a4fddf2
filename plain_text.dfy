/** The whole-page fallback used when no block survives: every `<…>` is cut
    out of the page, and the lines with at least ten runes, trimmed, are joined
    with blank lines (`extractPlainText` in backend/internal/services/parser.go).

    The cut searches for the first `>` in the whole text rather than after the
    first `<`. When a `>` comes before the first `<`, the cut keeps both and
    copies the bytes between them a second time, so the text grows by that gap
    and the gap itself doubles on every round. The source's loop then never
    returns: it spins in place when the gap is empty (`><`), and otherwise
    grows the text until the process runs out of memory. The model reports
    that outcome as `Hangs`. */
module PlainText {
  import opened Text

  const Newline: Bytes := "\n"
  const BlankLine: Bytes := "\n\n"

  /** A line is kept when `strings.Count(line, "")` exceeds this. */
  const MinLineCount: nat := 10

  /** How the tag-cutting loop ends: with the text left, or never. */
  datatype Outcome = Done(text: Bytes) | Hangs

  /** The loop cannot make progress: the first `>` is before the first `<`. */
  predicate Stuck(content: Bytes)
  {
    var start := IndexOf(content, "<");
    var end := IndexOf(content, ">");
    start != -1 && end != -1 && end < start
  }

  /** One cut, as Go's slicing computes it for either order of the two
      positions: everything before the first `<` and everything after the
      first `>`. */
  function Cut(content: Bytes): (r: Bytes)
    requires IndexOf(content, "<") != -1 && IndexOf(content, ">") != -1
  {
    content[..IndexOf(content, "<")] + content[IndexOf(content, ">") + 1..]
  }

  /** The first loop of `extractPlainText`. */
  function StripAll(content: Bytes): Outcome
    decreases |content|
  {
    var start := IndexOf(content, "<");
    if start == -1 then Done(content)
    else
      var end := IndexOf(content, ">");
      if end == -1 then Done(content)
      else if end < start then Hangs
      else StripAll(Cut(content))
  }

  /** `strings.Count(s, "")`: one more than the number of runes. */
  function CountEmpty(s: Bytes): nat
  {
    RuneCount(s) + 1
  }

  /** What the second loop makes of one line: trimmed, and kept when it
      holds at least ten runes. */
  function CleanLine(line: Bytes): seq<Bytes>
  {
    var t := TrimSpace(line);
    if CountEmpty(t) > MinLineCount then [t] else []
  }

  /** The kept lines, in order. */
  function CleanLines(lines: seq<Bytes>): seq<Bytes>
    decreases |lines|
  {
    if lines == [] then [] else CleanLines(lines[..|lines| - 1]) + CleanLine(lines[|lines| - 1])
  }

  /** `extractPlainText`'s result, or `None` where the source does not return. */
  function PlainTextOf(html: Bytes): Option<Bytes>
  {
    match StripAll(html)
    case Hangs => None
    case Done(content) => Some(Join(CleanLines(Split(content, Newline)), BlankLine))
  }

  // ---------------------------------------------------------------------------
  // The tag-cutting loop
  // ---------------------------------------------------------------------------

  /** Once stuck, the loop stays stuck: a cut with the `>` first leaves the
      first `>` where it was, moves the first `<` no earlier, and lengthens
      the text by the bytes strictly between the two. So the source's loop
      never returns: it spins in place on `><` and otherwise grows the text
      without bound. */
  lemma StuckPersists(content: Bytes)
    requires Stuck(content)
    ensures Stuck(Cut(content))
    ensures |Cut(content)| ==
      |content| + (IndexOf(content, "<") - IndexOf(content, ">") - 1)
    ensures |Cut(content)| >= |content|
    ensures IndexOf(Cut(content), "<") - IndexOf(Cut(content), ">") - 1 ==
      2 * (IndexOf(content, "<") - IndexOf(content, ">") - 1)
  {
    var start := IndexOf(content, "<");
    var end := IndexOf(content, ">");
    IndexOfByte(content, '<');
    IndexOfByte(content, '>');
    var next := Cut(content);
    var moved := start + (start - end - 1);
    forall j | 0 <= j < moved ensures next[j] != '<' {
      if j < start {
        assert next[j] == content[..start][j];
      } else {
        assert next[j] == content[end + 1 + (j - start)];
      }
    }
    forall j | 0 <= j < end ensures next[j] != '>' {
      assert next[j] == content[..end][j] == content[j];
    }
    assert next[end] == content[end];
    FirstByteIs(next, '>', end);
    assert next[moved] == content[start];
    FirstByteIs(next, '<', moved);
  }

  /** A cut with the `<` first deletes the span from it to the `>`, so the
      text shrinks and keeps a subsequence. */
  lemma CutShrinks(content: Bytes)
    requires IndexOf(content, "<") != -1 && IndexOf(content, ">") != -1
    requires IndexOf(content, "<") <= IndexOf(content, ">")
    ensures |Cut(content)| < |content|
    ensures IsSubseq(Cut(content), content)
  {
    CutIsSubseq(content, IndexOf(content, "<"), IndexOf(content, ">") + 1);
  }

  /** When the loop ends, the text holds no `<` or no `>`, and is a
      subsequence of the page. */
  lemma {:induction false} StripAllDone(content: Bytes)
    requires StripAll(content).Done?
    decreases |content|
    ensures '<' !in StripAll(content).text || '>' !in StripAll(content).text
    ensures IsSubseq(StripAll(content).text, content)
  {
    var start := IndexOf(content, "<");
    var end := IndexOf(content, ">");
    IndexOfByte(content, '<');
    IndexOfByte(content, '>');
    if start == -1 || end == -1 {
      SubseqRefl(content);
    } else {
      CutShrinks(content);
      StripAllDone(Cut(content));
      SubseqTrans(StripAll(Cut(content)).text, Cut(content), content);
    }
  }

  /** A page that is stuck from the start never yields text, and a page
      without a `<` or without a `>` is left as it is. */
  lemma StripAllEnds(content: Bytes)
    ensures Stuck(content) ==> StripAll(content) == Hangs
    ensures '<' !in content || '>' !in content ==> StripAll(content) == Done(content)
  {
    IndexOfByte(content, '<');
    IndexOfByte(content, '>');
  }

  // ---------------------------------------------------------------------------
  // The line cleanup
  // ---------------------------------------------------------------------------

  /** Every kept line is the trimmed form of an input line, has at least ten
      runes and holds no newline when the input lines hold none. */
  lemma {:induction false} CleanLinesSound(lines: seq<Bytes>, v: Bytes)
    requires v in CleanLines(lines)
    decreases |lines|
    ensures RuneCount(v) >= MinLineCount && Trimmed(v)
    ensures exists k | 0 <= k < |lines| :: v == TrimSpace(lines[k])
  {
    var n := |lines| - 1;
    if v in CleanLines(lines[..n]) {
      CleanLinesSound(lines[..n], v);
      var k :| 0 <= k < n && v == TrimSpace(lines[..n][k]);
      assert lines[..n][k] == lines[k];
    } else {
      assert v == TrimSpace(lines[n]);
    }
  }

  /** Every input line whose trimmed form has at least ten runes is kept. */
  lemma {:induction false} CleanLinesComplete(lines: seq<Bytes>, k: nat)
    requires k < |lines| && RuneCount(TrimSpace(lines[k])) >= MinLineCount
    decreases |lines|
    ensures TrimSpace(lines[k]) in CleanLines(lines)
  {
    var n := |lines| - 1;
    if k < n {
      assert lines[..n][k] == lines[k];
      CleanLinesComplete(lines[..n], k);
    }
  }

  /** Cleaning works line by line and keeps the order. */
  lemma {:induction false} CleanLinesAppend(a: seq<Bytes>, b: seq<Bytes>)
    decreases |b|
    ensures CleanLines(a + b) == CleanLines(a) + CleanLines(b)
  {
    if b == [] {
      assert a + b == a;
    } else {
      var n := |b| - 1;
      assert (a + b)[..|a + b| - 1] == a + b[..n];
      assert (a + b)[|a + b| - 1] == b[n];
      CleanLinesAppend(a, b[..n]);
    }
  }

  /** The result splits back, on blank lines, into exactly the kept lines:
      no kept line holds a newline, since each comes from one line of the
      split. */
  lemma PlainTextSplits(html: Bytes)
    requires StripAll(html).Done?
    requires CleanLines(Split(StripAll(html).text, Newline)) != []
    ensures PlainTextOf(html).Some?
    ensures Split(PlainTextOf(html).value, BlankLine) ==
      CleanLines(Split(StripAll(html).text, Newline))
  {
    var lines := Split(StripAll(html).text, Newline);
    var kept := CleanLines(lines);
    SplitPartsFree(StripAll(html).text, '\n');
    forall v | v in kept ensures '\n' !in v {
      CleanLinesSound(lines, v);
      var k :| 0 <= k < |lines| && v == TrimSpace(lines[k]);
      assert lines[k] in lines;
      TrimSpaceWithin(lines[k]);
    }
    SplitJoin(kept, BlankLine);
  }

  // ---------------------------------------------------------------------------
  // The method
  // ---------------------------------------------------------------------------

  /** `extractPlainText`. Where the source's first loop would never return
      (`StuckPersists`), this returns `None`. */
  method ExtractPlainText(html: Bytes) returns (r: Option<Bytes>)
    ensures r == PlainTextOf(html)
  {
    var content := html;
    while true
      invariant StripAll(content) == StripAll(html)
      decreases |content|
    {
      var start := IndexOf(content, "<");
      if start == -1 {
        break;
      }
      var end := IndexOf(content, ">");
      if end == -1 {
        break;
      }
      if end < start {
        return None;
      }
      CutShrinks(content);
      content := content[..start] + content[end + 1..];
    }
    var lines := Split(content, Newline);
    var cleanLines: seq<Bytes> := [];
    for k := 0 to |lines|
      invariant cleanLines == CleanLines(lines[..k])
    {
      var line := TrimSpace(lines[k]);
      if CountEmpty(line) > MinLineCount {
        cleanLines := cleanLines + [line];
      }
      assert lines[..k + 1][..k] == lines[..k];
    }
    assert lines[..|lines|] == lines;
    return Some(Join(cleanLines, BlankLine));
  }
}
