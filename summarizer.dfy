/** The digest builder: a bracketed title line, the description when there is
    one, up to three bullets taken from the content's lines and a closing note,
    joined with newlines (`summarizeContent`, `truncateString` and `min` in
    backend/internal/services/parser.go). */
module Summarizer {
  import opened Text

  const Newline: Bytes := "\n"

  /** Lines shorter than this many bytes are skipped. */
  const MinLineLength: nat := 10
  /** The collection loop stops once it holds this many lines. */
  const MaxKeyParagraphs: nat := 5
  /** Lines collected whatever their content, and bullets shown. */
  const MaxBullets: nat := 3
  /** Bytes of a line kept in its bullet. */
  const BulletLength: nat := 150

  /** The keywords the collection loop looks for. */
  const KeywordText: seq<string> :=
    ["重要", "关键", "注意", "总结", "结论", "因此", "所以", "首先", "其次", "最后"]
  const KeyPointsText: string := "【关键要点】"
  const FooterText: string := "（此内容为自动生成的总结，详细信息请查看原文）"
  const BulletText: string := "• "
  const OpenBracketText: string := "【"
  const CloseBracketText: string := "】"

  /** The same strings as the bytes of their UTF-8 encoding. */
  const Keywords: seq<Bytes> := Utf8Each(KeywordText)
  const KeyHeader: Bytes := Newline + Utf8(KeyPointsText)
  const Footer: Bytes := Newline + Utf8(FooterText)
  const BulletMark: Bytes := Utf8(BulletText)
  const OpenBracket: Bytes := Utf8(OpenBracketText)
  const CloseBracket: Bytes := Utf8(CloseBracketText)

  // ---------------------------------------------------------------------------
  // Helpers
  // ---------------------------------------------------------------------------

  function Utf8Each(ss: seq<string>): (r: seq<Bytes>)
    ensures |r| == |ss|
  {
    if ss == [] then [] else [Utf8(ss[0])] + Utf8Each(ss[1..])
  }

  /** `min`. */
  function Min(a: int, b: int): (r: int)
    ensures r <= a && r <= b
    ensures r == a || r == b
  {
    if a < b then a else b
  }

  /** `truncateString`: the first `maxLen` bytes of `s`, or all of it. A
      negative length, on which the source panics, is excluded by the type. */
  function TruncateString(s: Bytes, maxLen: nat): (r: Bytes)
    ensures |r| == Min(|s|, maxLen)
    ensures r == s[..|r|]
  {
    Prefix(s, maxLen)
  }

  /** The first `n` elements of `s`, or all of them. */
  function Prefix<T>(s: seq<T>, n: nat): (r: seq<T>)
    ensures |r| == Min(|s|, n)
    ensures r == s[..|r|]
  {
    if |s| <= n then s else s[..n]
  }

  function TitleLine(title: Bytes): Bytes
  {
    OpenBracket + title + CloseBracket
  }

  function Bullet(para: Bytes): Bytes
  {
    BulletMark + TruncateString(para, BulletLength)
  }

  function Bullets(paras: seq<Bytes>): (r: seq<Bytes>)
    ensures |r| == |paras|
  {
    seq(|paras|, i requires 0 <= i < |paras| => Bullet(paras[i]))
  }

  // ---------------------------------------------------------------------------
  // The collection loop
  // ---------------------------------------------------------------------------

  /** The lower-cased line contains one of the lower-cased keywords. */
  predicate HasKeyword(lineLower: Bytes, keywords: seq<Bytes>)
  {
    exists k | 0 <= k < |keywords| :: IndexOf(lineLower, Lower(keywords[k])) != -1
  }

  /** The key-paragraph loop from line `lines[0]` on, with `acc` collected so
      far: lines under ten bytes are skipped; a line is taken when it holds a
      keyword or fewer than three are held; the loop stops at five. */
  function Collect(lines: seq<Bytes>, acc: seq<Bytes>, keywords: seq<Bytes>): seq<Bytes>
    decreases |lines|
  {
    if lines == [] then acc
    else
      var line := TrimSpace(lines[0]);
      if |line| < MinLineLength then Collect(lines[1..], acc, keywords)
      else if HasKeyword(Lower(line), keywords) || |acc| < MaxBullets then
        var next := acc + [line];
        if |next| >= MaxKeyParagraphs then next else Collect(lines[1..], next, keywords)
      else Collect(lines[1..], acc, keywords)
  }

  /** The lines of the content the digest can draw from: every line,
      trimmed, that has at least ten bytes, in order. */
  function LongLines(lines: seq<Bytes>): seq<Bytes>
    decreases |lines|
  {
    if lines == [] then []
    else
      var line := TrimSpace(lines[0]);
      (if |line| < MinLineLength then [] else [line]) + LongLines(lines[1..])
  }

  // ---------------------------------------------------------------------------
  // The digest
  // ---------------------------------------------------------------------------

  /** The parts `summarizeContent` joins, given the collected key paragraphs:
      the title line, the description when non-empty, the key points when
      there are any, and the closing note. */
  function Parts(title: Bytes, metaDesc: Bytes, key: seq<Bytes>): seq<Bytes>
  {
    Head(title, metaDesc) + KeyPoints(key) + [Footer]
  }

  function Head(title: Bytes, metaDesc: Bytes): seq<Bytes>
  {
    if metaDesc != [] then [TitleLine(title), metaDesc] else [TitleLine(title)]
  }

  /** The key-point header and a bullet for each of the first three key
      paragraphs, or nothing when there are none. */
  function KeyPoints(key: seq<Bytes>): seq<Bytes>
  {
    if |key| > 0 then [KeyHeader] + Bullets(Prefix(key, MaxBullets)) else []
  }

  /** `summarizeContent`'s result. */
  function Summary(title: Bytes, metaDesc: Bytes, content: Bytes): Bytes
  {
    Join(Parts(title, metaDesc, Collect(Split(content, Newline), [], Keywords)), Newline)
  }

  // ---------------------------------------------------------------------------
  // Properties
  // ---------------------------------------------------------------------------

  /** The loop only ever appends to what it has collected. */
  lemma {:induction false} CollectExtends(lines: seq<Bytes>, acc: seq<Bytes>, keywords: seq<Bytes>)
    decreases |lines|
    ensures |Collect(lines, acc, keywords)| >= |acc|
    ensures Collect(lines, acc, keywords)[..|acc|] == acc
  {
    if lines != [] {
      var line := TrimSpace(lines[0]);
      if |line| < MinLineLength {
        CollectExtends(lines[1..], acc, keywords);
      } else if HasKeyword(Lower(line), keywords) || |acc| < MaxBullets {
        var next := acc + [line];
        if |next| < MaxKeyParagraphs {
          CollectExtends(lines[1..], next, keywords);
          var r := Collect(lines[1..], next, keywords);
          assert r[..|acc|] == r[..|next|][..|acc|];
        }
      } else {
        CollectExtends(lines[1..], acc, keywords);
      }
    }
  }

  /** The first three collected lines are the first three long lines, whatever
      the keywords: until three lines are held every long line is taken. */
  lemma {:induction false} CollectFirstThree(lines: seq<Bytes>, acc: seq<Bytes>, keywords: seq<Bytes>)
    requires |acc| < MaxBullets
    decreases |lines|
    ensures Prefix(Collect(lines, acc, keywords), MaxBullets) == Prefix(acc + LongLines(lines), MaxBullets)
  {
    if lines == [] {
      assert acc + LongLines(lines) == acc;
    } else {
      var line := TrimSpace(lines[0]);
      var rest := LongLines(lines[1..]);
      if |line| < MinLineLength {
        LongLinesSkip(lines);
        CollectFirstThree(lines[1..], acc, keywords);
      } else {
        var next := acc + [line];
        CollectTakes(lines, acc, keywords);
        LongLinesTake(lines);
        AppendAssoc(acc, [line], rest);
        if |next| < MaxBullets {
          CollectFirstThree(lines[1..], next, keywords);
        } else {
          CollectExtends(lines[1..], next, keywords);
          PrefixPast(Collect(lines[1..], next, keywords), next, rest);
        }
      }
    }
  }

  /** A short line is not a long line, */
  lemma LongLinesSkip(lines: seq<Bytes>)
    requires lines != [] && |TrimSpace(lines[0])| < MinLineLength
    ensures LongLines(lines) == LongLines(lines[1..])
  {
    assert [] + LongLines(lines[1..]) == LongLines(lines[1..]);
  }

  /** and a long one comes first among them. */
  lemma LongLinesTake(lines: seq<Bytes>)
    requires lines != [] && |TrimSpace(lines[0])| >= MinLineLength
    ensures LongLines(lines) == [TrimSpace(lines[0])] + LongLines(lines[1..])
  {
  }

  /** While fewer than three lines are held, a long line is always taken. */
  lemma CollectTakes(lines: seq<Bytes>, acc: seq<Bytes>, keywords: seq<Bytes>)
    requires lines != [] && |acc| < MaxBullets && |TrimSpace(lines[0])| >= MinLineLength
    ensures Collect(lines, acc, keywords) == Collect(lines[1..], acc + [TrimSpace(lines[0])], keywords)
  {
  }

  /** Two sequences that both start with the same three elements agree on
      their first three. */
  lemma PrefixPast<T>(r: seq<T>, next: seq<T>, rest: seq<T>)
    requires |next| == MaxBullets && |r| >= |next| && r[..|next|] == next
    ensures Prefix(r, MaxBullets) == Prefix(next + rest, MaxBullets)
  {
    assert (next + rest)[..MaxBullets] == next;
  }

  /** The keyword list never changes the digest: it is the same as one built
      from the first three long lines of the content. */
  lemma SummaryIgnoresKeywords(title: Bytes, metaDesc: Bytes, content: Bytes)
    ensures Summary(title, metaDesc, content) ==
      Join(Parts(title, metaDesc, Prefix(LongLines(Split(content, Newline)), MaxBullets)), Newline)
  {
    var lines := Split(content, Newline);
    var key := Collect(lines, [], Keywords);
    CollectFirstThree(lines, [], Keywords);
    assert [] + LongLines(lines) == LongLines(lines);
    var ref := Prefix(LongLines(lines), MaxBullets);
    assert Prefix(key, MaxBullets) == ref;
    assert |key| > 0 <==> |ref| > 0;
    assert Prefix(ref, MaxBullets) == ref;
  }

  /** Every long line is a trimmed line of the content with at least ten
      bytes, and every such line is among them. */
  lemma {:induction false} LongLinesSpec(lines: seq<Bytes>)
    decreases |lines|
    ensures forall v | v in LongLines(lines) ::
      |v| >= MinLineLength && exists k | 0 <= k < |lines| :: v == TrimSpace(lines[k])
    ensures forall k | 0 <= k < |lines| && |TrimSpace(lines[k])| >= MinLineLength ::
      TrimSpace(lines[k]) in LongLines(lines)
  {
    if lines != [] {
      LongLinesSpec(lines[1..]);
      forall v | v in LongLines(lines)
        ensures |v| >= MinLineLength && exists k | 0 <= k < |lines| :: v == TrimSpace(lines[k])
      {
        if v in LongLines(lines[1..]) {
          var k :| 0 <= k < |lines[1..]| && v == TrimSpace(lines[1..][k]);
          assert lines[1..][k] == lines[k + 1];
        } else {
          assert v == TrimSpace(lines[0]);
        }
      }
      forall k | 0 <= k < |lines| && |TrimSpace(lines[k])| >= MinLineLength
        ensures TrimSpace(lines[k]) in LongLines(lines)
      {
        if k > 0 {
          assert lines[1..][k - 1] == lines[k];
        }
      }
    }
  }

  /** Joining puts the first part at the front and the last part at the end. */
  lemma {:induction false} JoinEnds(parts: seq<Bytes>, sep: Bytes)
    requires |parts| >= 1
    decreases |parts|
    ensures |Join(parts, sep)| >= |parts[0]| && |Join(parts, sep)| >= |parts[|parts| - 1]|
    ensures Join(parts, sep)[..|parts[0]|] == parts[0]
    ensures Join(parts, sep)[|Join(parts, sep)| - |parts[|parts| - 1]|..] == parts[|parts| - 1]
  {
    if |parts| > 1 {
      JoinEnds(parts[1..], sep);
      var rest := Join(parts[1..], sep);
      assert Join(parts, sep) == parts[0] + sep + rest;
      assert (parts[0] + sep + rest)[..|parts[0]|] == parts[0];
      assert (parts[0] + sep + rest)[|parts[0] + sep + rest| - |parts[|parts| - 1]|..] ==
        rest[|rest| - |parts[1..][|parts[1..]| - 1]|..];
    }
  }

  /** The layout of the parts for any key paragraphs: the title line first
      and the closing note last; the description second exactly when it is
      non-empty; then, when there are key paragraphs, the key-point header and
      one bullet for each of the first three, each the bullet mark followed by
      at most 150 bytes of its paragraph. */
  lemma PartsShape(title: Bytes, metaDesc: Bytes, key: seq<Bytes>)
    ensures var parts := Parts(title, metaDesc, key);
      var head := Head(title, metaDesc);
      var shown := Prefix(key, MaxBullets);
      |head| == (if metaDesc != [] then 2 else 1) &&
      |parts| == |head| + (if key != [] then 1 + |shown| else 0) + 1 &&
      parts[0] == TitleLine(title) &&
      parts[|parts| - 1] == Footer &&
      (metaDesc != [] <==> parts[1] == metaDesc && |parts| >= 3) &&
      (key != [] ==> parts[|head|] == KeyHeader) &&
      forall i | 0 <= i < |shown| ::
        parts[|head| + 1 + i] == BulletMark + TruncateString(shown[i], BulletLength) &&
        |parts[|head| + 1 + i]| <= |BulletMark| + BulletLength
  {
    var parts := Parts(title, metaDesc, key);
    var head := Head(title, metaDesc);
    assert |KeyHeader| > 0 && |Footer| > 0;
    if metaDesc == [] {
      assert parts[1] != [];
    }
  }

  /** Key points appear exactly when some trimmed line of the content has at
      least ten bytes, whatever the keywords. */
  lemma KeyPointsPresent(lines: seq<Bytes>, keywords: seq<Bytes>)
    ensures Collect(lines, [], keywords) != [] <==>
      exists k | 0 <= k < |lines| :: |TrimSpace(lines[k])| >= MinLineLength
  {
    CollectFirstThree(lines, [], keywords);
    assert [] + LongLines(lines) == LongLines(lines);
    LongLinesSpec(lines);
    if LongLines(lines) != [] {
      assert LongLines(lines)[0] in LongLines(lines);
    }
  }

  /** The digest text opens with the bracketed title and closes with the
      fixed note. */
  lemma SummaryEnds(title: Bytes, metaDesc: Bytes, content: Bytes)
    ensures var s := Summary(title, metaDesc, content);
      |s| >= |TitleLine(title)| && |s| >= |Footer| &&
      s[..|TitleLine(title)|] == TitleLine(title) &&
      s[|s| - |Footer|..] == Footer
  {
    var parts := Parts(title, metaDesc, Collect(Split(content, Newline), [], Keywords));
    PartsShape(title, metaDesc, Collect(Split(content, Newline), [], Keywords));
    JoinEnds(parts, Newline);
  }

  /** The digest opens with the title line and a newline, followed, when the
      page has a description, by the description and another newline. */
  lemma SummaryStarts(title: Bytes, metaDesc: Bytes, content: Bytes)
    ensures var s := Summary(title, metaDesc, content);
      var lead := TitleLine(title) + Newline + (if metaDesc != [] then metaDesc + Newline else []);
      |lead| <= |s| && s[..|lead|] == lead
  {
    var key := Collect(Split(content, Newline), [], Keywords);
    var tail := KeyPoints(key) + [Footer];
    var parts := Parts(title, metaDesc, key);
    AppendAssoc(Head(title, metaDesc), KeyPoints(key), [Footer]);
    assert parts == Head(title, metaDesc) + tail;
    JoinedHead(title, metaDesc, tail);
    var lead := TitleLine(title) + Newline + (if metaDesc != [] then metaDesc + Newline else []);
    assert Join(parts, Newline) == lead + Join(tail, Newline);
  }

  /** Joining the head parts in front of further parts starts the text with
      the title line and, when there is one, the description, each followed by
      a newline. */
  lemma JoinedHead(title: Bytes, metaDesc: Bytes, tail: seq<Bytes>)
    requires tail != []
    ensures var lead := TitleLine(title) + Newline + (if metaDesc != [] then metaDesc + Newline else []);
      Join(Head(title, metaDesc) + tail, Newline) == lead + Join(tail, Newline)
  {
    var line := TitleLine(title);
    var rest := Join(tail, Newline);
    if metaDesc != [] {
      assert Head(title, metaDesc) + tail == [line] + ([metaDesc] + tail);
      JoinCons(line, [metaDesc] + tail, Newline);
      JoinCons(metaDesc, tail, Newline);
      AppendAssoc(line + Newline, metaDesc + Newline, rest);
    } else {
      assert Head(title, metaDesc) + tail == [line] + tail;
      JoinCons(line, tail, Newline);
    }
  }

  // ---------------------------------------------------------------------------
  // The methods
  // ---------------------------------------------------------------------------

  /** The keyword test of the collection loop. */
  method ContainsKeyword(lineLower: Bytes, keywords: seq<Bytes>) returns (containsKeyword: bool)
    ensures containsKeyword == HasKeyword(lineLower, keywords)
  {
    containsKeyword := false;
    for k := 0 to |keywords|
      invariant !containsKeyword
      invariant forall j | 0 <= j < k :: IndexOf(lineLower, Lower(keywords[j])) == -1
    {
      if IndexOf(lineLower, Lower(keywords[k])) != -1 {
        containsKeyword := true;
        break;
      }
    }
  }

  /** The key-paragraph loop of `summarizeContent`. */
  method CollectKeyParagraphs(lines: seq<Bytes>, keywords: seq<Bytes>) returns (keyParagraphs: seq<Bytes>)
    ensures keyParagraphs == Collect(lines, [], keywords)
  {
    keyParagraphs := [];
    var i := 0;
    while i < |lines|
      invariant 0 <= i <= |lines|
      invariant Collect(lines[i..], keyParagraphs, keywords) == Collect(lines, [], keywords)
    {
      assert lines[i..][0] == lines[i] && lines[i..][1..] == lines[i + 1..];
      var line := TrimSpace(lines[i]);
      if |line| < MinLineLength {
        i := i + 1;
        continue;
      }
      var containsKeyword := ContainsKeyword(Lower(line), keywords);
      if containsKeyword || |keyParagraphs| < MaxBullets {
        keyParagraphs := keyParagraphs + [line];
        if |keyParagraphs| >= MaxKeyParagraphs {
          return;
        }
      }
      i := i + 1;
    }
  }

  /** `summarizeContent`. */
  method SummarizeContent(title: Bytes, metaDesc: Bytes, content: Bytes) returns (summary: Bytes)
    ensures summary == Summary(title, metaDesc, content)
  {
    var lines := Split(content, Newline);
    var summaryParts := SummaryParts(title, metaDesc, lines);
    summary := Join(summaryParts, Newline);
  }

  /** The parts `summarizeContent` builds before joining them. */
  method SummaryParts(title: Bytes, metaDesc: Bytes, lines: seq<Bytes>) returns (summaryParts: seq<Bytes>)
    ensures summaryParts == Parts(title, metaDesc, Collect(lines, [], Keywords))
  {
    summaryParts := [TitleLine(title)];
    if metaDesc != [] {
      summaryParts := summaryParts + [metaDesc];
    }
    assert summaryParts == Head(title, metaDesc);
    var keyParagraphs := CollectKeyParagraphs(lines, Keywords);
    summaryParts := AppendKeyPoints(summaryParts, keyParagraphs);
    summaryParts := summaryParts + [Footer];
  }

  /** The key-point section of `summarizeContent`: the header and the bullets,
      when there are key paragraphs. */
  method AppendKeyPoints(before: seq<Bytes>, keyParagraphs: seq<Bytes>) returns (summaryParts: seq<Bytes>)
    ensures summaryParts == before + KeyPoints(keyParagraphs)
  {
    summaryParts := before;
    if |keyParagraphs| > 0 {
      summaryParts := summaryParts + [KeyHeader];
      summaryParts := AppendBullets(summaryParts, keyParagraphs);
      AppendAssoc(before, [KeyHeader], Bullets(Prefix(keyParagraphs, MaxBullets)));
    } else {
      assert before + [] == before;
    }
  }

  /** The bullet loop of `summarizeContent`: one bullet for each of the first
      three key paragraphs. */
  method AppendBullets(before: seq<Bytes>, keyParagraphs: seq<Bytes>) returns (summaryParts: seq<Bytes>)
    ensures summaryParts == before + Bullets(Prefix(keyParagraphs, MaxBullets))
  {
    summaryParts := before;
    var i := 0;
    while i < |keyParagraphs|
      invariant 0 <= i <= |keyParagraphs| && i <= MaxBullets
      invariant summaryParts == before + Bullets(keyParagraphs[..i])
    {
      if i >= MaxBullets {
        break;
      }
      summaryParts := summaryParts + [Bullet(keyParagraphs[i])];
      assert Bullets(keyParagraphs[..i + 1]) == Bullets(keyParagraphs[..i]) + [Bullet(keyParagraphs[i])];
      i := i + 1;
    }
    assert keyParagraphs[..i] == Prefix(keyParagraphs, MaxBullets);
  }
}
