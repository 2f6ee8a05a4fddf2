/** The field extractor: the page title, the meta description and a named meta
    property, each found by plain substring search (`extractTitle`,
    `extractMetaDescription`, `extractMetaProperty` in
    backend/internal/services/parser.go). None of them fails: a miss gives the
    sentinel title or the empty string. */
module Fields {
  import opened Text

  /** The title used when the page has no usable `<title>` element. */
  const NoTitle: Bytes := Utf8("无标题")

  const OgTitle: Bytes := "og:title"
  const TitleOpen: Bytes := "<title"
  const TitleClose: Bytes := "</title>"

  // ---------------------------------------------------------------------------
  // Title
  // ---------------------------------------------------------------------------

  /** The cleanup applied to the raw title text: newlines and tabs become
      spaces, carriage returns are deleted, and the ends are trimmed. */
  function CleanTitle(raw: Bytes): (t: Bytes)
    ensures t == TrimSpace(TitleBytes(raw))
    ensures Trimmed(t)
    ensures '\n' !in t && '\r' !in t && '\t' !in t
  {
    var a := ReplaceAll(raw, "\n", " ");
    var b := ReplaceAll(a, "\r", "");
    var c := ReplaceAll(b, "\t", " ");
    ReplaceByte(raw, '\n', " ");
    ReplaceByte(a, '\r', "");
    ReplaceByte(b, '\t', " ");
    TrimSpaceWithin(c);
    TitleReplaces(raw);
    TrimSpace(c)
  }

  /** What the cleanup makes of one byte of the title. */
  function TitleByte(b: Byte): Bytes
  {
    if b == '\n' || b == '\t' then " " else if b == '\r' then [] else [b]
  }

  /** The title with each byte cleaned on its own, in order. */
  function TitleBytes(raw: Bytes): Bytes
  {
    Concat(seq(|raw|, i requires 0 <= i < |raw| => TitleByte(raw[i])))
  }

  /** The three replacements, one after another, clean the title byte by
      byte. */
  lemma {:induction false} TitleReplaces(raw: Bytes)
    decreases |raw|
    ensures ReplaceAll(ReplaceAll(ReplaceAll(raw, "\n", " "), "\r", ""), "\t", " ") ==
      TitleBytes(raw)
  {
    if raw != [] {
      var rest := raw[1..];
      assert raw == [raw[0]] + rest;
      TitleReplaces(rest);
      TitleReplacesByte(raw[0]);
      TitleReplacesSplit([raw[0]], rest);
      TitleBytesCons(raw);
    }
  }

  /** The three replacements work on the parts of a concatenation apart. */
  lemma TitleReplacesSplit(x: Bytes, rest: Bytes)
    ensures ReplaceAll(ReplaceAll(ReplaceAll(x + rest, "\n", " "), "\r", ""), "\t", " ") ==
      ReplaceAll(ReplaceAll(ReplaceAll(x, "\n", " "), "\r", ""), "\t", " ") +
      ReplaceAll(ReplaceAll(ReplaceAll(rest, "\n", " "), "\r", ""), "\t", " ")
  {
    ReplaceAppend(x, rest, '\n', " ");
    var a0 := ReplaceAll(x, "\n", " ");
    var a1 := ReplaceAll(rest, "\n", " ");
    ReplaceAppend(a0, a1, '\r', "");
    var b0 := ReplaceAll(a0, "\r", "");
    var b1 := ReplaceAll(a1, "\r", "");
    ReplaceAppend(b0, b1, '\t', " ");
  }

  lemma TitleBytesCons(raw: Bytes)
    requires raw != []
    ensures TitleBytes(raw) == TitleByte(raw[0]) + TitleBytes(raw[1..])
  {
    var rest := raw[1..];
    var pieces := seq(|raw|, i requires 0 <= i < |raw| => TitleByte(raw[i]));
    assert pieces[1..] == seq(|rest|, i requires 0 <= i < |rest| => TitleByte(rest[i]));
  }

  lemma TitleReplacesByte(x: Byte)
    ensures ReplaceAll(ReplaceAll(ReplaceAll([x], "\n", " "), "\r", ""), "\t", " ") ==
      TitleByte(x)
  {
    ReplaceOneByte([x], '\n', " ");
    var a := ReplaceAll([x], "\n", " ");
    ReplaceOneByte(a, '\r', "");
    var b := ReplaceAll(a, "\r", "");
    ReplaceOneByte(b, '\t', " ");
  }

  /** A title without line breaks or tabs is only trimmed. */
  lemma {:induction false} TitleBytesPlain(raw: Bytes)
    requires '\n' !in raw && '\r' !in raw && '\t' !in raw
    decreases |raw|
    ensures TitleBytes(raw) == raw
  {
    if raw != [] {
      TitleBytesPlain(raw[1..]);
      TitleBytesCons(raw);
      assert raw == [raw[0]] + raw[1..];
    }
  }

  /** Where `extractTitle` finds the title text: after the first `>` that
      follows the first case-insensitive `<title`, up to the first
      case-insensitive `</title>` from there. */
  function TitleSpan(html: Bytes): (r: Option<(int, int)>)
    ensures r.Some? ==> 0 <= r.value.0 <= r.value.1 <= |html|
  {
    var lowerHtml := Lower(html);
    var start := IndexOf(lowerHtml, TitleOpen);
    if start == -1 then None
    else
      var tagEnd := IndexOf(html[start..], ">");
      if tagEnd == -1 then None
      else
        var s := start + tagEnd + 1;
        var end := IndexOf(lowerHtml[s..], TitleClose);
        if end == -1 then None else Some((s, s + end))
  }

  /** `extractTitle`: the cleaned text of the first `<title …>…</title>`
      element (tags matched case-insensitively); when that text is shorter than
      two bytes the `og:title` meta property replaces it, if that is non-empty.
      Any missing piece of the element gives `NoTitle`. */
  function ExtractTitle(html: Bytes): Bytes
  {
    match TitleSpan(html)
    case None => NoTitle
    case Some((s, e)) =>
      var title := CleanTitle(html[s..e]);
      if |title| == 0 || |title| < 2 then
        var ogTitle := ExtractMetaProperty(html, OgTitle);
        if ogTitle != [] then ogTitle else title
      else title
  }

  /** The title element, located as `extractTitle` locates it: `o` is the first
      case-insensitive `<title`, `s - 1` the first `>` after it, and `e` the
      first case-insensitive `</title>` at or after `s`. */
  ghost predicate TitleElement(html: Bytes, o: int, s: int, e: int)
  {
    FirstAt(Lower(html), TitleOpen, o) &&
    o < s <= |html| && FirstAt(html[o..], ">", s - 1 - o) &&
    s <= e <= |html| && FirstAt(Lower(html)[s..], TitleClose, e - s)
  }

  /** `TitleSpan` in terms of the three searches it makes. */
  lemma TitleSpanOf(html: Bytes, o: int, t: int, e: int)
    requires IndexOf(Lower(html), TitleOpen) == o
    requires o == -1 || IndexOf(html[o..], ">") == t
    requires o == -1 || t == -1 || IndexOf(Lower(html)[o + t + 1..], TitleClose) == e
    ensures TitleSpan(html) ==
      if o == -1 || t == -1 || e == -1 then None else Some((o + t + 1, o + t + 1 + e))
  {
  }

  /** `TitleSpan` finds nothing when some piece of the title element is
      missing, and finds the inner text of a complete element. */
  lemma TitleSpanSpec(html: Bytes, o: int, s: int, e: int)
    ensures Absent(Lower(html), TitleOpen) ==> TitleSpan(html) == None
    ensures (FirstAt(Lower(html), TitleOpen, o) && Absent(html[o..], ">")) ==>
      TitleSpan(html) == None
    ensures (FirstAt(Lower(html), TitleOpen, o) && o < s <= |html| &&
             FirstAt(html[o..], ">", s - 1 - o) && Absent(Lower(html)[s..], TitleClose)) ==>
      TitleSpan(html) == None
    ensures TitleElement(html, o, s, e) ==> TitleSpan(html) == Some((s, e))
  {
    if Absent(Lower(html), TitleOpen) {
      IndexOfMissing(Lower(html), TitleOpen);
      TitleSpanOf(html, -1, 0, 0);
    }
    if FirstAt(Lower(html), TitleOpen, o) {
      if Absent(html[o..], ">") {
        TitleSpanNoEnd(html, o);
      }
      if o < s <= |html| && FirstAt(html[o..], ">", s - 1 - o) {
        if Absent(Lower(html)[s..], TitleClose) {
          TitleSpanNoClose(html, o, s);
        }
        if s <= e <= |html| && FirstAt(Lower(html)[s..], TitleClose, e - s) {
          TitleSpanFound(html, o, s, e);
        }
      }
    }
  }

  /** An opening tag that is never closed by `>`. */
  lemma TitleSpanNoEnd(html: Bytes, o: int)
    requires FirstAt(Lower(html), TitleOpen, o) && Absent(html[o..], ">")
    ensures TitleSpan(html) == None
  {
    IndexOfIs(Lower(html), TitleOpen, o);
    IndexOfMissing(html[o..], ">");
    TitleSpanOf(html, o, -1, 0);
  }

  /** A complete opening tag with no closing tag after it. */
  lemma TitleSpanNoClose(html: Bytes, o: int, s: int)
    requires FirstAt(Lower(html), TitleOpen, o) && o < s <= |html|
    requires FirstAt(html[o..], ">", s - 1 - o) && Absent(Lower(html)[s..], TitleClose)
    ensures TitleSpan(html) == None
  {
    IndexOfIs(Lower(html), TitleOpen, o);
    IndexOfIs(html[o..], ">", s - 1 - o);
    IndexOfMissing(Lower(html)[s..], TitleClose);
    var t := s - 1 - o;
    assert o + t + 1 == s;
    TitleSpanOf(html, o, t, -1);
  }

  /** A complete element: the span is its inner text. */
  lemma TitleSpanFound(html: Bytes, o: int, s: int, e: int)
    requires TitleElement(html, o, s, e)
    ensures TitleSpan(html) == Some((s, e))
  {
    IndexOfIs(Lower(html), TitleOpen, o);
    IndexOfIs(html[o..], ">", s - 1 - o);
    IndexOfIs(Lower(html)[s..], TitleClose, e - s);
    TitleSpanAt(html, o, s, e);
  }

  /** The last step of `TitleSpanFound`, once the three searches are known. */
  lemma TitleSpanAt(html: Bytes, o: int, s: int, e: int)
    requires 0 <= o < s <= e <= |html|
    requires IndexOf(Lower(html), TitleOpen) == o
    requires IndexOf(html[o..], ">") == s - 1 - o
    requires IndexOf(Lower(html)[s..], TitleClose) == e - s
    ensures TitleSpan(html) == Some((s, e))
  {
    var t := s - 1 - o;
    assert o + t + 1 == s;
    TitleSpanOf(html, o, t, e - s);
  }

  /** Every way the title element can be incomplete yields the sentinel, and
      `og:title` is not consulted then, whatever the page holds. With a
      complete element, the result is its cleaned inner text, unless that text
      is under two bytes and `og:title` is non-empty; a short (possibly empty)
      title is kept when `og:title` is empty. */
  lemma TitleCases(html: Bytes, o: int, s: int, e: int)
    ensures Absent(Lower(html), TitleOpen) ==> ExtractTitle(html) == NoTitle
    ensures (FirstAt(Lower(html), TitleOpen, o) && Absent(html[o..], ">")) ==>
      ExtractTitle(html) == NoTitle
    ensures (FirstAt(Lower(html), TitleOpen, o) && o < s <= |html| &&
             FirstAt(html[o..], ">", s - 1 - o) && Absent(Lower(html)[s..], TitleClose)) ==>
      ExtractTitle(html) == NoTitle
    ensures TitleElement(html, o, s, e) ==>
      var title := CleanTitle(html[s..e]);
      var og := ExtractMetaProperty(html, OgTitle);
      ExtractTitle(html) == (if |title| < 2 && og != [] then og else title)
  {
    TitleSpanSpec(html, o, s, e);
  }

  // ---------------------------------------------------------------------------
  // Meta description
  // ---------------------------------------------------------------------------

  function NameAttr(q: Byte): Bytes
  {
    "name=" + [q] + "description" + [q]
  }

  function ContentAttr(q: Byte): Bytes
  {
    "content=" + [q]
  }

  /** One attempt of `extractMetaDescription` with quote `q`: the first
      case-insensitive `name=<q>description<q>`, then the first case-sensitive
      `content=<q>` from there, then the text up to the next `q`. */
  function DescriptionWith(html: Bytes, q: Byte): Option<Bytes>
  {
    var idx := IndexOf(Lower(html), NameAttr(q));
    if idx == -1 then None
    else
      var start := IndexOf(html[idx..], ContentAttr(q));
      if start == -1 then None
      else
        var s := start + idx + 9;
        var end := IndexOf(html[s..], [q]);
        if end == -1 then None else Some(html[s..s + end])
  }

  /** `extractMetaDescription`: the double-quoted form, else the single-quoted
      form, else the empty string. The value is returned verbatim. */
  function ExtractMetaDescription(html: Bytes): Bytes
  {
    match DescriptionWith(html, '"')
    case Some(d) => d
    case None =>
      match DescriptionWith(html, '\'')
      case Some(d) => d
      case None => []
  }

  /** The description as `extractMetaDescription` locates it for quote `q`: `i`
      is the first case-insensitive `name=<q>description<q>`, `i + c` the first
      `content=<q>` after it, and the value runs to the first `q` after that. */
  ghost predicate QuotedDescription(html: Bytes, q: Byte, i: int, c: int, e: int)
  {
    FirstAt(Lower(html), NameAttr(q), i) &&
    0 <= i + c && i + c + 9 <= |html| && FirstAt(html[i..], ContentAttr(q), c) &&
    FirstAt(html[i + c + 9..], [q], e)
  }

  /** `DescriptionWith` in terms of the three searches it makes. */
  lemma DescriptionWithOf(html: Bytes, q: Byte, i: int, c: int, e: int)
    requires IndexOf(Lower(html), NameAttr(q)) == i
    requires i == -1 || IndexOf(html[i..], ContentAttr(q)) == c
    requires i == -1 || c == -1 || IndexOf(html[i + c + 9..], [q]) == e
    ensures DescriptionWith(html, q) ==
      if i == -1 || c == -1 || e == -1 then None else Some(html[i + c + 9..i + c + 9 + e])
  {
  }

  /** The three searches of `DescriptionWith` find exactly the pieces
      `QuotedDescription` describes. */
  lemma DescriptionSearches(html: Bytes, q: Byte, i: int, c: int, e: int)
    requires QuotedDescription(html, q, i, c, e)
    ensures IndexOf(Lower(html), NameAttr(q)) == i
    ensures IndexOf(html[i..], ContentAttr(q)) == c
    ensures IndexOf(html[i + c + 9..], [q]) == e
  {
    IndexOfIs(Lower(html), NameAttr(q), i);
    IndexOfIs(html[i..], ContentAttr(q), c);
    IndexOfIs(html[i + c + 9..], [q], e);
  }

  /** Searches that all succeed locate a `QuotedDescription`. */
  lemma DescriptionFound(html: Bytes, q: Byte, i: int, c: int, e: int)
    requires IndexOf(Lower(html), NameAttr(q)) == i != -1
    requires IndexOf(html[i..], ContentAttr(q)) == c != -1
    requires IndexOf(html[i + c + 9..], [q]) == e != -1
    ensures QuotedDescription(html, q, i, c, e)
  {
    IndexOfSpec(Lower(html), NameAttr(q));
    IndexOfSpec(html[i..], ContentAttr(q));
    IndexOfSpec(html[i + c + 9..], [q]);
  }

  /** One attempt finds nothing exactly when there is no `QuotedDescription`
      for its quote, and otherwise returns that description's value. */
  lemma DescriptionWithSpec(html: Bytes, q: Byte)
    ensures DescriptionWith(html, q).None? <==>
      forall i, c, e :: !QuotedDescription(html, q, i, c, e)
    ensures forall i, c, e | QuotedDescription(html, q, i, c, e) ::
      DescriptionWith(html, q) == Some(html[i + c + 9..i + c + 9 + e])
  {
    forall i, c, e | QuotedDescription(html, q, i, c, e)
      ensures DescriptionWith(html, q) == Some(html[i + c + 9..i + c + 9 + e])
    {
      DescriptionSearches(html, q, i, c, e);
      DescriptionWithOf(html, q, i, c, e);
    }
    var i := IndexOf(Lower(html), NameAttr(q));
    var c := if i == -1 then 0 else IndexOf(html[i..], ContentAttr(q));
    var e := if i == -1 || c == -1 then 0 else IndexOf(html[i + c + 9..], [q]);
    DescriptionWithOf(html, q, i, c, e);
    if i != -1 && c != -1 && e != -1 {
      DescriptionFound(html, q, i, c, e);
    }
  }

  /** The description is the double-quoted value when that form is complete;
      the single-quoted form is tried only when it is not; otherwise the result
      is empty. The value never contains its closing quote. */
  lemma DescriptionCases(html: Bytes)
    ensures forall i, c, e | QuotedDescription(html, '"', i, c, e) ::
      ExtractMetaDescription(html) == html[i + c + 9..i + c + 9 + e] &&
      '"' !in ExtractMetaDescription(html)
    ensures (forall i, c, e :: !QuotedDescription(html, '"', i, c, e)) ==>
      forall i, c, e | QuotedDescription(html, '\'', i, c, e) ::
        ExtractMetaDescription(html) == html[i + c + 9..i + c + 9 + e] &&
        '\'' !in ExtractMetaDescription(html)
    ensures ((forall i, c, e :: !QuotedDescription(html, '"', i, c, e)) &&
             (forall i, c, e :: !QuotedDescription(html, '\'', i, c, e))) ==>
      ExtractMetaDescription(html) == []
  {
    DescriptionWithSpec(html, '"');
    DescriptionWithSpec(html, '\'');
    forall q: Byte, i, c, e | QuotedDescription(html, q, i, c, e)
      ensures q !in html[i + c + 9..i + c + 9 + e]
    {
      IndexOfSpec(html[i + c + 9..], [q]);
      IndexOfByte(html[i + c + 9..], q);
      FirstAtUnique(html[i + c + 9..], [q], e, IndexOf(html[i + c + 9..], [q]));
      assert html[i + c + 9..i + c + 9 + e] == html[i + c + 9..][..e];
    }
  }

  // ---------------------------------------------------------------------------
  // Meta property
  // ---------------------------------------------------------------------------

  function PropertyAttr(property: Bytes, q: Byte): Bytes
  {
    "property=" + [q] + property + [q]
  }

  /** Where `extractMetaProperty` finds the property: the first
      case-sensitive `property="name"`, or, only when there is none, the first
      `property='name'`. */
  function PropertyIndex(html: Bytes, property: Bytes): (r: int)
    ensures r == -1 || 0 <= r <= |html|
  {
    var d := IndexOf(html, PropertyAttr(property, '"'));
    if d == -1 then IndexOf(html, PropertyAttr(property, '\'')) else d
  }

  /** Where the value starts, counted from `idx`: the first `content="` in
      `html[idx..]`, or, only when there is none, the first `content='`. */
  function ContentIndex(html: Bytes, idx: nat): (r: int)
    requires idx <= |html|
    ensures r == -1 || (0 <= r && idx + r + 9 <= |html|)
  {
    var cd := IndexOf(html[idx..], ContentAttr('"'));
    if cd == -1 then IndexOf(html[idx..], ContentAttr('\'')) else cd
  }

  /** Where the value `extractMetaProperty` reads starts: just after the
      content attribute, or -1 when the property or the attribute is missing. */
  function ValueStart(html: Bytes, property: Bytes): (r: int)
    ensures -1 <= r <= |html|
  {
    var idx := PropertyIndex(html, property);
    if idx == -1 then -1
    else
      var contentStart := ContentIndex(html, idx);
      if contentStart == -1 then -1 else contentStart + idx + 9
  }

  /** The untrimmed value `extractMetaProperty` reads: the text from the
      content attribute up to the next double quote — a double quote whichever
      quote opened the value — or nothing when any piece is missing. */
  function RawProperty(html: Bytes, property: Bytes): Bytes
  {
    var s := ValueStart(html, property);
    if s == -1 then []
    else
      var end := IndexOf(html[s..], "\"");
      if end == -1 then [] else html[s..s + end]
  }

  /** `extractMetaProperty`: the trimmed value; any miss gives the empty
      string, which trimming leaves as it is. */
  function ExtractMetaProperty(html: Bytes, property: Bytes): Bytes
  {
    TrimSpace(RawProperty(html, property))
  }

  /** `RawProperty` in terms of where the property and its content attribute
      are, and of the search for the closing quote. */
  lemma RawPropertyOf(html: Bytes, property: Bytes, i: int, c: int, e: int)
    requires PropertyIndex(html, property) == i
    requires i == -1 || ContentIndex(html, i) == c
    requires i == -1 || c == -1 || IndexOf(html[i + c + 9..], "\"") == e
    ensures RawProperty(html, property) ==
      if i == -1 || c == -1 || e == -1 then [] else html[i + c + 9..i + c + 9 + e]
  {
    assert ValueStart(html, property) == if i == -1 || c == -1 then -1 else i + c + 9;
  }

  /** Whatever `RawProperty` returns has no double quote in it. */
  lemma RawPropertyUnquoted(html: Bytes, property: Bytes)
    ensures '"' !in RawProperty(html, property)
  {
    var i := PropertyIndex(html, property);
    var c := if i == -1 then 0 else ContentIndex(html, i);
    var e := if i == -1 || c == -1 then 0 else IndexOf(html[i + c + 9..], "\"");
    RawPropertyOf(html, property, i, c, e);
    if i != -1 && c != -1 && e != -1 {
      IndexOfByte(html[i + c + 9..], '"');
      assert html[i + c + 9..i + c + 9 + e] == html[i + c + 9..][..e];
    }
  }

  /** The property value is trimmed, never contains a double quote, and is
      empty when the page names the property in neither quote style. */
  lemma MetaPropertyShape(html: Bytes, property: Bytes)
    ensures Trimmed(ExtractMetaProperty(html, property))
    ensures '"' !in ExtractMetaProperty(html, property)
    ensures (Absent(html, PropertyAttr(property, '"')) &&
             Absent(html, PropertyAttr(property, '\''))) ==>
      ExtractMetaProperty(html, property) == []
  {
    if Absent(html, PropertyAttr(property, '"')) && Absent(html, PropertyAttr(property, '\'')) {
      IndexOfMissing(html, PropertyAttr(property, '"'));
      IndexOfMissing(html, PropertyAttr(property, '\''));
      RawPropertyOf(html, property, -1, 0, 0);
    }
    RawPropertyUnquoted(html, property);
    TrimSpaceWithin(RawProperty(html, property));
  }

  /** The searches of `extractMetaProperty` for the double-quoted forms. */
  lemma PropertySearches(html: Bytes, property: Bytes, i: int, c: int, e: int)
    requires FirstAt(html, PropertyAttr(property, '"'), i)
    requires 0 <= i + c && i + c + 9 <= |html| && FirstAt(html[i..], ContentAttr('"'), c)
    requires FirstAt(html[i + c + 9..], "\"", e)
    ensures PropertyIndex(html, property) == i
    ensures ContentIndex(html, i) == c
    ensures IndexOf(html[i + c + 9..], "\"") == e
  {
    IndexOfIs(html, PropertyAttr(property, '"'), i);
    IndexOfIs(html[i..], ContentAttr('"'), c);
    IndexOfIs(html[i + c + 9..], "\"", e);
  }

  /** When the property is named with double quotes and followed by a
      double-quoted content attribute, the value is the trimmed text between
      that attribute and the next double quote. */
  lemma MetaPropertyFound(html: Bytes, property: Bytes, i: int, c: int, e: int)
    requires FirstAt(html, PropertyAttr(property, '"'), i)
    requires 0 <= i + c && i + c + 9 <= |html| && FirstAt(html[i..], ContentAttr('"'), c)
    requires FirstAt(html[i + c + 9..], "\"", e)
    ensures ExtractMetaProperty(html, property) == TrimSpace(html[i + c + 9..i + c + 9 + e])
  {
    PropertySearches(html, property, i, c, e);
    RawPropertyOf(html, property, i, c, e);
  }

  /** `i` is where `extractMetaProperty` finds the property: the first
      `property="name"`, or, when the page has none, the first
      `property='name'`. */
  ghost predicate PropertyAt(html: Bytes, property: Bytes, i: int)
  {
    FirstAt(html, PropertyAttr(property, '"'), i) ||
    (Absent(html, PropertyAttr(property, '"')) && FirstAt(html, PropertyAttr(property, '\''), i))
  }

  /** `c` is where the content attribute starts, counted from `i`: the first
      `content="`, or, when there is none after `i`, the first `content='`. */
  ghost predicate ContentAt(html: Bytes, i: int, c: int)
  {
    0 <= i <= |html| &&
    (FirstAt(html[i..], ContentAttr('"'), c) ||
     (Absent(html[i..], ContentAttr('"')) && FirstAt(html[i..], ContentAttr('\''), c)))
  }

  /** `e` is where the value ends, counted from its start just after the
      content attribute at `i + c`: the first double quote there. */
  ghost predicate ValueAt(html: Bytes, i: int, c: int, e: int)
  {
    0 <= i + c && i + c + 9 <= |html| && FirstAt(html[i + c + 9..], "\"", e)
  }

  /** The property search finds `PropertyAt` and reports -1 exactly when the
      page names the property in neither quote style. */
  lemma PropertyIndexSpec(html: Bytes, property: Bytes)
    ensures var r := PropertyIndex(html, property);
      (r == -1 <==> Absent(html, PropertyAttr(property, '"')) && Absent(html, PropertyAttr(property, '\''))) &&
      (r != -1 ==> PropertyAt(html, property, r))
  {
    IndexOfSpec(html, PropertyAttr(property, '"'));
    IndexOfSpec(html, PropertyAttr(property, '\''));
  }

  /** The content search finds `ContentAt` and reports -1 exactly when neither
      content attribute follows `idx`. */
  lemma ContentIndexSpec(html: Bytes, idx: nat)
    requires idx <= |html|
    ensures var r := ContentIndex(html, idx);
      (r == -1 <==> Absent(html[idx..], ContentAttr('"')) && Absent(html[idx..], ContentAttr('\''))) &&
      (r != -1 ==> ContentAt(html, idx, r))
  {
    IndexOfSpec(html[idx..], ContentAttr('"'));
    IndexOfSpec(html[idx..], ContentAttr('\''));
  }

  /** A `PropertyAt` position is the one the search reports. */
  lemma PropertyAtIs(html: Bytes, property: Bytes, i: int)
    requires PropertyAt(html, property, i)
    ensures PropertyIndex(html, property) == i
  {
    if FirstAt(html, PropertyAttr(property, '"'), i) {
      IndexOfIs(html, PropertyAttr(property, '"'), i);
    } else {
      IndexOfMissing(html, PropertyAttr(property, '"'));
      IndexOfIs(html, PropertyAttr(property, '\''), i);
    }
  }

  /** A `ContentAt` position is the one the search reports. */
  lemma ContentAtIs(html: Bytes, i: nat, c: int)
    requires ContentAt(html, i, c)
    ensures ContentIndex(html, i) == c && i + c + 9 <= |html|
  {
    if FirstAt(html[i..], ContentAttr('"'), c) {
      IndexOfIs(html[i..], ContentAttr('"'), c);
    } else {
      IndexOfMissing(html[i..], ContentAttr('"'));
      IndexOfIs(html[i..], ContentAttr('\''), c);
    }
  }

  /** With the property found, in either quote style, and a content
      attribute after it, in either quote style, the value is the trimmed text
      up to the first double quote after the attribute. */
  lemma MetaPropertyValue(html: Bytes, property: Bytes, i: int, c: int, e: int)
    requires PropertyAt(html, property, i) && ContentAt(html, i, c) && ValueAt(html, i, c, e)
    ensures ExtractMetaProperty(html, property) == TrimSpace(html[i + c + 9..i + c + 9 + e])
  {
    PropertyAtIs(html, property, i);
    ContentAtIs(html, i, c);
    IndexOfIs(html[i + c + 9..], "\"", e);
    RawPropertyOf(html, property, i, c, e);
  }

  /** With the property found but no content attribute after it, in either
      quote style, the value is "". */
  lemma MetaPropertyNoContent(html: Bytes, property: Bytes, i: int)
    requires PropertyAt(html, property, i) && 0 <= i <= |html|
    requires Absent(html[i..], ContentAttr('"')) && Absent(html[i..], ContentAttr('\''))
    ensures ExtractMetaProperty(html, property) == []
  {
    PropertyAtIs(html, property, i);
    ContentIndexSpec(html, i);
    RawPropertyOf(html, property, i, -1, 0);
  }

  /** With the property and a content attribute found but no double quote
      after the attribute, the value is "". */
  lemma MetaPropertyUnclosed(html: Bytes, property: Bytes, i: int, c: int)
    requires PropertyAt(html, property, i) && ContentAt(html, i, c)
    requires 0 <= i + c && i + c + 9 <= |html| && '"' !in html[i + c + 9..]
    ensures ExtractMetaProperty(html, property) == []
  {
    PropertyAtIs(html, property, i);
    ContentAtIs(html, i, c);
    IndexOfByte(html[i + c + 9..], '"');
    RawPropertyOf(html, property, i, c, -1);
  }

  /** `extractMetaProperty` case by case, in terms of the page: the trimmed
      value when every search succeeds, in either quote style for the property
      and for the content attribute, and "" when the property is named in
      neither style, when neither content attribute follows it, or when no
      double quote follows the attribute. */
  lemma MetaPropertyCases(html: Bytes, property: Bytes)
    ensures forall i, c, e | PropertyAt(html, property, i) && ContentAt(html, i, c) && ValueAt(html, i, c, e) ::
      ExtractMetaProperty(html, property) == TrimSpace(html[i + c + 9..i + c + 9 + e])
    ensures (Absent(html, PropertyAttr(property, '"')) && Absent(html, PropertyAttr(property, '\''))) ==>
      ExtractMetaProperty(html, property) == []
    ensures forall i | PropertyAt(html, property, i) && 0 <= i <= |html| &&
        Absent(html[i..], ContentAttr('"')) && Absent(html[i..], ContentAttr('\'')) ::
      ExtractMetaProperty(html, property) == []
    ensures forall i, c | PropertyAt(html, property, i) && ContentAt(html, i, c) &&
        0 <= i + c && i + c + 9 <= |html| && '"' !in html[i + c + 9..] ::
      ExtractMetaProperty(html, property) == []
  {
    forall i, c, e | PropertyAt(html, property, i) && ContentAt(html, i, c) && ValueAt(html, i, c, e)
      ensures ExtractMetaProperty(html, property) == TrimSpace(html[i + c + 9..i + c + 9 + e])
    {
      MetaPropertyValue(html, property, i, c, e);
    }
    MetaPropertyShape(html, property);
    forall i | PropertyAt(html, property, i) && 0 <= i <= |html| &&
        Absent(html[i..], ContentAttr('"')) && Absent(html[i..], ContentAttr('\''))
      ensures ExtractMetaProperty(html, property) == []
    {
      MetaPropertyNoContent(html, property, i);
    }
    forall i, c | PropertyAt(html, property, i) && ContentAt(html, i, c) &&
        0 <= i + c && i + c + 9 <= |html| && '"' !in html[i + c + 9..]
      ensures ExtractMetaProperty(html, property) == []
    {
      MetaPropertyUnclosed(html, property, i, c);
    }
  }
}
