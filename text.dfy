/** Byte strings and the handful of Go `strings` / `unicode/utf8` library
    operations the extraction pipeline is built from.

    A Go `string` is an immutable sequence of bytes and `len` counts bytes, so
    text is modelled as a sequence of characters below 0x100, one per byte.
    String constants that the Go source writes in Chinese are turned into their
    UTF-8 bytes by `Utf8`, as the Go compiler does with a source literal. */
module Text {

  datatype Option<T> = None | Some(value: T)

  /** One byte of a Go string. */
  type Byte = c: char | c as int < 0x100 witness 'a'
  type Bytes = seq<Byte>

  // ---------------------------------------------------------------------------
  // UTF-8 encoding of string constants
  // ---------------------------------------------------------------------------

  function ByteOf(n: int): Byte
    requires 0 <= n < 0x100
  {
    n as char
  }

  /** The UTF-8 encoding of one Unicode scalar value. */
  function EncodeRune(c: char): (r: Bytes)
    ensures 1 <= |r| <= 4
    ensures (|r| == 1) == (c as int < 0x80)
  {
    var n := c as int;
    if n < 0x80 then [ByteOf(n)]
    else if n < 0x800 then [ByteOf(0xC0 + n / 0x40), ByteOf(0x80 + n % 0x40)]
    else if n < 0x10000 then
      [ByteOf(0xE0 + n / 0x1000), ByteOf(0x80 + n / 0x40 % 0x40), ByteOf(0x80 + n % 0x40)]
    else
      [ByteOf(0xF0 + n / 0x40000), ByteOf(0x80 + n / 0x1000 % 0x40),
       ByteOf(0x80 + n / 0x40 % 0x40), ByteOf(0x80 + n % 0x40)]
  }

  /** The bytes of a Go string literal: its characters in UTF-8. */
  function Utf8(s: string): Bytes
  {
    Concat(seq(|s|, i requires 0 <= i < |s| => EncodeRune(s[i])))
  }

  /** The pieces one after the other. */
  function Concat(pieces: seq<Bytes>): Bytes
  {
    if pieces == [] then [] else pieces[0] + Concat(pieces[1..])
  }

  // ---------------------------------------------------------------------------
  // ASCII case folding (`strings.ToLower` restricted to ASCII)
  // ---------------------------------------------------------------------------

  function LowerByte(b: Byte): Byte
  {
    if 'A' <= b <= 'Z' then ByteOf(b as int + 32) else b
  }

  /** ASCII lower-casing, byte by byte. */
  function Lower(s: Bytes): (r: Bytes)
    ensures |r| == |s|
  {
    seq(|s|, i requires 0 <= i < |s| => LowerByte(s[i]))
  }

  /** Lower-casing works piece by piece. */
  lemma LowerAppend(a: Bytes, b: Bytes)
    ensures Lower(a + b) == Lower(a) + Lower(b)
  {
  }

  /** Text without upper-case ASCII letters is its own lower-case form. */
  lemma LowerNoUpper(s: Bytes)
    requires forall i | 0 <= i < |s| :: !('A' <= s[i] <= 'Z')
    ensures Lower(s) == s
  {
  }

  /** Lower-casing commutes with dropping a prefix. */
  lemma LowerSuffix(s: Bytes, j: nat)
    requires j <= |s|
    ensures Lower(s[j..]) == Lower(s)[j..]
  {
  }

  // ---------------------------------------------------------------------------
  // Substring search (`strings.Index`, `strings.Contains`)
  // ---------------------------------------------------------------------------

  /** `p` occurs in `s` at offset `k`. */
  predicate MatchAt(s: Bytes, p: Bytes, k: int)
  {
    0 <= k && k + |p| <= |s| && s[k..k + |p|] == p
  }

  /** `k` is the first offset at which `p` occurs in `s`. */
  ghost predicate FirstAt(s: Bytes, p: Bytes, k: int)
  {
    MatchAt(s, p, k) && forall j | 0 <= j < k :: !MatchAt(s, p, j)
  }

  /** `p` occurs nowhere in `s`. */
  ghost predicate Absent(s: Bytes, p: Bytes)
  {
    forall j :: !MatchAt(s, p, j)
  }

  function IndexFrom(s: Bytes, p: Bytes, i: nat): (r: int)
    decreases |s| + 1 - i
    ensures r == -1 || (i <= r && r + |p| <= |s|)
  {
    if i + |p| > |s| then -1
    else if s[i..i + |p|] == p then i
    else IndexFrom(s, p, i + 1)
  }

  /** Go's `strings.Index`: the first offset of `p` in `s`, or -1. */
  function IndexOf(s: Bytes, p: Bytes): (r: int)
    ensures r == -1 || (0 <= r && r + |p| <= |s|)
  {
    IndexFrom(s, p, 0)
  }

  lemma {:induction false} IndexFromSpec(s: Bytes, p: Bytes, i: nat)
    decreases |s| + 1 - i
    ensures var r := IndexFrom(s, p, i);
      (r == -1 || MatchAt(s, p, r)) &&
      forall j | i <= j && (r == -1 || j < r) :: !MatchAt(s, p, j)
  {
    if i + |p| <= |s| && s[i..i + |p|] != p {
      IndexFromSpec(s, p, i + 1);
    }
  }

  /** `IndexOf` finds the first occurrence, and -1 means there is none. */
  lemma IndexOfSpec(s: Bytes, p: Bytes)
    ensures var r := IndexOf(s, p);
      (r == -1 || FirstAt(s, p, r)) && (r == -1 <==> Absent(s, p))
  {
    IndexFromSpec(s, p, 0);
  }

  /** The search returns the first occurrence, whenever there is one. */
  lemma IndexOfIs(s: Bytes, p: Bytes, k: int)
    requires FirstAt(s, p, k)
    ensures IndexOf(s, p) == k
  {
    IndexOfSpec(s, p);
    assert !Absent(s, p) by { assert MatchAt(s, p, k); }
    FirstAtUnique(s, p, k, IndexOf(s, p));
  }

  /** A match with no earlier place where the pattern's first two bytes
      appear together is the first one. */
  lemma IndexOfPair(s: Bytes, p: Bytes, k: nat)
    requires |p| >= 2 && MatchAt(s, p, k) && PairFree(s[..k + 1], p[0], p[1])
    ensures IndexOf(s, p) == k
  {
    forall j | 0 <= j < k ensures !MatchAt(s, p, j) {
      if j + |p| <= |s| {
        assert s[j..j + |p|][0] == s[..k + 1][j] && s[j..j + |p|][1] == s[..k + 1][j + 1];
      }
    }
    IndexOfIs(s, p, k);
  }

  /** A pattern found in the front part is found at the same place in the
      whole. */
  lemma IndexOfFront(a: Bytes, b: Bytes, p: Bytes)
    requires IndexOf(a, p) != -1
    ensures IndexOf(a + b, p) == IndexOf(a, p)
  {
    var k := IndexOf(a, p);
    IndexOfSpec(a, p);
    assert (a + b)[k..k + |p|] == a[k..k + |p|];
    forall j | 0 <= j < k ensures !MatchAt(a + b, p, j) {
      assert !MatchAt(a, p, j);
      assert (a + b)[j..j + |p|] == a[j..j + |p|];
    }
    IndexOfIs(a + b, p, k);
  }

  /** When no match starts in the front part, the search finds the back
      part's first match, shifted, or nothing. */
  lemma IndexOfBack(a: Bytes, b: Bytes, p: Bytes)
    requires forall j | 0 <= j < |a| :: !MatchAt(a + b, p, j)
    ensures IndexOf(a + b, p) == if IndexOf(b, p) == -1 then -1 else |a| + IndexOf(b, p)
  {
    var s := a + b;
    assert s[|a|..] == b;
    forall k ensures MatchAt(b, p, k) <==> k >= 0 && MatchAt(s, p, |a| + k) {
      MatchInSlice(s, p, |a|, k);
    }
    IndexOfSpec(b, p);
    if IndexOf(b, p) == -1 {
      forall j ensures !MatchAt(s, p, j) {
        if j >= |a| {
          MatchInSlice(s, p, |a|, j - |a|);
        }
      }
      IndexOfMissing(s, p);
    } else {
      var k := IndexOf(b, p);
      forall j | 0 <= j < |a| + k ensures !MatchAt(s, p, j) {
        if j >= |a| {
          MatchInSlice(s, p, |a|, j - |a|);
        }
      }
      IndexOfIs(s, p, |a| + k);
    }
  }

  /** No match of a longer pattern starts in a front part that holds neither
      the pattern's first two bytes nor, at the seam, their split. */
  lemma NoMatchInPairFree(a: Bytes, b: Bytes, p: Bytes)
    requires |p| >= 2 && PairFree(a, p[0], p[1])
    requires a == [] || b == [] || !(a[|a| - 1] == p[0] && b[0] == p[1])
    ensures forall j | 0 <= j < |a| :: !MatchAt(a + b, p, j)
  {
    var s := a + b;
    forall j | 0 <= j < |a| ensures !MatchAt(s, p, j) {
      if j + |p| <= |s| {
        assert s[j..j + |p|][0] == s[j] && s[j..j + |p|][1] == s[j + 1];
        if j + 1 < |a| {
          assert s[j] == a[j] && s[j + 1] == a[j + 1];
        }
      }
    }
  }

  /** No match starts in a front part that lacks the pattern's first byte. */
  lemma NoMatchInFirstFree(a: Bytes, b: Bytes, p: Bytes)
    requires |p| >= 1 && p[0] !in a
    ensures forall j | 0 <= j < |a| :: !MatchAt(a + b, p, j)
  {
    forall j | 0 <= j < |a| ensures !MatchAt(a + b, p, j) {
      if j + |p| <= |a + b| {
        assert (a + b)[j..j + |p|][0] == a[j];
      }
    }
  }

  /** The search reports a miss when the pattern occurs nowhere. */
  lemma IndexOfMissing(s: Bytes, p: Bytes)
    requires Absent(s, p)
    ensures IndexOf(s, p) == -1
  {
    IndexOfSpec(s, p);
  }

  /** There is only one first occurrence. */
  lemma FirstAtUnique(s: Bytes, p: Bytes, a: int, b: int)
    requires FirstAt(s, p, a) && FirstAt(s, p, b)
    ensures a == b
  {
  }

  lemma MatchOneByte(s: Bytes, c: Byte, k: int)
    ensures MatchAt(s, [c], k) <==> 0 <= k < |s| && s[k] == c
  {
    if 0 <= k < |s| {
      assert s[k..k + 1] == [s[k]];
    }
  }

  /** Searching for a single byte finds its first occurrence. */
  lemma IndexOfByte(s: Bytes, c: Byte)
    ensures var r := IndexOf(s, [c]);
      (r == -1 <==> c !in s) &&
      (r != -1 ==> 0 <= r < |s| && s[r] == c && c !in s[..r])
  {
    var r := IndexOf(s, [c]);
    IndexOfSpec(s, [c]);
    MatchOneByte(s, c, r);
    if c in s {
      var k :| 0 <= k < |s| && s[k] == c;
      MatchOneByte(s, c, k);
    }
    if r != -1 {
      forall j | 0 <= j < r ensures s[j] != c {
        MatchOneByte(s, c, j);
      }
    }
  }

  /** The first occurrence of a byte is at or before any occurrence of it. */
  lemma FirstByteBefore(s: Bytes, c: Byte, i: nat)
    requires i < |s| && s[i] == c
    ensures 0 <= IndexOf(s, [c]) <= i
  {
    IndexOfSpec(s, [c]);
    MatchOneByte(s, c, i);
    assert MatchAt(s, [c], i);
  }

  /** An occurrence with none before it is the one the search finds. */
  lemma FirstByteIs(s: Bytes, c: Byte, k: nat)
    requires k < |s| && s[k] == c
    requires forall j | 0 <= j < k :: s[j] != c
    ensures IndexOf(s, [c]) == k
  {
    FirstByteBefore(s, c, k);
    IndexOfByte(s, c);
  }

  /** A match inside a slice is a match in the whole string. */
  lemma MatchInSlice(s: Bytes, p: Bytes, a: nat, k: int)
    requires a <= |s|
    ensures MatchAt(s[a..], p, k) <==> k >= 0 && MatchAt(s, p, a + k)
  {
    if k >= 0 && a + k + |p| <= |s| {
      assert s[a..][k..k + |p|] == s[a + k..a + k + |p|];
    }
  }

  // ---------------------------------------------------------------------------
  // Whitespace (`strings.TrimSpace` on ASCII whitespace)
  // ---------------------------------------------------------------------------

  /** The ASCII bytes Go's `unicode.IsSpace` accepts: space and the run
      \t \n \v \f \r. */
  predicate IsSpace(b: Byte)
  {
    b == ' ' || '\t' <= b <= '\r'
  }

  /** Neither end of `s` is whitespace. */
  predicate Trimmed(s: Bytes)
  {
    s == [] || (!IsSpace(s[0]) && !IsSpace(s[|s| - 1]))
  }

  /** The first index at or after `i` that is not whitespace, or `|s|`. */
  function TrimStart(s: Bytes, i: nat): (a: nat)
    requires i <= |s|
    decreases |s| - i
    ensures i <= a <= |s|
    ensures a == |s| || !IsSpace(s[a])
  {
    if i < |s| && IsSpace(s[i]) then TrimStart(s, i + 1) else i
  }

  /** The end of `s[a..j]` once its trailing whitespace is dropped. */
  function TrimEnd(s: Bytes, a: nat, j: nat): (b: nat)
    requires a <= j <= |s|
    decreases j
    ensures a <= b <= j
    ensures b == a || !IsSpace(s[b - 1])
  {
    if a < j && IsSpace(s[j - 1]) then TrimEnd(s, a, j - 1) else j
  }

  /** Go's `strings.TrimSpace`: `s` without its leading and trailing whitespace. */
  function TrimSpace(s: Bytes): (r: Bytes)
    ensures Trimmed(r)
  {
    var a := TrimStart(s, 0);
    s[a..TrimEnd(s, a, |s|)]
  }

  lemma {:induction false} TrimStartSkipsSpaces(s: Bytes, i: nat)
    requires i <= |s|
    decreases |s| - i
    ensures forall k | i <= k < TrimStart(s, i) :: IsSpace(s[k])
  {
    if i < |s| && IsSpace(s[i]) {
      TrimStartSkipsSpaces(s, i + 1);
    }
  }

  lemma {:induction false} TrimEndSkipsSpaces(s: Bytes, a: nat, j: nat)
    requires a <= j <= |s|
    decreases j
    ensures forall k | TrimEnd(s, a, j) <= k < j :: IsSpace(s[k])
  {
    if a < j && IsSpace(s[j - 1]) {
      TrimEndSkipsSpaces(s, a, j - 1);
    }
  }

  /** Trimming drops whitespace only: what it removes from either end is all
      whitespace, and what it keeps is the contiguous rest. */
  lemma TrimSpaceDropsSpaces(s: Bytes)
    ensures exists a, b :: (0 <= a <= b <= |s| && TrimSpace(s) == s[a..b] &&
      (forall k | 0 <= k < a :: IsSpace(s[k])) && (forall k | b <= k < |s| :: IsSpace(s[k])))
  {
    var a := TrimStart(s, 0);
    var b := TrimEnd(s, a, |s|);
    TrimStartSkipsSpaces(s, 0);
    TrimEndSkipsSpaces(s, a, |s|);
    assert 0 <= a <= b <= |s| && TrimSpace(s) == s[a..b];
  }

  /** Trimming keeps a contiguous piece of the text, so it brings in no byte. */
  lemma TrimSpaceWithin(s: Bytes)
    ensures forall x | x in TrimSpace(s) :: x in s
  {
    var a := TrimStart(s, 0);
    var b := TrimEnd(s, a, |s|);
    forall x | x in s[a..b] ensures x in s {
      var k :| 0 <= k < b - a && s[a..b][k] == x;
      assert s[a + k] == x;
    }
  }

  /** Trimming what is already trimmed changes nothing. */
  lemma TrimSpaceOfTrimmed(s: Bytes)
    requires Trimmed(s)
    ensures TrimSpace(s) == s
  {
  }

  // ---------------------------------------------------------------------------
  // `strings.ReplaceAll`, `strings.Split`, `strings.Join`, `strings.Count`
  // ---------------------------------------------------------------------------

  /** Go's `strings.ReplaceAll` for a non-empty pattern: leftmost, non-overlapping. */
  function ReplaceAll(s: Bytes, pat: Bytes, rep: Bytes): (r: Bytes)
    requires |pat| > 0
    decreases |s|
  {
    if |s| < |pat| then s
    else if s[..|pat|] == pat then rep + ReplaceAll(s[|pat|..], pat, rep)
    else [s[0]] + ReplaceAll(s[1..], pat, rep)
  }

  /** Replacing a byte by bytes that do not contain it removes every occurrence
      of it, and brings in nothing that was neither there nor in the replacement. */
  lemma {:induction false} ReplaceByte(s: Bytes, c: Byte, rep: Bytes)
    requires c !in rep
    ensures c !in ReplaceAll(s, [c], rep)
    ensures forall x | x in ReplaceAll(s, [c], rep) :: x in rep || x in s
  {
    if |s| >= 1 {
      ReplaceByte(s[1..], c, rep);
      assert s == [s[0]] + s[1..];
    }
  }

  /** What replacing the byte `c` by `rep` makes of one byte `b`. */
  function ReplacedByte(b: Byte, c: Byte, rep: Bytes): Bytes
  {
    if b == c then rep else [b]
  }

  /** Replacing a one-byte pattern works byte by byte: each `c` becomes `rep`
      and every other byte stays as it is, in order. */
  lemma {:induction false} ReplaceOneByte(s: Bytes, c: Byte, rep: Bytes)
    decreases |s|
    ensures ReplaceAll(s, [c], rep) ==
      Concat(seq(|s|, i requires 0 <= i < |s| => ReplacedByte(s[i], c, rep)))
  {
    if s != [] {
      ReplaceOneByte(s[1..], c, rep);
      var pieces := seq(|s|, i requires 0 <= i < |s| => ReplacedByte(s[i], c, rep));
      assert pieces[1..] == seq(|s| - 1, i requires 0 <= i < |s| - 1 => ReplacedByte(s[1..][i], c, rep));
      assert s[..1] == [c] <==> s[0] == c;
    }
  }

  /** Replacing a one-byte pattern distributes over concatenation. */
  lemma {:induction false} ReplaceAppend(a: Bytes, b: Bytes, c: Byte, rep: Bytes)
    decreases |a|
    ensures ReplaceAll(a + b, [c], rep) == ReplaceAll(a, [c], rep) + ReplaceAll(b, [c], rep)
  {
    if a != [] {
      ReplaceAppend(a[1..], b, c, rep);
      assert (a + b)[1..] == a[1..] + b;
      assert (a + b)[..1] == a[..1];
    } else {
      assert a + b == b;
    }
  }

  /** Where no match starts before `k`, replacing keeps the first `k` bytes. */
  lemma {:induction false} ReplaceSkip(s: Bytes, pat: Bytes, rep: Bytes, k: nat)
    requires |pat| > 0 && k <= |s|
    requires forall j | 0 <= j < k :: !MatchAt(s, pat, j)
    decreases k
    ensures ReplaceAll(s, pat, rep) == s[..k] + ReplaceAll(s[k..], pat, rep)
  {
    if k > 0 && |s| >= |pat| {
      assert !MatchAt(s, pat, 0);
      forall j | 0 <= j < k - 1 ensures !MatchAt(s[1..], pat, j) {
        MatchInSlice(s, pat, 1, j);
      }
      ReplaceSkip(s[1..], pat, rep, k - 1);
      assert s[1..][k - 1..] == s[k..];
      assert s[..k] == [s[0]] + s[1..][..k - 1];
    } else if k > 0 {
      assert ReplaceAll(s[k..], pat, rep) == s[k..];
      assert s[..k] + s[k..] == s;
    }
  }

  /** No two neighbouring bytes of `s` are `x` then `y`. */
  predicate PairFree(s: Bytes, x: Byte, y: Byte)
  {
    forall i | 0 <= i < |s| - 1 :: !(s[i] == x && s[i + 1] == y)
  }

  /** A concatenation is free of a pair when both parts are and the seam
      does not spell it. */
  lemma PairFreeAppend(a: Bytes, b: Bytes, x: Byte, y: Byte)
    requires PairFree(a, x, y) && PairFree(b, x, y)
    requires a == [] || b == [] || !(a[|a| - 1] == x && b[0] == y)
    ensures PairFree(a + b, x, y)
  {
    var s := a + b;
    forall i | 0 <= i < |s| - 1 ensures !(s[i] == x && s[i + 1] == y) {
      if i + 1 < |a| {
        assert s[i] == a[i] && s[i + 1] == a[i + 1];
      } else if i >= |a| {
        assert s[i] == b[i - |a|] && s[i + 1] == b[i + 1 - |a|];
      }
    }
  }

  /** A two-byte pattern is absent when no two neighbouring bytes spell it. */
  lemma AbsentPair(s: Bytes, a: Byte, b: Byte)
    requires PairFree(s, a, b)
    ensures Absent(s, [a, b])
  {
    forall j ensures !MatchAt(s, [a, b], j) {
      if 0 <= j < |s| - 1 {
        assert s[j..j + 2][0] == s[j] && s[j..j + 2][1] == s[j + 1];
      }
    }
  }

  /** Nor can any longer pattern that starts with that pair occur. */
  lemma IndexOfPairFree(s: Bytes, p: Bytes)
    requires |p| >= 2 && PairFree(s, p[0], p[1])
    ensures IndexOf(s, p) == -1
  {
    forall j ensures !MatchAt(s, p, j) {
      if 0 <= j && j + |p| <= |s| {
        assert s[j..j + |p|][0] == s[j] && s[j..j + |p|][1] == s[j + 1];
      }
    }
    IndexOfMissing(s, p);
  }

  /** Replacing a pattern by a shorter one never lengthens the text, and
      shortens it when the pattern occurs. */
  lemma {:induction false} ReplaceAllShrinks(s: Bytes, pat: Bytes, rep: Bytes)
    requires |pat| > 0 && |rep| < |pat|
    ensures |ReplaceAll(s, pat, rep)| <= |s|
    ensures !Absent(s, pat) ==> |ReplaceAll(s, pat, rep)| < |s|
  {
    if |s| < |pat| {
      forall j ensures !MatchAt(s, pat, j) { }
    } else if s[..|pat|] == pat {
      ReplaceAllShrinks(s[|pat|..], pat, rep);
    } else {
      ReplaceAllShrinks(s[1..], pat, rep);
      if !Absent(s, pat) {
        var j :| MatchAt(s, pat, j);
        assert j != 0;
        MatchInSlice(s, pat, 1, j - 1);
      }
    }
  }

  /** Go's `strings.Split` for a non-empty separator. */
  function Split(s: Bytes, sep: Bytes): (r: seq<Bytes>)
    requires |sep| > 0
    ensures |r| >= 1
    decreases |s|
  {
    var i := IndexOf(s, sep);
    if i == -1 then [s] else [s[..i]] + Split(s[i + |sep|..], sep)
  }

  /** No part of a split holds the separator byte. */
  lemma {:induction false} SplitPartsFree(s: Bytes, c: Byte)
    decreases |s|
    ensures forall p | p in Split(s, [c]) :: c !in p
  {
    var i := IndexOf(s, [c]);
    IndexOfByte(s, c);
    if i != -1 {
      SplitPartsFree(s[i + 1..], c);
    }
  }

  /** Go's `strings.Join`. */
  function Join(parts: seq<Bytes>, sep: Bytes): Bytes
  {
    if |parts| == 0 then []
    else if |parts| == 1 then parts[0]
    else parts[0] + sep + Join(parts[1..], sep)
  }

  /** Joining a non-empty first part with a non-empty rest puts the separator
      right after the first part. */
  lemma JoinCons(first: Bytes, rest: seq<Bytes>, sep: Bytes)
    requires rest != []
    ensures Join([first] + rest, sep) == first + sep + Join(rest, sep)
  {
    assert ([first] + rest)[1..] == rest;
  }

  /** A joined list is empty only when every part is empty and the separator is
      never used. */
  lemma {:induction false} JoinEmpty(parts: seq<Bytes>, sep: Bytes)
    requires |sep| > 0
    ensures Join(parts, sep) == [] <==> (|parts| == 0 || (|parts| == 1 && parts[0] == []))
  {
  }

  /** Splitting a joined list gives the list back when the first byte of the
      separator occurs in no part. */
  lemma {:induction false} SplitJoin(parts: seq<Bytes>, sep: Bytes)
    requires |sep| > 0 && |parts| >= 1
    requires forall p | p in parts :: sep[0] !in p
    decreases |parts|
    ensures Split(Join(parts, sep), sep) == parts
  {
    var first := parts[0];
    assert first in parts;
    assert sep[0] !in first;
    if |parts| == 1 {
      forall k ensures !MatchAt(first, sep, k) {
        if 0 <= k && k + |sep| <= |first| {
          assert first[k..k + |sep|][0] == first[k];
        }
      }
      IndexOfMissing(first, sep);
    } else {
      var rest := Join(parts[1..], sep);
      var s := first + sep + rest;
      assert s[|first|..|first| + |sep|] == sep;
      forall k | 0 <= k < |first| ensures !MatchAt(s, sep, k) {
        assert s[k] == first[k];
        if k + |sep| <= |s| {
          assert s[k..k + |sep|][0] == s[k];
        }
      }
      IndexOfIs(s, sep, |first|);
      assert s[..|first|] == first;
      assert s[|first| + |sep|..] == rest;
      assert forall p | p in parts[1..] :: p in parts;
      SplitJoin(parts[1..], sep);
    }
  }

  /** Go's `strings.Count` for a non-empty pattern: non-overlapping occurrences. */
  function Count(s: Bytes, p: Bytes): (n: nat)
    requires |p| > 0
    decreases |s|
  {
    var i := IndexOf(s, p);
    if i == -1 then 0 else 1 + Count(s[i + |p|..], p)
  }

  /** Past the first occurrence, the text holds at least one fewer. */
  lemma CountPastFirst(s: Bytes, p: Bytes, j: nat)
    requires |p| > 0 && IndexOf(s, p) != -1 && IndexOf(s, p) + |p| <= j <= |s|
    ensures Count(s[j..], p) + 1 <= Count(s, p)
  {
    var after := IndexOf(s, p) + |p|;
    var rest := s[after..];
    assert Count(s, p) == 1 + Count(rest, p);
    assert s[j..] == rest[j - after..];
    CountSuffix(rest, p, j - after);
  }

  /** A suffix holds no more non-overlapping occurrences than the whole: the
      leftmost match of the whole comes no later than the suffix's. */
  lemma {:induction false} CountSuffix(s: Bytes, p: Bytes, j: nat)
    requires |p| > 0 && j <= |s|
    decreases |s|
    ensures Count(s[j..], p) <= Count(s, p)
  {
    if IndexOf(s[j..], p) != -1 {
      var i := IndexOf(s, p);
      var k := IndexOf(s[j..], p);
      CountSuffixStep(s, p, j);
      DropDrop(s, i + |p|, j + k - i);
      CountSuffix(s[i + |p|..], p, j + k - i);
    }
  }

  /** One step of the comparison: both counts take their first match, the
      suffix's lying no earlier than the whole's. */
  lemma CountSuffixStep(s: Bytes, p: Bytes, j: nat)
    requires |p| > 0 && j <= |s| && IndexOf(s[j..], p) != -1
    ensures var i := IndexOf(s, p);
      var k := IndexOf(s[j..], p);
      0 <= i <= j + k &&
      Count(s, p) == 1 + Count(s[i + |p|..], p) &&
      Count(s[j..], p) == 1 + Count(s[j + k + |p|..], p)
  {
    var k := IndexOf(s[j..], p);
    FirstNoLater(s, p, j);
    CountFirst(s[j..], p);
    CountFirst(s, p);
    DropDrop(s, j, k + |p|);
  }

  /** Two drops are one. */
  lemma DropDrop(s: Bytes, a: nat, b: nat)
    requires a + b <= |s|
    ensures s[a..][b..] == s[a + b..]
  {
  }

  /** One occurrence, then those after it. */
  lemma CountFirst(s: Bytes, p: Bytes)
    requires |p| > 0 && IndexOf(s, p) != -1
    ensures Count(s, p) == 1 + Count(s[IndexOf(s, p) + |p|..], p)
  {
  }

  /** The first match of the whole comes no later than that of a suffix. */
  lemma FirstNoLater(s: Bytes, p: Bytes, j: nat)
    requires j <= |s| && IndexOf(s[j..], p) != -1
    ensures 0 <= IndexOf(s, p) <= j + IndexOf(s[j..], p)
  {
    var k := IndexOf(s[j..], p);
    IndexOfSpec(s, p);
    IndexOfSpec(s[j..], p);
    MatchInSlice(s, p, j, k);
  }

  // ---------------------------------------------------------------------------
  // `utf8.RuneCount`
  // ---------------------------------------------------------------------------

  predicate InRange(b: Byte, lo: int, hi: int)
  {
    lo <= b as int <= hi
  }

  /** Number of bytes Go's UTF-8 decoder consumes for the rune that starts `s`:
      the encoded length for a well-formed rune, and 1 for an invalid or short one. */
  function RuneLength(s: Bytes): (n: nat)
    requires |s| > 0
    ensures 1 <= n <= |s|
  {
    var c := s[0] as int;
    var size := if 0xC2 <= c <= 0xDF then 2
                else if 0xE0 <= c <= 0xEF then 3
                else if 0xF0 <= c <= 0xF4 then 4
                else 1;
    var lo := if c == 0xE0 then 0xA0 else if c == 0xF0 then 0x90 else 0x80;
    var hi := if c == 0xED then 0x9F else if c == 0xF4 then 0x8F else 0xBF;
    if size == 1 || |s| < size then 1
    else if !InRange(s[1], lo, hi) then 1
    else if size == 2 then 2
    else if !InRange(s[2], 0x80, 0xBF) then 1
    else if size == 3 then 3
    else if !InRange(s[3], 0x80, 0xBF) then 1
    else 4
  }

  /** Go's `utf8.RuneCountInString`. */
  function RuneCount(s: Bytes): (n: nat)
    decreases |s|
  {
    if s == [] then 0 else 1 + RuneCount(s[RuneLength(s)..])
  }

  /** Every rune takes one to four bytes. */
  lemma {:induction false} RuneCountBounds(s: Bytes)
    ensures RuneCount(s) <= |s| <= 4 * RuneCount(s)
  {
    if s != [] {
      RuneCountBounds(s[RuneLength(s)..]);
    }
  }

  /** On ASCII text runes and bytes coincide. */
  lemma {:induction false} RuneCountAscii(s: Bytes)
    requires forall i | 0 <= i < |s| :: s[i] as int < 0x80
    ensures RuneCount(s) == |s|
  {
    if s != [] {
      RuneCountAscii(s[1..]);
    }
  }

  // ---------------------------------------------------------------------------
  // Subsequences
  // ---------------------------------------------------------------------------

  /** `a` is `b` with some elements deleted. */
  predicate IsSubseq<T(==)>(a: seq<T>, b: seq<T>)
    decreases |b|
  {
    if b == [] then a == []
    else IsSubseq(a, b[1..]) || (a != [] && a[0] == b[0] && IsSubseq(a[1..], b[1..]))
  }

  lemma {:induction false} SubseqRefl<T>(a: seq<T>)
    ensures IsSubseq(a, a)
  {
    if a != [] {
      SubseqRefl(a[1..]);
    }
  }

  lemma {:induction false} SubseqTrans<T>(a: seq<T>, b: seq<T>, c: seq<T>)
    requires IsSubseq(a, b) && IsSubseq(b, c)
    ensures IsSubseq(a, c)
    decreases |c|
  {
    if c != [] {
      if IsSubseq(b, c[1..]) {
        SubseqTrans(a, b, c[1..]);
      } else if IsSubseq(a, b[1..]) {
        SubseqTrans(a, b[1..], c[1..]);
      } else {
        SubseqTrans(a[1..], b[1..], c[1..]);
      }
    }
  }

  lemma {:induction false} SuffixIsSubseq<T>(s: seq<T>, j: nat)
    requires j <= |s|
    ensures IsSubseq(s[j..], s)
    decreases j
  {
    if j == 0 {
      SubseqRefl(s);
    } else {
      SuffixIsSubseq(s[1..], j - 1);
      assert s[1..][j - 1..] == s[j..];
    }
  }

  /** Cutting one contiguous span out of a sequence leaves a subsequence of it. */
  lemma {:induction false} CutIsSubseq<T>(s: seq<T>, i: nat, j: nat)
    requires i <= j <= |s|
    ensures IsSubseq(s[..i] + s[j..], s)
    decreases i
  {
    if i == 0 {
      assert s[..i] + s[j..] == s[j..];
      SuffixIsSubseq(s, j);
    } else {
      CutIsSubseq(s[1..], i - 1, j - 1);
      assert (s[..i] + s[j..])[1..] == s[1..][..i - 1] + s[1..][j - 1..];
    }
  }

  lemma {:induction false} SubseqAppend<T>(a: seq<T>, b: seq<T>, x: T, keep: bool)
    requires IsSubseq(a, b)
    ensures IsSubseq(if keep then a + [x] else a, b + [x])
    decreases |b|
  {
    if b == [] {
      assert a == [];
      if keep { assert IsSubseq<T>([], []); assert ([x] + [])[1..] == []; }
      assert ([] + [x])[1..] == [];
    } else {
      assert (b + [x])[1..] == b[1..] + [x];
      if IsSubseq(a, b[1..]) {
        SubseqAppend(a, b[1..], x, keep);
      } else {
        SubseqAppend(a[1..], b[1..], x, keep);
        if keep { assert (a + [x])[1..] == a[1..] + [x]; }
      }
    }
  }

  /** Slicing a concatenation past its first part. */
  lemma DropInto(a: Bytes, b: Bytes, k: nat)
    requires |a| <= k <= |a| + |b|
    ensures (a + b)[k..] == b[k - |a|..]
  {
  }

  /** Slicing a concatenation inside its first part. */
  lemma DropWithin(a: Bytes, b: Bytes, k: nat)
    requires k <= |a|
    ensures (a + b)[k..] == a[k..] + b
  {
  }

  /** Cutting the middle part out of a concatenation. */
  lemma CutMiddle(a: Bytes, b: Bytes, c: Bytes)
    ensures var s := a + (b + c);
      s[..|a|] + s[|a| + |b|..] == a + c
  {
    var s := a + (b + c);
    assert s[..|a|] == a;
    assert s[|a| + |b|..] == c;
  }

  /** The third part of a four-part concatenation. */
  lemma ThirdPart(a: Bytes, b: Bytes, c: Bytes, d: Bytes)
    ensures var s := a + (b + (c + d));
      s[|a| + |b|..|a| + |b| + |c|] == c
  {
    var s := a + (b + (c + d));
    assert s[|a| + |b|..] == c + d;
  }

  /** Dropping the first parts of a right-nested concatenation. */
  lemma DropParts(a: Bytes, b: Bytes, c: Bytes, d: Bytes, e: Bytes, f: Bytes)
    ensures (a + (b + (c + (d + (e + f)))))[|a| + |b| + |c| + |d| + |e|..] == f
    ensures (a + (b + (c + (d + (e + f)))))[|a| + |b| + |c|..] == d + (e + f)
  {
    var s := a + (b + (c + (d + (e + f))));
    assert s[|a|..] == b + (c + (d + (e + f)));
    assert s[|a| + |b|..] == c + (d + (e + f));
    assert s[|a| + |b| + |c|..] == d + (e + f);
    assert s[|a| + |b| + |c| + |d|..] == e + f;
  }

  lemma DropFour(a: Bytes, b: Bytes, c: Bytes, d: Bytes, e: Bytes)
    ensures (a + (b + (c + (d + e))))[|a| + |b| + |c| + |d|..] == e
    ensures (a + (b + (c + (d + e))))[|a| + |b|..] == c + (d + e)
  {
    var s := a + (b + (c + (d + e)));
    assert s[|a|..] == b + (c + (d + e));
    assert s[|a| + |b|..] == c + (d + e);
  }

  lemma Regroup(a: Bytes, b: Bytes, c: Bytes, d: Bytes, e: Bytes, f: Bytes, g: Bytes, h: Bytes, x: Bytes)
    ensures a + (b + (c + (d + (e + (f + (g + (h + x))))))) ==
      (a + (b + (c + (d + (e + (f + (g + h))))))) + x
  {
    AppendAssoc(g, h, x);
    AppendAssoc(f, g + h, x);
    AppendAssoc(e, f + (g + h), x);
    AppendAssoc(d, e + (f + (g + h)), x);
    AppendAssoc(c, d + (e + (f + (g + h))), x);
    AppendAssoc(b, c + (d + (e + (f + (g + h)))), x);
    AppendAssoc(a, b + (c + (d + (e + (f + (g + h))))), x);
  }

  /** Concatenation regrouped, for loops that append one piece at a time. */
  lemma AppendAssoc<T>(a: seq<T>, b: seq<T>, c: seq<T>)
    ensures a + b + c == a + (b + c)
  {
  }
}
