/** The JavaScript string operations the modelled code relies on:
    `trim`, `split` on one character, `join`, `startsWith`, `endsWith`,
    `indexOf`, `toLowerCase` and the decimal `toString` of an integer. */
module Strings {

  /** Characters removed by `String.prototype.trim`: the white-space and
      line-terminator characters of ECMAScript. */
  predicate IsSpace(c: char) {
    c in SpaceChars || '\U{2000}' <= c <= '\U{200A}'
  }

  const SpaceChars: set<char> := {
    ' ', '\t', '\n', '\r', '\U{000B}', '\U{000C}', '\U{00A0}', '\U{1680}',
    '\U{2028}', '\U{2029}', '\U{202F}', '\U{205F}', '\U{3000}', '\U{FEFF}'
  }

  /** The index of the first non-space at or after `i`, or `|s|`. */
  function SkipSpaces(s: string, i: nat): (j: nat)
    requires i <= |s|
    ensures i <= j <= |s|
    ensures forall k :: i <= k < j ==> IsSpace(s[k])
    ensures j < |s| ==> !IsSpace(s[j])
    decreases |s| - i
  {
    if i < |s| && IsSpace(s[i]) then SkipSpaces(s, i + 1) else i
  }

  /** The index just past the last non-space of `s[lo..j]`, or `lo`. */
  function SkipSpacesBack(s: string, lo: nat, j: nat): (k: nat)
    requires lo <= j <= |s|
    ensures lo <= k <= j
    ensures forall m :: k <= m < j ==> IsSpace(s[m])
    ensures k > lo ==> !IsSpace(s[k - 1])
  {
    if j > lo && IsSpace(s[j - 1]) then SkipSpacesBack(s, lo, j - 1) else j
  }

  /** `s.trim()`: the longest infix of `s` that neither starts nor ends with
      white space, found by skipping the white space at both ends. */
  function Trim(s: string): (r: string)
    ensures r == [] || (!IsSpace(r[0]) && !IsSpace(r[|r| - 1]))
    ensures |r| <= |s|
  {
    var lo := SkipSpaces(s, 0);
    s[lo..SkipSpacesBack(s, lo, |s|)]
  }

  /** Only white space is removed: the trimmed string is the original with
      white space before and after it. */
  lemma TrimInfix(s: string)
    ensures exists lo, hi :: (0 <= lo <= hi <= |s| && Trim(s) == s[lo..hi]
      && (forall k :: 0 <= k < lo ==> IsSpace(s[k]))
      && (forall k :: hi <= k < |s| ==> IsSpace(s[k])))
  {
    var lo := SkipSpaces(s, 0);
    var hi := SkipSpacesBack(s, lo, |s|);
    assert Trim(s) == s[lo..hi];
  }

  /** A trimmed string holds only characters of the original. */
  lemma TrimWithin(s: string, x: char)
    requires x in Trim(s)
    ensures x in s
  {
    var lo := SkipSpaces(s, 0);
    var hi := SkipSpacesBack(s, lo, |s|);
    var i :| 0 <= i < hi - lo && s[lo..hi][i] == x;
    assert s[lo + i] == x;
  }

  /** A string that already starts and ends with a non-space is its own trim. */
  lemma TrimOfTrimmed(s: string)
    requires s == [] || (!IsSpace(s[0]) && !IsSpace(s[|s| - 1]))
    ensures Trim(s) == s
  {
  }

  /** `s.split(sep)` for a one-character separator: the pieces between the
      occurrences of `sep`, always at least one. */
  function Split(s: string, sep: char): (r: seq<string>)
    ensures |r| >= 1
    ensures forall i :: 0 <= i < |r| ==> sep !in r[i]
    ensures sep !in s ==> r == [s]
  {
    if sep !in s then [s]
    else
      var i := IndexOf(s, sep);
      [s[..i]] + Split(s[i + 1..], sep)
  }

  /** `parts.join(sep)` */
  function Join(parts: seq<string>, sep: string): (r: string)
  {
    if |parts| == 0 then ""
    else if |parts| == 1 then parts[0]
    else parts[0] + sep + Join(parts[1..], sep)
  }

  /** Splitting and joining back with the same separator gives the string back. */
  lemma {:induction false} JoinSplit(s: string, sep: char)
    ensures Join(Split(s, sep), [sep]) == s
  {
    if sep in s {
      var i := IndexOf(s, sep);
      var rest := Split(s[i + 1..], sep);
      SplitAtIndex(s, sep);
      JoinSplit(s[i + 1..], sep);
      JoinCons(s[..i], rest, [sep]);
      SliceAround(s, i);
    }
  }

  /** A string is the text before an index, the character there and the
      text after it. */
  lemma SliceAround(s: string, i: nat)
    requires i < |s|
    ensures s[..i] + [s[i]] + s[i + 1..] == s
  {
  }

  /** Joining a piece in front of at least one more puts the separator
      between them. */
  lemma JoinCons(a: string, rest: seq<string>, sep: string)
    requires |rest| >= 1
    ensures Join([a] + rest, sep) == a + sep + Join(rest, sep)
  {
    assert ([a] + rest)[1..] == rest;
  }

  /** Joining pieces that do not contain the separator and splitting again
      gives the pieces back. */
  lemma {:induction false} SplitJoin(parts: seq<string>, sep: char)
    requires |parts| >= 1
    requires forall i :: 0 <= i < |parts| ==> sep !in parts[i]
    ensures Split(Join(parts, [sep]), sep) == parts
  {
    if |parts| > 1 {
      var tail := Join(parts[1..], [sep]);
      var s := parts[0] + [sep] + tail;
      assert Join(parts, [sep]) == s;
      IndexOfPrefix(parts[0], sep, tail);
      assert s[..|parts[0]|] == parts[0];
      assert s[|parts[0]| + 1..] == tail;
      SplitJoin(parts[1..], sep);
    }
  }

  /** The index found after a separator-free prefix is the end of that prefix. */
  lemma IndexOfPrefix(p: string, sep: char, tail: string)
    requires sep !in p
    ensures sep in p + [sep] + tail
    ensures IndexOf(p + [sep] + tail, sep) == |p|
  {
    var s := p + [sep] + tail;
    assert s[|p|] == sep;
  }

  /** Splitting at a separator placed between two strings splits each of
      them on its own. */
  lemma {:induction false} SplitAppend(a: string, b: string, sep: char)
    ensures Split(a + [sep] + b, sep) == Split(a, sep) + Split(b, sep)
    decreases |a|
  {
    if sep !in a {
      SplitAtFree(a, b, sep);
    } else {
      var i := IndexOf(a, sep);
      var rest := a[i + 1..];
      calc {
        Split(a + [sep] + b, sep);
        { SplitAtFirst(a, b, sep); }
        [a[..i]] + Split(rest + [sep] + b, sep);
        { SplitAppend(rest, b, sep); }
        [a[..i]] + (Split(rest, sep) + Split(b, sep));
        { PiecesAssoc(a[..i], Split(rest, sep), Split(b, sep)); }
        [a[..i]] + Split(rest, sep) + Split(b, sep);
        { SplitAtIndex(a, sep); }
        Split(a, sep) + Split(b, sep);
      }
    }
  }

  lemma PiecesAssoc(h: string, x: seq<string>, y: seq<string>)
    ensures [h] + (x + y) == [h] + x + y
  {
  }

  /** The first piece ends at the first separator. */
  lemma SplitAtIndex(a: string, sep: char)
    requires sep in a
    ensures Split(a, sep) == [a[..IndexOf(a, sep)]] + Split(a[IndexOf(a, sep) + 1..], sep)
  {
  }

  /** A separator-free text before the separator is the first piece. */
  lemma SplitAtFree(a: string, b: string, sep: char)
    requires sep !in a
    ensures Split(a + [sep] + b, sep) == [a] + Split(b, sep)
  {
    var s := a + [sep] + b;
    IndexOfPrefix(a, sep, b);
    assert s[..|a|] == a && s[|a| + 1..] == b;
  }

  /** The first separator of `a` is the first separator of `a + sep + b`. */
  lemma SplitAtFirst(a: string, b: string, sep: char)
    requires sep in a
    ensures var i := IndexOf(a, sep);
      Split(a + [sep] + b, sep) == [a[..i]] + Split(a[i + 1..] + [sep] + b, sep)
  {
    var i := IndexOf(a, sep);
    var s := a + [sep] + b;
    FirstSeparator(a, b, sep);
    SplitAtIndex(s, sep);
    SamePieces(s[..IndexOf(s, sep)], s[IndexOf(s, sep) + 1..], a[..i], a[i + 1..] + [sep] + b, sep);
  }

  lemma SamePieces(x: string, y: string, x': string, y': string, sep: char)
    requires x == x' && y == y'
    ensures [x] + Split(y, sep) == [x'] + Split(y', sep)
  {
  }

  /** Where the first separator of `a + sep + b` is, and what lies on either
      side of it, when `a` holds one. */
  lemma FirstSeparator(a: string, b: string, sep: char)
    requires sep in a
    ensures var i := IndexOf(a, sep); var s := a + [sep] + b;
      && sep in s && IndexOf(s, sep) == i
      && s[..i] == a[..i] && s[i + 1..] == a[i + 1..] + [sep] + b
  {
    var i := IndexOf(a, sep);
    var x := [sep] + b;
    StringAssoc(a, [sep], b);
    IndexOfExtend(a, x, sep);
    SliceAppend(a, x, i);
    SliceAppend(a, x, i + 1);
    StringAssoc(a[i + 1..], [sep], b);
  }

  lemma StringAssoc(p: string, q: string, r: string)
    ensures p + (q + r) == p + q + r
  {
  }

  /** Slicing `a + x` at a point within `a`. */
  lemma SliceAppend(a: string, x: string, i: nat)
    requires i <= |a|
    ensures (a + x)[..i] == a[..i] && (a + x)[i..] == a[i..] + x
  {
  }

  /** The first occurrence in a prefix is the first occurrence overall. */
  lemma {:induction false} IndexOfExtend(a: string, x: string, c: char)
    requires c in a
    ensures c in a + x && IndexOf(a + x, c) == IndexOf(a, c)
    decreases |a|
  {
    assert (a + x)[0] == a[0];
    if a[0] != c {
      assert a == [a[0]] + a[1..];
      assert c in a[1..];
      assert (a + x)[1..] == a[1..] + x;
      IndexOfExtend(a[1..], x, c);
    }
  }

  /** `s.indexOf(c)` for a character known to occur. */
  function IndexOf(s: string, c: char): (i: nat)
    requires c in s
    ensures i < |s| && s[i] == c && c !in s[..i]
  {
    if s[0] == c then 0 else 1 + IndexOf(s[1..], c)
  }

  /** `s.indexOf(c)`, -1 when absent. */
  function IndexOfOrMinus(s: string, c: char): (i: int)
    ensures i == -1 <==> c !in s
    ensures i != -1 ==> 0 <= i < |s| && s[i] == c && c !in s[..i]
  {
    if c in s then IndexOf(s, c) else -1
  }

  predicate StartsWith(s: string, prefix: string) {
    |prefix| <= |s| && s[..|prefix|] == prefix
  }

  predicate EndsWith(s: string, suffix: string) {
    |suffix| <= |s| && s[|s| - |suffix|..] == suffix
  }

  /** `s.indexOf(sub) != -1` */
  predicate Contains(s: string, sub: string) {
    exists i :: 0 <= i <= |s| - |sub| && s[i..][..|sub|] == sub
  }

  /** `s.toLowerCase()`, on the ASCII letters. */
  function ToLowerAscii(s: string): (r: string)
    ensures |r| == |s|
    ensures forall i :: 0 <= i < |s| ==> r[i] == LowerChar(s[i])
  {
    if |s| == 0 then "" else [LowerChar(s[0])] + ToLowerAscii(s[1..])
  }

  function LowerChar(c: char): char {
    if 'A' <= c <= 'Z' then (c as int + 32) as char else c
  }

  function DigitChar(d: nat): (c: char)
    requires d < 10
    ensures '0' <= c <= '9'
  {
    ('0' as int + d) as char
  }

  /** Decimal digits of a natural number, without leading zeros. */
  function NatToString(n: nat): (r: string)
    ensures |r| >= 1
    ensures forall i :: 0 <= i < |r| ==> '0' <= r[i] <= '9'
    ensures r[0] == '0' ==> n == 0
  {
    if n < 10 then [DigitChar(n)] else NatToString(n / 10) + [DigitChar(n % 10)]
  }

  /** `n.toString()` for an integer. */
  function IntToString(n: int): (r: string)
    ensures |r| >= 1
  {
    if n < 0 then "-" + NatToString(-n) else NatToString(n)
  }

  /** The value of a string of decimal digits. */
  function DigitsValue(s: string): nat
    requires forall i :: 0 <= i < |s| ==> '0' <= s[i] <= '9'
  {
    if |s| == 0 then 0 else 10 * DigitsValue(s[..|s| - 1]) + (s[|s| - 1] as int - '0' as int)
  }

  /** Reading the digits back gives the number: the decimal form is faithful. */
  lemma {:induction false} NatToStringValue(n: nat)
    ensures DigitsValue(NatToString(n)) == n
  {
    if n >= 10 {
      NatToStringValue(n / 10);
      var r := NatToString(n);
      assert r[..|r| - 1] == NatToString(n / 10);
    }
  }
}
