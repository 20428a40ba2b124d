/**
 * The string operations of Python (and SQLite) that the core relies on:
 * whitespace as `str.isspace` sees it, `strip`, ASCII lowering, decimal
 * rendering of integers, whitespace splitting, joining, splitting on a
 * separator and code-point ordering.
 */
module Strings {

  /** Python's `str.isspace()` for one character (also what `\s` matches in a `str` pattern). */
  predicate IsSpace(c: char) {
    var n := c as int;
    (9 <= n <= 13) || (28 <= n <= 32) || n == 0x85 || n == 0xA0 || n == 0x1680
    || (0x2000 <= n <= 0x200A) || n == 0x2028 || n == 0x2029 || n == 0x202F
    || n == 0x205F || n == 0x3000
  }

  predicate AllSpace(s: string) {
    forall i :: 0 <= i < |s| ==> IsSpace(s[i])
  }

  lemma AllSpaceAppend(p: string, q: string)
    requires AllSpace(p) && AllSpace(q)
    ensures AllSpace(p + q)
  {
    forall i | 0 <= i < |p + q| ensures IsSpace((p + q)[i]) {
      if i >= |p| {
        assert (p + q)[i] == q[i - |p|];
      }
    }
  }

  /** True when `s` neither starts nor ends with whitespace. */
  predicate NoEdgeSpace(s: string) {
    s == [] || (!IsSpace(s[0]) && !IsSpace(s[|s| - 1]))
  }

  /** `str.lstrip()`: what is left is a suffix of `s` and what was dropped is whitespace. */
  function DropLeading(s: string): (r: string)
    ensures |r| <= |s| && r == s[|s| - |r|..]
    ensures AllSpace(s[..|s| - |r|])
    ensures r == [] || !IsSpace(r[0])
    decreases |s|
  {
    if s != [] && IsSpace(s[0]) then
      var r := DropLeading(s[1..]);
      assert s[1..][|s| - 1 - |r|..] == s[|s| - |r|..];
      assert s[..|s| - |r|] == [s[0]] + s[1..][..|s| - 1 - |r|];
      AllSpaceAppend([s[0]], s[1..][..|s| - 1 - |r|]);
      r
    else s
  }

  /** `str.rstrip()`: what is left is a prefix of `s` and what was dropped is whitespace. */
  function DropTrailing(s: string): (r: string)
    ensures |r| <= |s| && r == s[..|r|]
    ensures AllSpace(s[|r|..])
    ensures r == [] || !IsSpace(r[|r| - 1])
    decreases |s|
  {
    if s != [] && IsSpace(s[|s| - 1]) then
      var r := DropTrailing(s[..|s| - 1]);
      assert s[..|s| - 1][..|r|] == s[..|r|];
      assert s[|r|..] == s[..|s| - 1][|r|..] + [s[|s| - 1]];
      AllSpaceAppend(s[..|s| - 1][|r|..], [s[|s| - 1]]);
      r
    else s
  }

  /** `str.strip()`. */
  function Strip(s: string): (r: string)
    ensures |r| <= |s|
    ensures NoEdgeSpace(r)
  {
    DropTrailing(DropLeading(s))
  }

  /** A non-whitespace character of `s` survives `strip()`. */
  lemma StripNonSpace(s: string, i: nat) returns (j: nat)
    requires i < |s| && !IsSpace(s[i])
    ensures j < |Strip(s)| && Strip(s)[j] == s[i]
  {
    var d := DropLeading(s);
    var k := |s| - |d|;
    SpacesBefore(s, k);
    j := i - k;
    assert d[j] == s[i];
    var t := DropTrailing(d);
    SpacesAfter(d, |t|);
    assert t[j] == d[j];
  }

  lemma SpacesBefore(s: string, k: nat)
    requires k <= |s| && AllSpace(s[..k])
    ensures forall m :: 0 <= m < k ==> IsSpace(s[m])
  {
    forall m | 0 <= m < k ensures IsSpace(s[m]) {
      assert s[..k][m] == s[m];
    }
  }

  lemma SpacesAfter(s: string, k: nat)
    requires k <= |s| && AllSpace(s[k..])
    ensures forall m :: k <= m < |s| ==> IsSpace(s[m])
  {
    forall m | k <= m < |s| ensures IsSpace(s[m]) {
      assert s[k..][m - k] == s[m];
    }
  }

  lemma DropLeadingKeeps(s: string)
    requires s == [] || !IsSpace(s[0])
    ensures DropLeading(s) == s
  {
  }

  lemma DropTrailingKeeps(s: string)
    requires s == [] || !IsSpace(s[|s| - 1])
    ensures DropTrailing(s) == s
  {
  }

  /** A string without whitespace at its ends is its own strip. */
  lemma StripKeeps(s: string)
    requires NoEdgeSpace(s)
    ensures Strip(s) == s
  {
    DropLeadingKeeps(s);
    DropTrailingKeeps(s);
  }

  lemma StripIdempotent(s: string)
    ensures Strip(Strip(s)) == Strip(s)
  {
    StripKeeps(Strip(s));
  }

  lemma DropLeadingSpace(t: string)
    requires t != [] && IsSpace(t[0])
    ensures DropLeading(t) == DropLeading(t[1..])
  {
  }

  lemma DropTrailingSpace(t: string)
    requires t != [] && IsSpace(t[|t| - 1])
    ensures DropTrailing(t) == DropTrailing(t[..|t| - 1])
  {
  }

  lemma {:induction false} DropLeadingOfSpaces(p: string, s: string)
    requires AllSpace(p)
    ensures DropLeading(p + s) == DropLeading(s)
    decreases |p|
  {
    if p != [] {
      var t := p + s;
      assert t[0] == p[0] && IsSpace(p[0]);
      DropLeadingSpace(t);
      assert t[1..] == p[1..] + s;
      DropLeadingOfSpaces(p[1..], s);
    } else {
      assert p + s == s;
    }
  }

  lemma {:induction false} DropTrailingOfSpaces(s: string, q: string)
    requires AllSpace(q)
    ensures DropTrailing(s + q) == DropTrailing(s)
    decreases |q|
  {
    if q != [] {
      var t := s + q;
      assert t[|t| - 1] == q[|q| - 1] && IsSpace(q[|q| - 1]);
      DropTrailingSpace(t);
      assert t[..|t| - 1] == s + q[..|q| - 1];
      DropTrailingOfSpaces(s, q[..|q| - 1]);
    } else {
      assert s + q == s;
    }
  }

  lemma {:induction false} DropLeadingOfAllSpace(s: string)
    requires AllSpace(s)
    ensures DropLeading(s) == []
    decreases |s|
  {
    if s != [] {
      DropLeadingOfAllSpace(s[1..]);
    }
  }

  lemma {:induction false} DropLeadingNotAllSpace(v: string, q: string)
    requires !AllSpace(v)
    ensures DropLeading(v + q) == DropLeading(v) + q
    decreases |v|
  {
    if IsSpace(v[0]) {
      assert (v + q)[1..] == v[1..] + q;
      DropLeadingNotAllSpace(v[1..], q);
    }
  }

  /** Whitespace padding on either side disappears under `strip`. */
  lemma StripPadded(p: string, v: string, q: string)
    requires AllSpace(p) && AllSpace(q)
    ensures Strip(p + v + q) == Strip(v)
  {
    assert p + v + q == p + (v + q);
    DropLeadingOfSpaces(p, v + q);
    if AllSpace(v) {
      assert AllSpace(v + q);
      DropLeadingOfAllSpace(v + q);
      DropLeadingOfAllSpace(v);
    } else {
      DropLeadingNotAllSpace(v, q);
      DropTrailingOfSpaces(DropLeading(v), q);
    }
  }

  // ---------------------------------------------------------------------------
  // Lower case (ASCII only, as SQLite's lower() and LIKE fold case)

  function AsciiLower(c: char): (r: char)
    ensures 'A' <= c <= 'Z' ==> r as int == c as int + 32
    ensures !('A' <= c <= 'Z') ==> r == c
  {
    if 'A' <= c <= 'Z' then (c as int + 32) as char else c
  }

  function LowerAscii(s: string): (r: string)
    ensures |r| == |s|
    ensures forall i :: 0 <= i < |s| ==> r[i] == AsciiLower(s[i])
  {
    seq(|s|, i requires 0 <= i < |s| => AsciiLower(s[i]))
  }

  predicate IsDigit(c: char) {
    '0' <= c <= '9'
  }

  /** The characters that survive `re.sub(r'[^a-z0-9\s]', ' ', ...)` unchanged, whitespace aside. */
  predicate IsLowerAlnum(c: char) {
    ('a' <= c <= 'z') || IsDigit(c)
  }

  // ---------------------------------------------------------------------------
  // Decimal rendering of natural numbers

  function Pow10(k: nat): (r: nat)
    ensures r >= 1
  {
    if k == 0 then 1 else 10 * Pow10(k - 1)
  }

  function DigitChar(d: int): (c: char)
    requires 0 <= d < 10
    ensures IsDigit(c) && c as int - '0' as int == d
  {
    ('0' as int + d) as char
  }

  /** `str(n)` for a natural number: decimal digits without leading zeros. */
  function NatStr(n: nat): (r: string)
    ensures |r| >= 1
    ensures forall i :: 0 <= i < |r| ==> IsDigit(r[i])
    ensures n >= 10 ==> |r| >= 2
  {
    if n < 10 then [DigitChar(n)] else NatStr(n / 10) + [DigitChar(n % 10)]
  }

  /** `%0wd`: exactly `w` digits, the last `w` of `n` (zero padded). */
  function Padded(n: nat, w: nat): (r: string)
    ensures |r| == w
    ensures forall i :: 0 <= i < |r| ==> IsDigit(r[i])
  {
    if w == 0 then [] else Padded(n / 10, w - 1) + [DigitChar(n % 10)]
  }

  /** Distinct numbers have distinct renderings. */
  lemma {:induction false} NatStrInjective(a: nat, b: nat)
    requires NatStr(a) == NatStr(b)
    ensures a == b
  {
    var sa, sb := NatStr(a), NatStr(b);
    if a < 10 && b < 10 {
      assert sa[0] == DigitChar(a) && sb[0] == DigitChar(b);
    } else if a >= 10 && b >= 10 {
      assert sa[|sa| - 1] == DigitChar(a % 10) && sb[|sb| - 1] == DigitChar(b % 10);
      assert sa[..|sa| - 1] == NatStr(a / 10) && sb[..|sb| - 1] == NatStr(b / 10);
      NatStrInjective(a / 10, b / 10);
    }
  }

  /** Below `10^w`, the `w`-digit renderings are distinct. */
  lemma {:induction false} PaddedInjective(a: nat, b: nat, w: nat)
    requires a < Pow10(w) && b < Pow10(w)
    requires Padded(a, w) == Padded(b, w)
    ensures a == b
  {
    if w > 0 {
      var sa, sb := Padded(a, w), Padded(b, w);
      assert sa[w - 1] == DigitChar(a % 10) && sb[w - 1] == DigitChar(b % 10);
      assert sa[..w - 1] == Padded(a / 10, w - 1) && sb[..w - 1] == Padded(b / 10, w - 1);
      assert a / 10 < Pow10(w - 1) && b / 10 < Pow10(w - 1);
      PaddedInjective(a / 10, b / 10, w - 1);
    }
  }

  // ---------------------------------------------------------------------------
  // Whitespace splitting and joining

  /** A token of `str.split()`: non-empty and free of whitespace. */
  predicate IsWord(w: string) {
    |w| > 0 && forall i :: 0 <= i < |w| ==> !IsSpace(w[i])
  }

  /** The length of the run of non-whitespace characters at the start of `s`. */
  function WordLen(s: string): (n: nat)
    ensures n <= |s|
    ensures forall i :: 0 <= i < n ==> !IsSpace(s[i])
    ensures n < |s| ==> IsSpace(s[n])
  {
    if s == [] || IsSpace(s[0]) then 0 else 1 + WordLen(s[1..])
  }

  /** `str.split()` without arguments: the maximal whitespace-free runs, in order. */
  function Words(s: string): seq<string>
    decreases |s|
  {
    if s == [] then []
    else if IsSpace(s[0]) then Words(s[1..])
    else
      var n := WordLen(s);
      [s[..n]] + Words(s[n..])
  }

  /** Every word is non-empty, free of whitespace and made of characters of `s`. */
  lemma {:induction false} WordsShape(s: string)
    ensures forall w :: w in Words(s) ==> IsWord(w) && (forall i :: 0 <= i < |w| ==> w[i] in s)
    decreases |s|
  {
    if s != [] {
      if IsSpace(s[0]) {
        WordsShape(s[1..]);
        assert forall c :: c in s[1..] ==> c in s;
      } else {
        var n := WordLen(s);
        WordsShape(s[n..]);
        assert forall c :: c in s[..n] ==> c in s;
        assert forall c :: c in s[n..] ==> c in s;
      }
    }
  }

  /** Appending text that starts with whitespace does not lengthen a word that already ends inside `x`. */
  lemma {:induction false} WordLenAppend(x: string, z: string)
    requires z == [] || IsSpace(z[0]) || WordLen(x) < |x|
    ensures WordLen(x + z) == WordLen(x)
    decreases |x|
  {
    if x == [] {
      assert x + z == z;
    } else {
      assert (x + z)[0] == x[0] && (x + z)[1..] == x[1..] + z;
      if !IsSpace(x[0]) {
        WordLenAppend(x[1..], z);
      }
    }
  }

  /** Whitespace is a token boundary: splitting at a space splits the words. */
  lemma {:induction false} WordsAppendSpace(x: string, y: string)
    ensures Words(x + " " + y) == Words(x) + Words(y)
    decreases |x|
  {
    var s := x + " " + y;
    if x == [] {
      assert s == " " + y && s[1..] == y;
    } else if IsSpace(x[0]) {
      assert s[0] == x[0] && s[1..] == x[1..] + " " + y;
      WordsAppendSpace(x[1..], y);
    } else {
      WordsAppendSpace(x[WordLen(x)..], y);
      WordsAppendSpaceWord(x, y);
    }
  }

  lemma WordsOfWordPrefix(x: string, z: string)
    requires x != [] && !IsSpace(x[0])
    requires z == [] || IsSpace(z[0]) || WordLen(x) < |x|
    ensures Words(x + z) == [x[..WordLen(x)]] + Words(x[WordLen(x)..] + z)
  {
    var n := WordLen(x);
    WordLenAppend(x, z);
    var s := x + z;
    assert s != [] && s[0] == x[0] && WordLen(s) == n;
    assert Words(s) == [s[..n]] + Words(s[n..]);
    AppendSlices(x, z, n);
  }

  lemma AppendSlices(x: string, z: string, n: nat)
    requires n <= |x|
    ensures (x + z)[..n] == x[..n] && (x + z)[n..] == x[n..] + z
  {
  }

  lemma WordsAppendSpaceWord(x: string, y: string)
    requires x != [] && !IsSpace(x[0])
    requires Words(x[WordLen(x)..] + " " + y) == Words(x[WordLen(x)..]) + Words(y)
    ensures Words(x + " " + y) == Words(x) + Words(y)
  {
    var n := WordLen(x);
    var a, b := x[..n], x[n..];
    WordsFirstBeforeSpace(x, y);
    WordsFirst(x);
    var wb, wy := Words(b), Words(y);
    assert [a] + (wb + wy) == [a] + wb + wy;
  }

  lemma WordsFirst(x: string)
    requires x != [] && !IsSpace(x[0])
    ensures Words(x) == [x[..WordLen(x)]] + Words(x[WordLen(x)..])
  {
  }

  lemma WordsFirstBeforeSpace(x: string, y: string)
    requires x != [] && !IsSpace(x[0])
    ensures Words(x + " " + y) == [x[..WordLen(x)]] + Words(x[WordLen(x)..] + " " + y)
  {
    var b := x[WordLen(x)..];
    WordsOfWordPrefix(x, " " + y);
    assert x + " " + y == x + (" " + y);
    assert b + (" " + y) == b + " " + y;
  }

  /** `sep.join(parts)`. */
  function JoinWith(parts: seq<string>, sep: string): string {
    if |parts| == 0 then ""
    else if |parts| == 1 then parts[0]
    else parts[0] + sep + JoinWith(parts[1..], sep)
  }

  lemma {:induction false} WordLenOfWord(t: string, rest: string)
    requires forall i :: 0 <= i < |t| ==> !IsSpace(t[i])
    requires rest == [] || IsSpace(rest[0])
    ensures WordLen(t + rest) == |t|
    decreases |t|
  {
    if t != [] {
      assert (t + rest)[1..] == t[1..] + rest;
      WordLenOfWord(t[1..], rest);
    }
  }

  /** Splitting a space-joined list of words gives the words back. */
  lemma {:induction false} WordsOfJoin(toks: seq<string>)
    requires forall k :: 0 <= k < |toks| ==> IsWord(toks[k])
    ensures Words(JoinWith(toks, " ")) == toks
    decreases |toks|
  {
    if |toks| == 1 {
      var t := toks[0];
      WordLenOfWord(t, []);
      assert t + [] == t;
      assert t[..|t|] == t && t[|t|..] == [];
    } else if |toks| > 1 {
      var t := toks[0];
      var r := JoinWith(toks[1..], " ");
      var s := t + " " + r;
      assert s == t + (" " + r);
      WordLenOfWord(t, " " + r);
      assert s[..|t|] == t;
      assert s[|t|..] == " " + r;
      assert (" " + r)[1..] == r;
      WordsOfJoin(toks[1..]);
    }
  }

  /** A space-joined list of words is empty exactly when the list is, and has no whitespace at its ends. */
  lemma {:induction false} JoinOfWordsShape(toks: seq<string>)
    requires forall k :: 0 <= k < |toks| ==> IsWord(toks[k])
    ensures (JoinWith(toks, " ") == []) == (toks == [])
    ensures NoEdgeSpace(JoinWith(toks, " "))
    ensures toks != [] ==> JoinWith(toks, " ")[0] == toks[0][0]
    decreases |toks|
  {
    if |toks| > 1 {
      JoinOfWordsShape(toks[1..]);
    }
  }

  /** Non-empty parts without edge whitespace, joined by spaces, give a string of the same kind (empty iff no parts). */
  lemma {:induction false} JoinOfStrippedShape(parts: seq<string>)
    requires forall k :: 0 <= k < |parts| ==> parts[k] != "" && NoEdgeSpace(parts[k])
    ensures (JoinWith(parts, " ") == []) == (parts == [])
    ensures NoEdgeSpace(JoinWith(parts, " "))
    decreases |parts|
  {
    if |parts| > 1 {
      JoinOfStrippedShape(parts[1..]);
      var t, r := parts[0], JoinWith(parts[1..], " ");
      var j := t + " " + r;
      assert j[0] == t[0] && j[|j| - 1] == r[|r| - 1];
    }
  }

  /** Every character of a space-joined list of words is a space or a character of one of the words. */
  lemma {:induction false} JoinOfWordsChars(toks: seq<string>, P: char -> bool)
    requires forall k, i :: 0 <= k < |toks| && 0 <= i < |toks[k]| ==> P(toks[k][i])
    requires P(' ')
    ensures forall i :: 0 <= i < |JoinWith(toks, " ")| ==> P(JoinWith(toks, " ")[i])
    decreases |toks|
  {
    if |toks| > 1 {
      JoinOfWordsChars(toks[1..], P);
      var t, r := toks[0], JoinWith(toks[1..], " ");
      forall i | 0 <= i < |t + " " + r| ensures P((t + " " + r)[i]) {
        if i < |t| {
          assert (t + " " + r)[i] == toks[0][i];
        } else if i > |t| {
          assert (t + " " + r)[i] == r[i - |t| - 1];
        }
      }
    }
  }

  // ---------------------------------------------------------------------------
  // Splitting on a separator character: `s.split(sep)`

  function IndexOf(s: string, c: char): (i: nat)
    ensures i <= |s|
    ensures i < |s| ==> s[i] == c
    ensures forall k :: 0 <= k < i ==> s[k] != c
  {
    if s == [] then 0 else if s[0] == c then 0 else 1 + IndexOf(s[1..], c)
  }

  /** `s.split(sep)` for a one-character separator: keeps empty parts, at least one part. */
  function SplitOn(s: string, sep: char): (r: seq<string>)
    ensures |r| >= 1
    decreases |s|
  {
    var i := IndexOf(s, sep);
    if i == |s| then [s] else [s[..i]] + SplitOn(s[i + 1..], sep)
  }

  /** No part holds the separator, and there is one part exactly when the separator does not occur. */
  lemma {:induction false} SplitOnParts(s: string, sep: char)
    ensures forall k :: 0 <= k < |SplitOn(s, sep)| ==> sep !in SplitOn(s, sep)[k]
    ensures (|SplitOn(s, sep)| == 1) == (sep !in s)
    decreases |s|
  {
    var i := IndexOf(s, sep);
    if i < |s| {
      var rest := SplitOn(s[i + 1..], sep);
      SplitOnParts(s[i + 1..], sep);
      var r := SplitOn(s, sep);
      assert r == [s[..i]] + rest;
      assert sep !in s[..i];
      forall k | 0 <= k < |r| ensures sep !in r[k] {
        if k > 0 {
          assert r[k] == rest[k - 1];
        }
      }
    }
  }

  /** Joining the parts with the separator gives the string back. */
  lemma {:induction false} SplitOnJoin(s: string, sep: char)
    ensures JoinWith(SplitOn(s, sep), [sep]) == s
    decreases |s|
  {
    var i := IndexOf(s, sep);
    if i < |s| {
      SplitOnJoin(s[i + 1..], sep);
      JoinCons(s[..i], SplitOn(s[i + 1..], sep), [sep]);
      assert s == s[..i] + [sep] + s[i + 1..];
    }
  }

  lemma JoinCons(a: string, rest: seq<string>, sep: string)
    requires |rest| >= 1
    ensures JoinWith([a] + rest, sep) == a + sep + JoinWith(rest, sep)
  {
    assert ([a] + rest)[1..] == rest;
  }

  // ---------------------------------------------------------------------------
  // Code-point (lexicographic) order, as Python compares `str` and SQLite's BINARY collation orders

  predicate LexLe(a: string, b: string)
    decreases |a|
  {
    a == [] || (b != [] && (a[0] < b[0] || (a[0] == b[0] && LexLe(a[1..], b[1..]))))
  }

  lemma {:induction false} LexLeTotal(a: string, b: string)
    ensures LexLe(a, b) || LexLe(b, a)
    decreases |a|
  {
    if a != [] && b != [] && a[0] == b[0] {
      LexLeTotal(a[1..], b[1..]);
    }
  }

  lemma {:induction false} LexLeTransitive(a: string, b: string, c: string)
    requires LexLe(a, b) && LexLe(b, c)
    ensures LexLe(a, c)
    decreases |a|
  {
    if a != [] && b != [] && c != [] && a[0] == b[0] == c[0] {
      LexLeTransitive(a[1..], b[1..], c[1..]);
    }
  }

  lemma {:induction false} LexLeAntisymmetric(a: string, b: string)
    requires LexLe(a, b) && LexLe(b, a)
    ensures a == b
    decreases |a|
  {
    if a != [] {
      LexLeAntisymmetric(a[1..], b[1..]);
    }
  }
}
