/**
 * The selection step of the interactive review (`handle_review`,
 * src/finanseer/__main__.py): Python's `int()` on the user's text, the
 * parsing of "1,2,5-7" into a set of 0-based indices, and the list of
 * transactions those indices pick.
 */
module Selection {
  import opened Wrappers
  import opened Strings
  import opened Sorting

  // ---------------------------------------------------------------------------
  // Python's int() on a decimal string

  /**
   * The whitespace `int()` skips around the number: every `str.isspace`
   * character except U+001C-U+001F, which CPython neither maps to a space
   * nor skips, so that `int()` rejects them while `strip()` removes them.
   */
  predicate IsIntSpace(c: char) {
    IsSpace(c) && !(28 <= c as int <= 31)
  }

  predicate AllIntSpace(s: string) {
    forall i :: 0 <= i < |s| ==> IsIntSpace(s[i])
  }

  /** True when `s` neither starts nor ends with whitespace that `int()` skips. */
  predicate NoEdgeIntSpace(s: string) {
    s == [] || (!IsIntSpace(s[0]) && !IsIntSpace(s[|s| - 1]))
  }

  /** `sys.int_info.default_max_str_digits`: longer decimal numerals raise `ValueError`. */
  const MaxStrDigits := 4300

  function DigitValue(c: char): nat {
    if IsDigit(c) then c as int - '0' as int else 0
  }

  /** `digit (["_"] digit)*`: digits, with single underscores between them. */
  predicate DigitPart(s: string)
    decreases |s|
  {
    && |s| >= 1 && IsDigit(s[|s| - 1])
    && (|s| == 1 || DigitPart(s[..|s| - 1]) || (s[|s| - 2] == '_' && DigitPart(s[..|s| - 2])))
  }

  /** The value of a digit string, underscores skipped. */
  function DigitsValue(s: string): nat
    decreases |s|
  {
    if s == [] then 0
    else if s[|s| - 1] == '_' then DigitsValue(s[..|s| - 1])
    else 10 * DigitsValue(s[..|s| - 1]) + DigitValue(s[|s| - 1])
  }

  /** The number of digits the length limit counts: underscores are not counted, leading zeros are. */
  function DigitCount(s: string): nat
    decreases |s|
  {
    if s == [] then 0
    else DigitCount(s[..|s| - 1]) + (if s[|s| - 1] == '_' then 0 else 1)
  }

  /** `int()` on the digits after the sign: None when malformed or over the length limit. */
  function DigitsOf(d: string): Option<nat> {
    if DigitPart(d) && DigitCount(d) <= MaxStrDigits then Some(DigitsValue(d)) else None
  }

  /** `int()` on a string without surrounding whitespace: an optional sign, then the digits. */
  function ParseStripped(t: string): Option<int> {
    if |t| >= 1 && (t[0] == '+' || t[0] == '-') then
      match DigitsOf(t[1..])
      case Some(v) => Some(if t[0] == '-' then -(v as int) else v)
      case None => None
    else
      match DigitsOf(t)
      case Some(v) => Some(v)
      case None => None
  }

  /**
   * `int(s)`: surrounding whitespace is ignored, then an optional sign and
   * decimal digits; anything else raises `ValueError` (None).
   */
  function ParseInt(s: string): Option<int>
    decreases |s|
  {
    if s != [] && IsIntSpace(s[0]) then ParseInt(s[1..])
    else if s != [] && IsIntSpace(s[|s| - 1]) then ParseInt(s[..|s| - 1])
    else ParseStripped(s)
  }

  /** Skipped whitespace at the front is peeled first. */
  lemma PeelFront(w: string)
    requires w != [] && IsIntSpace(w[0])
    ensures ParseInt(w) == ParseInt(w[1..])
  {
  }

  /** Then skipped whitespace at the back. */
  lemma PeelBack(w: string)
    requires w != [] && !IsIntSpace(w[0]) && IsIntSpace(w[|w| - 1])
    ensures ParseInt(w) == ParseInt(w[..|w| - 1])
  {
  }

  /** With none left at either end, the number itself is parsed. */
  lemma PeelNone(w: string)
    requires NoEdgeIntSpace(w)
    ensures ParseInt(w) == ParseStripped(w)
  {
  }

  lemma {:induction false} PeelPrefix(p: string, r: string)
    requires AllIntSpace(p)
    ensures ParseInt(p + r) == ParseInt(r)
    decreases |p|
  {
    if p != [] {
      var w := p + r;
      assert w[0] == p[0];
      PeelFront(w);
      assert w[1..] == p[1..] + r;
      PeelPrefix(p[1..], r);
    } else {
      assert p + r == r;
    }
  }

  lemma {:induction false} PeelSuffix(s: string, q: string)
    requires s != [] && !IsIntSpace(s[0]) && AllIntSpace(q)
    ensures ParseInt(s + q) == ParseInt(s)
    decreases |q|
  {
    if q != [] {
      var w := s + q;
      assert w[0] == s[0] && w[|w| - 1] == q[|q| - 1];
      PeelBack(w);
      assert w[..|w| - 1] == s + q[..|q| - 1];
      PeelSuffix(s, q[..|q| - 1]);
    } else {
      assert s + q == s;
    }
  }

  /** Whitespace that `int()` skips may surround the number on either side. */
  lemma ParseIntSurrounded(p: string, s: string, q: string)
    requires AllIntSpace(p) && AllIntSpace(q) && NoEdgeIntSpace(s)
    ensures ParseInt(p + s + q) == ParseStripped(s)
  {
    assert p + s + q == p + (s + q);
    PeelPrefix(p, s + q);
    if s == [] {
      assert s + q == q + [];
      PeelPrefix(q, []);
    } else {
      PeelSuffix(s, q);
    }
    PeelNone(s);
  }

  /** Every string is skipped whitespace, a middle without any at its edges, and skipped whitespace. */
  lemma IntSpaceSplit(s: string) returns (i: nat, j: nat)
    ensures i <= j <= |s|
    ensures AllIntSpace(s[..i]) && AllIntSpace(s[j..]) && NoEdgeIntSpace(s[i..j])
  {
    i := 0;
    while i < |s| && IsIntSpace(s[i])
      invariant i <= |s| && forall m :: 0 <= m < i ==> IsIntSpace(s[m])
    {
      i := i + 1;
    }
    j := |s|;
    while j > i && IsIntSpace(s[j - 1])
      invariant i <= j <= |s| && forall m :: j <= m < |s| ==> IsIntSpace(s[m])
    {
      j := j - 1;
    }
    assert forall m :: 0 <= m < i ==> s[..i][m] == s[m];
    assert forall m :: 0 <= m < |s| - j ==> s[j..][m] == s[j + m];
    if i < j {
      assert s[i..j][0] == s[i] && s[i..j][j - i - 1] == s[j - 1];
    }
  }

  /**
   * `int()` ignores the whitespace it skips at both ends: it parses the
   * middle `s[i..j]`, which has none at its edges, alone.
   */
  lemma ParseIntStrip(s: string) returns (i: nat, j: nat)
    ensures i <= j <= |s|
    ensures AllIntSpace(s[..i]) && AllIntSpace(s[j..]) && NoEdgeIntSpace(s[i..j])
    ensures ParseInt(s) == ParseStripped(s[i..j])
  {
    i, j := IntSpaceSplit(s);
    assert s == s[..i] + s[i..j] + s[j..];
    ParseIntSurrounded(s[..i], s[i..j], s[j..]);
  }

  lemma {:induction false} DigitsValueNatStr(n: nat)
    ensures DigitsValue(NatStr(n)) == n
    decreases n
  {
    if n >= 10 {
      var s := NatStr(n);
      assert s[..|s| - 1] == NatStr(n / 10);
      DigitsValueNatStr(n / 10);
    }
  }

  lemma {:induction false} NatStrDigitPart(n: nat)
    ensures DigitPart(NatStr(n)) && NoEdgeIntSpace(NatStr(n))
    decreases n
  {
    var s := NatStr(n);
    assert IsDigit(s[0]) && IsDigit(s[|s| - 1]);
    if n >= 10 {
      assert s[..|s| - 1] == NatStr(n / 10);
      NatStrDigitPart(n / 10);
    }
  }

  /** Without underscores every character is a counted digit. */
  lemma {:induction false} DigitCountNoUnderscore(s: string)
    requires '_' !in s
    ensures DigitCount(s) == |s|
    decreases |s|
  {
    if s != [] {
      assert s[|s| - 1] in s;
      assert forall c :: c in s[..|s| - 1] ==> c in s;
      DigitCountNoUnderscore(s[..|s| - 1]);
    }
  }

  lemma DigitCountNatStr(n: nat)
    ensures DigitCount(NatStr(n)) == |NatStr(n)|
  {
    var s := NatStr(n);
    assert '_' !in s by {
      assert forall i :: 0 <= i < |s| ==> IsDigit(s[i]);
    }
    DigitCountNoUnderscore(s);
  }

  /** A character other than a digit or an underscore spoils a digit part. */
  lemma {:induction false} NotDigitPart(x: string, j: nat)
    requires j < |x| && !IsDigit(x[j]) && x[j] != '_'
    ensures !DigitPart(x)
    decreases |x|
  {
    if j < |x| - 1 {
      NotDigitPart(x[..|x| - 1], j);
      if j < |x| - 2 {
        NotDigitPart(x[..|x| - 2], j);
      }
    }
  }

  /** Whether `int()` accepts the numeral `str(n)`: only when it is within the length limit. */
  function NatResult(n: nat): Option<int> {
    if |NatStr(n)| <= MaxStrDigits then Some(n) else None
  }

  lemma ParseStrippedNatStr(n: nat)
    ensures ParseStripped(NatStr(n)) == NatResult(n)
  {
    NatStrDigitPart(n);
    DigitsValueNatStr(n);
    DigitCountNatStr(n);
  }

  /**
   * `int(str(n)) == n`, with whitespace that `int()` skips around the
   * digits, as long as the numeral is within the length limit; a longer one
   * raises `ValueError`, although it is well formed.
   */
  lemma ParseIntNatStr(n: nat, p: string, q: string)
    requires AllIntSpace(p) && AllIntSpace(q)
    ensures ParseInt(p + NatStr(n) + q) == NatResult(n)
  {
    NatStrDigitPart(n);
    ParseIntSurrounded(p, NatStr(n), q);
    ParseStrippedNatStr(n);
  }

  /**
   * A unit separator (U+001F) in front of the digits makes `int()` fail,
   * although `strip()` removes it.
   */
  lemma UnitSeparatorRejected(n: nat)
    ensures Strip("\U{1F}" + NatStr(n)) == NatStr(n)
    ensures ParseInt("\U{1F}" + NatStr(n)) == None
  {
    var s := NatStr(n);
    assert NoEdgeSpace(s) by {
      assert IsDigit(s[0]) && IsDigit(s[|s| - 1]);
    }
    UnitSeparatorStripped(s);
    UnitSeparatorNotInt(NatStr(n));
  }

  lemma UnitSeparatorStripped(s: string)
    requires NoEdgeSpace(s)
    ensures Strip("\U{1F}" + s) == s
  {
    var t := "\U{1F}" + s;
    assert t[0] as int == 31 && t[1..] == s;
    DropLeadingSpace(t);
    DropLeadingKeeps(s);
    DropTrailingKeeps(s);
  }

  lemma UnitSeparatorNotInt(s: string)
    requires |s| >= 1 && forall i :: 0 <= i < |s| ==> IsDigit(s[i])
    ensures ParseInt("\U{1F}" + s) == None
  {
    var t := "\U{1F}" + s;
    assert t[|t| - 1] == s[|s| - 1];
    assert !IsIntSpace(t[0]) && !IsIntSpace(t[|t| - 1]);
    NotDigitPart(t, 0);
  }

  lemma ParseStrippedSigned(n: nat)
    ensures ParseStripped("+" + NatStr(n)) == NatResult(n)
    ensures ParseStripped("-" + NatStr(n)) == if |NatStr(n)| <= MaxStrDigits then Some(-(n as int)) else None
  {
    var s := NatStr(n);
    ParseStrippedNatStr(n);
    assert ("+" + s)[1..] == s && ("-" + s)[1..] == s;
  }

  /** A sign in front of the digits is honoured. */
  lemma ParseIntSigned(n: nat)
    ensures ParseInt("+" + NatStr(n)) == NatResult(n)
    ensures ParseInt("-" + NatStr(n)) == if |NatStr(n)| <= MaxStrDigits then Some(-(n as int)) else None
  {
    NatStrDigitPart(n);
    var s := NatStr(n);
    assert !IsIntSpace('+') && !IsIntSpace('-');
    assert ("+" + s)[|s|] == s[|s| - 1] && ("-" + s)[|s|] == s[|s| - 1];
    PeelNone("+" + s);
    PeelNone("-" + s);
    ParseStrippedSigned(n);
  }

  /** An empty or blank string is not a number, whatever whitespace it holds. */
  lemma {:induction false} ParseIntBlank(s: string)
    requires AllSpace(s)
    ensures ParseInt(s) == None
    decreases |s|
  {
    if s != [] && IsIntSpace(s[0]) {
      ParseIntBlank(s[1..]);
    } else if s != [] && IsIntSpace(s[|s| - 1]) {
      ParseIntBlank(s[..|s| - 1]);
    } else if s != [] {
      assert !IsDigit(s[|s| - 1]) && !DigitPart(s);
      assert s[0] != '+' && s[0] != '-';
    }
  }

  /** Without a minus sign, the number is not negative. */
  lemma ParseIntNoMinus(s: string)
    requires '-' !in s && ParseInt(s).Some?
    ensures ParseInt(s).value >= 0
  {
    var i, j := ParseIntStrip(s);
    var t := s[i..j];
    if |t| > 0 {
      assert t[0] == s[i];
    }
    ParseStrippedNoMinus(t);
  }

  lemma ParseStrippedNoMinus(t: string)
    requires |t| == 0 || t[0] != '-'
    ensures ParseStripped(t).Some? ==> ParseStripped(t).value >= 0
  {
  }

  /** A character other than a digit, a sign, an underscore or skipped whitespace makes `int()` fail. */
  lemma ParseIntRejects(s: string, k: nat)
    requires k < |s| && !IsDigit(s[k]) && !IsIntSpace(s[k]) && s[k] !in "+-_"
    ensures ParseInt(s) == None
  {
    var i, j := ParseIntStrip(s);
    forall m | 0 <= m < i ensures IsIntSpace(s[m]) {
      assert s[..i][m] == s[m];
    }
    forall m | j <= m < |s| ensures IsIntSpace(s[m]) {
      assert s[j..][m - j] == s[m];
    }
    assert s[i..j][k - i] == s[k];
    ParseStrippedRejects(s[i..j], k - i);
  }

  lemma ParseStrippedRejects(t: string, j: nat)
    requires j < |t| && !IsDigit(t[j]) && t[j] !in "+-_"
    ensures ParseStripped(t) == None
  {
    if |t| >= 1 && (t[0] == '+' || t[0] == '-') {
      assert j >= 1 && t[1..][j - 1] == t[j];
      NotDigitPart(t[1..], j - 1);
    } else {
      NotDigitPart(t, j);
    }
  }

  // ---------------------------------------------------------------------------
  // The selection: "1,2,5-7"

  /** `range(lo, hi)` as a set. */
  function RangeSet(lo: int, hi: int): (r: set<int>)
    ensures forall i :: i in r <==> lo <= i < hi
    decreases hi - lo
  {
    if lo >= hi then {} else RangeSet(lo, hi - 1) + {hi - 1}
  }

  /** The indices one comma-separated part contributes, or None when `int()` raises. */
  function PartIndices(part: string): Option<set<int>> {
    if '-' in part then
      var bounds := SplitOn(part, '-');
      if |bounds| != 2 then None
      else
        match (ParseInt(bounds[0]), ParseInt(bounds[1]))
        case (Some(start), Some(end)) => Some(RangeSet(start - 1, end))
        case _ => None
    else
      match ParseInt(part)
      case Some(n) => Some({n - 1})
      case None => None
  }

  /** The union of the parts' indices, or None as soon as one part fails. */
  function Union(ps: seq<Option<set<int>>>): Option<set<int>>
    decreases |ps|
  {
    if ps == [] then Some({})
    else
      match Union(ps[..|ps| - 1])
      case None => None
      case Some(s) =>
        match ps[|ps| - 1]
        case None => None
        case Some(p) => Some(s + p)
  }

  /** The union fails exactly when one part fails, and otherwise holds exactly the parts' indices. */
  lemma {:induction false} UnionSpec(ps: seq<Option<set<int>>>)
    ensures Union(ps).None? <==> exists k :: 0 <= k < |ps| && ps[k].None?
    ensures Union(ps).Some? ==> forall i ::
      i in Union(ps).value <==> exists k :: 0 <= k < |ps| && ps[k].Some? && i in ps[k].value
    decreases |ps|
  {
    if ps != [] {
      var init := ps[..|ps| - 1];
      UnionSpec(init);
      assert forall k :: 0 <= k < |init| ==> init[k] == ps[k];
    }
  }

  /** Once a prefix of the parts fails, the whole union fails. */
  lemma {:induction false} UnionFailed(ps: seq<Option<set<int>>>, n: nat)
    requires n <= |ps| && Union(ps[..n]).None?
    ensures Union(ps).None?
    decreases |ps| - n
  {
    if n < |ps| {
      assert ps[..n + 1][..n] == ps[..n];
      UnionFailed(ps, n + 1);
    } else {
      assert ps[..n] == ps;
    }
  }

  function PartsIndices(parts: seq<string>): (ps: seq<Option<set<int>>>)
    ensures |ps| == |parts|
    ensures forall k :: 0 <= k < |parts| ==> ps[k] == PartIndices(parts[k])
  {
    seq(|parts|, k requires 0 <= k < |parts| => PartIndices(parts[k]))
  }

  /** The indices selected by `user_input`, or None when `int()` raises. */
  function SelectionOf(userInput: string): Option<set<int>> {
    Union(PartsIndices(SplitOn(userInput, ',')))
  }

  /**
   * The selection fails exactly when one comma-separated part fails, and
   * otherwise holds exactly the indices some part contributes.
   */
  lemma SelectionOfSpec(userInput: string, parts: seq<string>)
    requires parts == SplitOn(userInput, ',')
    ensures SelectionOf(userInput).None? <==> exists k :: 0 <= k < |parts| && PartIndices(parts[k]).None?
    ensures SelectionOf(userInput).Some? ==> forall i ::
      i in SelectionOf(userInput).value <==> exists k :: 0 <= k < |parts| && i in PartIndices(parts[k]).value
  {
    var ps := PartsIndices(parts);
    UnionSpec(ps);
    assert SelectionOf(userInput) == Union(ps);
    if Union(ps).None? {
      var k :| 0 <= k < |ps| && ps[k].None?;
      assert PartIndices(parts[k]).None?;
    } else {
      forall k | 0 <= k < |parts| ensures PartIndices(parts[k]).Some? {
        assert ps[k] == PartIndices(parts[k]);
      }
      forall i ensures i in Union(ps).value <==> exists k :: 0 <= k < |parts| && i in PartIndices(parts[k]).value {
        if i in Union(ps).value {
          var k :| 0 <= k < |ps| && ps[k].Some? && i in ps[k].value;
          assert i in PartIndices(parts[k]).value;
        }
      }
    }
  }

  /**
   * The parsing loop: `selected_indices` grows part by part; a part with a
   * dash is a range, any other part a single number.
   */
  method ParseSelection(userInput: string) returns (selected: Option<set<int>>)
    ensures selected == SelectionOf(userInput)
  {
    var parts := SplitOn(userInput, ',');
    ghost var ps := PartsIndices(parts);
    var indices: set<int> := {};
    for i := 0 to |parts|
      invariant Union(ps[..i]) == Some(indices)
    {
      assert ps[..i + 1][..i] == ps[..i];
      var partIndices := ParsePart(parts[i]);
      if partIndices.None? {
        UnionFailed(ps, i + 1);
        return None;
      }
      indices := indices + partIndices.value;
    }
    assert ps[..|parts|] == ps;
    selected := Some(indices);
  }

  /** The body of the parsing loop for one part: a part with a dash is a range, any other part a single number. */
  method ParsePart(part: string) returns (partIndices: Option<set<int>>)
    ensures partIndices == PartIndices(part)
  {
    if '-' in part {
      var bounds := SplitOn(part, '-');
      var start, end := None, None;
      if |bounds| == 2 {
        start, end := ParseInt(bounds[0]), ParseInt(bounds[1]);
      }
      if start.None? || end.None? {
        return None;
      }
      partIndices := Some(RangeSet(start.value - 1, end.value));
    } else {
      var n := ParseInt(part);
      if n.None? {
        return None;
      }
      partIndices := Some({n.value - 1});
    }
  }

  // ---------------------------------------------------------------------------
  // What single parts contribute

  lemma SplitOnAbsent(s: string, c: char)
    requires c !in s
    ensures SplitOn(s, c) == [s]
  {
  }

  lemma SplitOnFirst(x: string, c: char, y: string)
    requires c !in x
    ensures SplitOn(x + [c] + y, c) == [x] + SplitOn(y, c)
  {
    var s := x + [c] + y;
    assert s[|x|] == c;
    assert IndexOf(s, c) == |x|;
    assert s[..|x|] == x && s[|x| + 1..] == y;
  }

  lemma NatStrNoDash(n: nat)
    ensures '-' !in NatStr(n) && ',' !in NatStr(n)
  {
    var s := NatStr(n);
    assert forall i :: 0 <= i < |s| ==> IsDigit(s[i]);
  }

  lemma ParseIntOfNatStr(n: nat)
    ensures ParseInt(NatStr(n)) == NatResult(n)
  {
    ParseIntNatStr(n, "", "");
    assert "" + NatStr(n) + "" == NatStr(n);
  }

  /**
   * A part "a-b" contributes the indices a-1 through b-1, nothing when the
   * range is reversed; it raises only when a bound is over the length limit.
   */
  lemma RangePart(a: nat, b: nat)
    ensures var r := PartIndices(NatStr(a) + "-" + NatStr(b));
      && (r.Some? <==> |NatStr(a)| <= MaxStrDigits && |NatStr(b)| <= MaxStrDigits)
      && (r.Some? ==> forall i :: i in r.value <==> a - 1 <= i <= b - 1)
      && (r.Some? && b < a ==> r.value == {})
  {
    NatStrNoDash(a);
    NatStrNoDash(b);
    DashPart(NatStr(a), NatStr(b));
    ParseIntOfNatStr(a);
    ParseIntOfNatStr(b);
  }

  /** A part with one dash is the range between the two numbers around it. */
  lemma DashPart(x: string, y: string)
    requires '-' !in x && '-' !in y
    ensures PartIndices(x + "-" + y) ==
      if ParseInt(x).Some? && ParseInt(y).Some? then Some(RangeSet(ParseInt(x).value - 1, ParseInt(y).value))
      else None
  {
    SplitOnDash(x, y);
    SplitDashPart(x, y);
  }

  lemma SplitDashPart(x: string, y: string)
    requires SplitOn(x + "-" + y, '-') == [x, y]
    ensures PartIndices(x + "-" + y) ==
      if ParseInt(x).Some? && ParseInt(y).Some? then Some(RangeSet(ParseInt(x).value - 1, ParseInt(y).value))
      else None
  {
    var part := x + "-" + y;
    assert part[|x|] == '-';
    var bounds := SplitOn(part, '-');
    assert |bounds| == 2 && bounds[0] == x && bounds[1] == y;
  }

  lemma SplitOnDash(x: string, y: string)
    requires '-' !in x && '-' !in y
    ensures SplitOn(x + "-" + y, '-') == [x, y]
  {
    var part := x + "-" + y;
    assert part[|x|] == '-';
    SplitOnFirst(x, '-', y);
    SplitOnAbsent(y, '-');
  }

  /** A part "n" contributes the index n-1; so "0" contributes -1. */
  lemma SinglePart(n: nat)
    ensures PartIndices(NatStr(n)) == if |NatStr(n)| <= MaxStrDigits then Some({n - 1}) else None
  {
    NatStrNoDash(n);
    ParseIntOfNatStr(n);
  }

  /** An empty or blank part raises `ValueError`. */
  lemma BlankPart(part: string)
    requires AllSpace(part)
    ensures PartIndices(part) == None
  {
    assert '-' !in part by {
      assert forall i :: 0 <= i < |part| ==> IsSpace(part[i]);
    }
    ParseIntBlank(part);
  }

  /** A part with two dashes, such as "1-2-3", does not unpack into two bounds. */
  lemma TwoDashesPart(x: string, y: string, z: string)
    requires '-' !in x
    ensures PartIndices(x + "-" + y + "-" + z) == None
  {
    var rest := y + "-" + z;
    assert x + "-" + y + "-" + z == x + "-" + rest;
    assert rest[|y|] == '-';
    SplitOnFirst(x, '-', rest);
    SplitOnParts(rest, '-');
    assert (x + "-" + rest)[|x|] == '-';
  }

  /** A negative number is not accepted: "-n" splits into an empty start and n. */
  lemma NegativePart(n: nat)
    ensures PartIndices("-" + NatStr(n)) == None
  {
    NatStrNoDash(n);
    SplitOnFirst("", '-', NatStr(n));
    assert "" + "-" + NatStr(n) == "-" + NatStr(n);
    SplitOnAbsent(NatStr(n), '-');
    ParseIntBlank("");
  }

  /** No part contributes an index below -1: the numbers themselves cannot be negative. */
  lemma PartLowerBound(part: string)
    requires PartIndices(part).Some?
    ensures forall i :: i in PartIndices(part).value ==> i >= -1
  {
    if '-' in part {
      var bounds := SplitOn(part, '-');
      SplitOnParts(part, '-');
      ParseIntNoMinus(bounds[0]);
    } else {
      ParseIntNoMinus(part);
    }
  }

  /** Every selected index is at least -1. */
  lemma SelectionLowerBound(userInput: string)
    requires SelectionOf(userInput).Some?
    ensures forall i :: i in SelectionOf(userInput).value ==> i >= -1
  {
    var parts := SplitOn(userInput, ',');
    SelectionOfSpec(userInput, parts);
    forall i | i in SelectionOf(userInput).value ensures i >= -1 {
      var k :| 0 <= k < |parts| && i in PartIndices(parts[k]).value;
      PartLowerBound(parts[k]);
    }
  }

  /** A selection that is one part selects exactly what that part contributes. */
  lemma OnePartSelection(part: string)
    requires ',' !in part
    ensures SelectionOf(part) == PartIndices(part)
  {
    SplitOnAbsent(part, ',');
    var ps := PartsIndices([part]);
    assert ps[..0] == [] && ps[0] == PartIndices(part);
    assert Union(ps[..0]) == Some({});
    if ps[0].Some? {
      assert {} + ps[0].value == ps[0].value;
    }
  }

  /** "0" selects index -1. */
  lemma ZeroSelection()
    ensures SelectionOf("0") == Some({-1})
  {
    NatStrNoDash(0);
    assert NatStr(0) == "0";
    DigitCountNatStr(0);
    OnePartSelection("0");
    SinglePart(0);
  }

  // ---------------------------------------------------------------------------
  // The selected transactions

  lemma {:induction false} MinExists(s: set<int>)
    requires s != {}
    ensures exists m :: m in s && forall x :: x in s ==> m <= x
    decreases |s|
  {
    var y := Pick(s);
    var rest := s - {y};
    if rest != {} {
      MinExists(rest);
      var m :| m in rest && forall x :: x in rest ==> m <= x;
      var z := if y < m then y else m;
      assert forall x :: x in s ==> x == y || x in rest;
      assert z in s && forall x :: x in s ==> z <= x;
    } else {
      assert forall x :: x in s ==> x == y;
    }
  }

  /** Some element of a non-empty set. */
  ghost function Pick<T>(s: set<T>): (y: T)
    requires s != {}
    ensures y in s
  {
    var y :| y in s; y
  }

  function Min(s: set<int>): (m: int)
    requires s != {}
    ensures m in s && forall x :: x in s ==> m <= x
  {
    MinExists(s);
    var m :| m in s && forall x :: x in s ==> m <= x;
    m
  }

  /** `sorted(list(s))`: the elements of `s`, strictly increasing. */
  function Ascending(s: set<int>): (r: seq<int>)
    ensures forall i :: i in r <==> i in s
    ensures forall a, b :: 0 <= a < b < |r| ==> r[a] < r[b]
    decreases |s|
  {
    if s == {} then []
    else
      var m := Min(s);
      var rest := Ascending(s - {m});
      assert forall b :: 0 <= b < |rest| ==> rest[b] in s - {m};
      [m] + rest
  }

  /** `xs[i]` with Python's reading of a negative index as counted from the end. */
  function Resolve(i: int, n: int): int {
    if i < 0 then n + i else i
  }

  /** The indices below `n`, in their order. */
  function Below(idx: seq<int>, n: int): seq<int>
    decreases |idx|
  {
    if idx == [] then [] else (if idx[0] < n then [idx[0]] else []) + Below(idx[1..], n)
  }

  lemma {:induction false} BelowSpec(idx: seq<int>, n: int)
    ensures forall i :: i in Below(idx, n) <==> i in idx && i < n
    ensures (forall a, b :: 0 <= a < b < |idx| ==> idx[a] < idx[b]) ==>
      forall a, b :: 0 <= a < b < |Below(idx, n)| ==> Below(idx, n)[a] < Below(idx, n)[b]
    decreases |idx|
  {
    if idx != [] {
      BelowSpec(idx[1..], n);
      assert forall i :: i in idx <==> i == idx[0] || i in idx[1..];
      if forall a, b :: 0 <= a < b < |idx| ==> idx[a] < idx[b] {
        var rest := Below(idx[1..], n);
        forall b | 0 <= b < |rest| ensures idx[0] < rest[b] {
          assert rest[b] in idx[1..];
        }
      }
    }
  }

  /**
   * `[xs[i] for i in idx if i < len(xs)]`: None when an index below
   * `-len(xs)` raises `IndexError`.
   */
  function SelectIndices<T>(xs: seq<T>, idx: seq<int>): Option<seq<T>>
    decreases |idx|
  {
    if idx == [] then Some([])
    else if idx[0] >= |xs| then SelectIndices(xs, idx[1..])
    else if idx[0] < -|xs| then None
    else
      match SelectIndices(xs, idx[1..])
      case None => None
      case Some(rest) => Some([xs[Resolve(idx[0], |xs|)]] + rest)
  }

  /**
   * The comprehension fails exactly when a kept index idx below `-len(xs)`;
   * otherwise it holds, in order, the element each index below `len(xs)`
   * resolves to.
   */
  lemma SelectIndicesSpec<T>(xs: seq<T>, idx: seq<int>)
    ensures SelectIndices(xs, idx).None? <==> exists k :: 0 <= k < |idx| && idx[k] < -|xs|
    ensures SelectIndices(xs, idx).Some? ==>
      var r, js := SelectIndices(xs, idx).value, Below(idx, |xs|);
      && |r| == |js|
      && forall k :: 0 <= k < |js| ==> -|xs| <= js[k] < |xs| && r[k] == xs[Resolve(js[k], |xs|)]
  {
    SelectIndicesNone(xs, idx);
    if SelectIndices(xs, idx).Some? {
      SelectIndicesSome(xs, idx);
    }
  }

  lemma {:induction false} SelectIndicesNone<T>(xs: seq<T>, idx: seq<int>)
    ensures SelectIndices(xs, idx).None? <==> exists k :: 0 <= k < |idx| && idx[k] < -|xs|
    decreases |idx|
  {
    if idx != [] {
      SelectIndicesNone(xs, idx[1..]);
      assert forall k :: 1 <= k < |idx| ==> idx[k] == idx[1..][k - 1];
    }
  }

  lemma {:induction false} SelectIndicesSome<T>(xs: seq<T>, idx: seq<int>)
    requires SelectIndices(xs, idx).Some?
    ensures var r, js := SelectIndices(xs, idx).value, Below(idx, |xs|);
      && |r| == |js|
      && forall k :: 0 <= k < |js| ==> -|xs| <= js[k] < |xs| && r[k] == xs[Resolve(js[k], |xs|)]
    decreases |idx|
  {
    if idx != [] {
      SelectIndicesSome(xs, idx[1..]);
      if idx[0] < |xs| {
        assert Below(idx, |xs|) == [idx[0]] + Below(idx[1..], |xs|);
      }
    }
  }

  /** `[transactions[i] for i in sorted(list(selected_indices)) if i < len(transactions)]`. */
  function Selected<T>(xs: seq<T>, s: set<int>): Option<seq<T>> {
    SelectIndices(xs, Ascending(s))
  }

  /**
   * The selection raises `IndexError` exactly when an index idx below
   * `-len(xs)`. Otherwise duplicates have collapsed, indices of
   * `len(xs)` and beyond are dropped, and the rest come out in increasing
   * index order, a negative index standing for the element that many places
   * from the end.
   */
  lemma SelectedSpec<T>(xs: seq<T>, s: set<int>)
    ensures Selected(xs, s).None? <==> exists i :: i in s && i < -|xs|
    ensures Selected(xs, s).Some? ==>
      var r, js := Selected(xs, s).value, Below(Ascending(s), |xs|);
      && (forall i :: i in js <==> i in s && i < |xs|)
      && (forall a, b :: 0 <= a < b < |js| ==> js[a] < js[b])
      && |r| == |js|
      && forall k :: 0 <= k < |js| ==> -|xs| <= js[k] < |xs| && r[k] == xs[Resolve(js[k], |xs|)]
  {
    var idx := Ascending(s);
    SelectIndicesSpec(xs, idx);
    BelowSpec(idx, |xs|);
    if exists i :: i in s && i < -|xs| {
      var i :| i in s && i < -|xs|;
      assert i in idx;
    }
  }

  /** Every selected element is an element of the list. */
  lemma SelectedFrom<T>(xs: seq<T>, s: set<int>)
    requires Selected(xs, s).Some?
    ensures forall x :: x in Selected(xs, s).value ==> x in xs
  {
    SelectIndicesFrom(xs, Ascending(s));
  }

  lemma {:induction false} SelectIndicesFrom<T>(xs: seq<T>, idx: seq<int>)
    requires SelectIndices(xs, idx).Some?
    ensures forall x :: x in SelectIndices(xs, idx).value ==> x in xs
    decreases |idx|
  {
    if idx != [] {
      SelectIndicesFrom(xs, idx[1..]);
      if -|xs| <= idx[0] < |xs| {
        assert xs[Resolve(idx[0], |xs|)] in xs;
      }
    }
  }

  /** Once the indices are at least `-len(xs)`, the selection is empty exactly when every index is out of range. */
  lemma SelectedEmpty<T>(xs: seq<T>, s: set<int>)
    requires forall i :: i in s ==> i >= -|xs|
    ensures Selected(xs, s).Some?
    ensures Selected(xs, s).value == [] <==> forall i :: i in s ==> i >= |xs|
  {
    SelectedSpec(xs, s);
    var js := Below(Ascending(s), |xs|);
    if forall i :: i in s ==> i >= |xs| {
      if |js| > 0 {
        ElementOf(js, 0);
        assert false;
      }
    } else {
      var i :| i in s && i < |xs|;
      assert i in js;
    }
  }

  /** Index -1, what the entry "0" gives, selects the last element. */
  lemma SelectedMinusOne<T>(xs: seq<T>)
    requires |xs| > 0
    ensures Selected(xs, {-1}) == Some([xs[|xs| - 1]])
  {
    SelectedSpec(xs, {-1});
    var js := Below(Ascending({-1}), |xs|);
    assert -1 in js;
    if |js| > 1 {
      ElementOf(js, 0);
      ElementOf(js, 1);
      assert false;
    }
    ElementOf(js, 0);
    assert Selected(xs, {-1}).Some?;
    var r := Selected(xs, {-1}).value;
    assert |r| == 1 && r[0] == xs[|xs| - 1];
    assert r == [xs[|xs| - 1]];
  }
}
