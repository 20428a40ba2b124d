/**
 * The description normaliser (src/finanseer/text_processing.py): lower case,
 * transliteration to ASCII, punctuation to spaces, whitespace splitting,
 * stopword removal, single-space joining and a final collapse and strip.
 *
 * `unidecode(c.lower())` of a non-ASCII character is the parameter
 * `translit`; on ASCII characters `lower` is ASCII lowering and `unidecode`
 * the identity, so they are modelled exactly.
 */
module TextProcessing {
  import opened Wrappers
  import opened Strings

  /** Common, uninformative tokens of bank descriptions. */
  const Stopwords: set<string> := {
    "abn", "amro", "ing", "rabo", "rabobank", "knab", "bunq",
    "betaling", "betaalautomaat", "sepa", "ideal", "europe", "bv",
    "via", "trn", "iban", "bic", "pasnr", "datum", "tijd", "kenmerk",
    "omschrijving", "machtigingskenmerk", "incassant", "id", "eo", "en",
    "rabomobiel", "internetbankieren", "mobiel", "bankieren",
    "overboeking", "rekening", "naar", "van", "bij",
    "stichting", "payments", "online", "payment"
  }

  // ---------------------------------------------------------------------------
  // The stages of the pipeline

  /** `unidecode(c.lower())` for one character. */
  function Fold(c: char, translit: char -> string): string {
    if c as int < 128 then [AsciiLower(c)] else translit(c)
  }

  /** `unidecode(text.lower())`, character by character. */
  function FoldAll(s: string, translit: char -> string): string
    decreases |s|
  {
    if s == [] then [] else Fold(s[0], translit) + FoldAll(s[1..], translit)
  }

  /** One character of `re.sub(r'[^a-z0-9\s]', ' ', text)`. */
  function SanitizeChar(c: char): (r: char)
    ensures IsLowerAlnum(r) || IsSpace(r)
    ensures IsLowerAlnum(c) || IsSpace(c) ==> r == c
  {
    if IsLowerAlnum(c) || IsSpace(c) then c else ' '
  }

  /** `re.sub(r'[^a-z0-9\s]', ' ', text)`. */
  function Sanitize(s: string): (r: string)
    ensures |r| == |s|
    ensures forall i :: 0 <= i < |s| ==> r[i] == SanitizeChar(s[i])
  {
    seq(|s|, i requires 0 <= i < |s| => SanitizeChar(s[i]))
  }

  /** `[token for token in tokens if token not in STOPWORDS]`. */
  function RemoveStopwords(ws: seq<string>): seq<string>
    decreases |ws|
  {
    if ws == [] then []
    else (if ws[0] in Stopwords then [] else [ws[0]]) + RemoveStopwords(ws[1..])
  }

  /** `re.sub(r'\s+', ' ', text)`: every maximal run of whitespace becomes one space. */
  function CollapseSpaces(s: string): string
    decreases |s|
  {
    if s == [] then []
    else if IsSpace(s[0]) then
      var rest := DropLeading(s[1..]);
      [' '] + CollapseSpaces(rest)
    else [s[0]] + CollapseSpaces(s[1..])
  }

  /** The tokens that survive stopword removal, in order. */
  function Tokens(text: string, translit: char -> string): seq<string> {
    RemoveStopwords(Words(Sanitize(FoldAll(text, translit))))
  }

  /** `normalize_description(text)`; `None` and "" give "". */
  function Normalize(text: Option<string>, translit: char -> string): string {
    if !Truthy(text) then ""
    else Strip(CollapseSpaces(JoinWith(Tokens(text.value, translit), " ")))
  }

  // ---------------------------------------------------------------------------
  // Stopword removal filters and keeps the order

  /** Filtering a concatenation filters each part: nothing is reordered. */
  lemma {:induction false} RemoveStopwordsAppend(a: seq<string>, b: seq<string>)
    ensures RemoveStopwords(a + b) == RemoveStopwords(a) + RemoveStopwords(b)
    decreases |a|
  {
    if a != [] {
      assert (a + b)[0] == a[0] && (a + b)[1..] == a[1..] + b;
      RemoveStopwordsAppend(a[1..], b);
    } else {
      assert a + b == b;
    }
  }

  /** A word survives exactly when it occurs and is not a stopword. */
  lemma {:induction false} RemoveStopwordsMembers(ws: seq<string>, w: string)
    ensures w in RemoveStopwords(ws) <==> w in ws && w !in Stopwords
    decreases |ws|
  {
    if ws != [] {
      RemoveStopwordsMembers(ws[1..], w);
      assert w in ws <==> w == ws[0] || w in ws[1..];
    }
  }

  /** Nothing is removed from a list without stopwords. */
  lemma {:induction false} RemoveStopwordsKeeps(ws: seq<string>)
    requires forall k :: 0 <= k < |ws| ==> ws[k] !in Stopwords
    ensures RemoveStopwords(ws) == ws
    decreases |ws|
  {
    if ws != [] {
      RemoveStopwordsKeeps(ws[1..]);
    }
  }

  // ---------------------------------------------------------------------------
  // The shape of the tokens

  /** The text that is split contains only `a-z`, `0-9` and whitespace. */
  lemma SanitizedWordsShape(s: string)
    ensures forall w :: w in Words(Sanitize(s)) ==>
      IsWord(w) && forall i :: 0 <= i < |w| ==> IsLowerAlnum(w[i])
  {
    var t := Sanitize(s);
    WordsShape(t);
    forall w | w in Words(t) ensures forall i :: 0 <= i < |w| ==> IsLowerAlnum(w[i]) {
      forall i | 0 <= i < |w| ensures IsLowerAlnum(w[i]) {
        assert w[i] in t && !IsSpace(w[i]);
        var j :| 0 <= j < |t| && t[j] == w[i];
        assert t[j] == SanitizeChar(s[j]);
      }
    }
  }

  /** Every token is a non-empty run of `a-z` and `0-9` and is not a stopword. */
  lemma TokensShape(text: string, translit: char -> string)
    ensures forall k :: 0 <= k < |Tokens(text, translit)| ==>
      var w := Tokens(text, translit)[k];
      IsWord(w) && w !in Stopwords && forall i :: 0 <= i < |w| ==> IsLowerAlnum(w[i])
  {
    var ws := Words(Sanitize(FoldAll(text, translit)));
    var toks := Tokens(text, translit);
    assert toks == RemoveStopwords(ws);
    SanitizedWordsShape(FoldAll(text, translit));
    forall k | 0 <= k < |toks|
      ensures IsWord(toks[k]) && toks[k] !in Stopwords && forall i :: 0 <= i < |toks[k]| ==> IsLowerAlnum(toks[k][i])
    {
      assert toks[k] in toks;
      RemoveStopwordsMembers(ws, toks[k]);
    }
  }

  // ---------------------------------------------------------------------------
  // The final collapse and strip change nothing

  lemma {:induction false} CollapseOfWordPrefix(t: string, x: string)
    requires forall i :: 0 <= i < |t| ==> !IsSpace(t[i])
    ensures CollapseSpaces(t + x) == t + CollapseSpaces(x)
    decreases |t|
  {
    if t != [] {
      assert (t + x)[0] == t[0] && (t + x)[1..] == t[1..] + x;
      CollapseOfWordPrefix(t[1..], x);
      assert t + CollapseSpaces(x) == [t[0]] + (t[1..] + CollapseSpaces(x));
    } else {
      assert t + x == x;
    }
  }

  /** A space-joined list of words has nothing to collapse. */
  lemma {:induction false} CollapseOfJoin(toks: seq<string>)
    requires forall k :: 0 <= k < |toks| ==> IsWord(toks[k])
    ensures CollapseSpaces(JoinWith(toks, " ")) == JoinWith(toks, " ")
    decreases |toks|
  {
    if |toks| == 1 {
      CollapseOfWordPrefix(toks[0], []);
      assert toks[0] + [] == toks[0];
    } else if |toks| > 1 {
      var t, r := toks[0], JoinWith(toks[1..], " ");
      CollapseOfJoin(toks[1..]);
      JoinOfWordsShape(toks[1..]);
      assert t + " " + r == t + (" " + r);
      CollapseOfWordPrefix(t, " " + r);
      assert (" " + r)[1..] == r;
      DropLeadingKeeps(r);
    }
  }

  /** The result is the surviving tokens joined by single spaces. */
  lemma NormalizeIsJoin(text: Option<string>, translit: char -> string)
    ensures Normalize(text, translit)
            == if Truthy(text) then JoinWith(Tokens(text.value, translit), " ") else ""
  {
    if Truthy(text) {
      var toks := Tokens(text.value, translit);
      TokensShape(text.value, translit);
      CollapseOfJoin(toks);
      JoinOfWordsShape(toks);
      StripKeeps(JoinWith(toks, " "));
    }
  }

  // ---------------------------------------------------------------------------
  // Properties of the result

  /** `None` and the empty string normalise to "". */
  lemma NormalizeEmpty(translit: char -> string)
    ensures Normalize(None, translit) == "" && Normalize(Some(""), translit) == ""
  {
  }

  /** A space-joined list of words has each space between two non-space characters. */
  lemma {:induction false} JoinOfWordsSingleSpaces(toks: seq<string>)
    requires forall k :: 0 <= k < |toks| ==> IsWord(toks[k])
    ensures var r := JoinWith(toks, " ");
      forall i :: 0 <= i < |r| && IsSpace(r[i]) ==>
        r[i] == ' ' && 0 < i < |r| - 1 && !IsSpace(r[i - 1]) && !IsSpace(r[i + 1])
    decreases |toks|
  {
    if |toks| > 1 {
      var t, r' := toks[0], JoinWith(toks[1..], " ");
      JoinOfWordsSingleSpaces(toks[1..]);
      JoinOfWordsShape(toks[1..]);
      var r := t + " " + r';
      forall i | 0 <= i < |r| && IsSpace(r[i])
        ensures r[i] == ' ' && 0 < i < |r| - 1 && !IsSpace(r[i - 1]) && !IsSpace(r[i + 1])
      {
        if i == |t| {
          assert r[i - 1] == t[|t| - 1] && r[i + 1] == r'[0];
        } else if i > |t| + 1 {
          var j := i - |t| - 1;
          assert r[i] == r'[j] && r[i - 1] == r'[j - 1];
          assert r[i + 1] == r'[j + 1];
        }
      }
    }
  }

  /**
   * Only `a-z`, `0-9` and spaces, and every whitespace character is a single
   * space between two other characters (so none is at either end).
   */
  predicate NormalText(r: string) {
    && (forall i :: 0 <= i < |r| ==> IsLowerAlnum(r[i]) || r[i] == ' ')
    && (forall i :: 0 <= i < |r| && IsSpace(r[i]) ==>
          r[i] == ' ' && 0 < i < |r| - 1 && !IsSpace(r[i - 1]) && !IsSpace(r[i + 1]))
  }

  /** Lower-case alphanumeric words joined by single spaces form normal text. */
  lemma JoinOfTokensNormal(toks: seq<string>)
    requires forall k :: 0 <= k < |toks| ==>
      IsWord(toks[k]) && forall i :: 0 <= i < |toks[k]| ==> IsLowerAlnum(toks[k][i])
    ensures NormalText(JoinWith(toks, " "))
  {
    JoinOfWordsChars(toks, c => IsLowerAlnum(c) || c == ' ');
    JoinOfWordsSingleSpaces(toks);
  }

  /** The result is normal text: `a-z`, `0-9` and single inner spaces. */
  lemma NormalizeAlphabet(text: Option<string>, translit: char -> string)
    ensures NormalText(Normalize(text, translit))
  {
    NormalizeIsJoin(text, translit);
    if Truthy(text) {
      TokensShape(text.value, translit);
      JoinOfTokensNormal(Tokens(text.value, translit));
    }
  }

  /** Splitting the result gives back the surviving tokens; in particular no token is a stopword. */
  lemma NormalizeWords(text: Option<string>, translit: char -> string)
    ensures Words(Normalize(text, translit)) == if Truthy(text) then Tokens(text.value, translit) else []
    ensures forall w :: w in Words(Normalize(text, translit)) ==> w !in Stopwords
  {
    NormalizeIsJoin(text, translit);
    if Truthy(text) {
      TokensShape(text.value, translit);
      WordsOfJoin(Tokens(text.value, translit));
    }
  }

  lemma {:induction false} FoldAllAppend(a: string, b: string, translit: char -> string)
    ensures FoldAll(a + b, translit) == FoldAll(a, translit) + FoldAll(b, translit)
    decreases |a|
  {
    if a == [] {
      assert a + b == b;
    } else {
      assert (a + b)[0] == a[0] && (a + b)[1..] == a[1..] + b;
      FoldAllAppend(a[1..], b, translit);
    }
  }

  lemma SanitizeAppend(a: string, b: string)
    ensures Sanitize(a + b) == Sanitize(a) + Sanitize(b)
  {
  }

  /**
   * A space, or an ASCII character that is neither a letter, a digit nor
   * whitespace, is a token boundary: it separates the tokens before it from
   * those after it.
   */
  lemma BoundarySplits(a: string, c: char, b: string, translit: char -> string)
    requires c == ' ' || (c as int < 128 && !IsLowerAlnum(AsciiLower(c)) && !IsSpace(c))
    ensures Tokens(a + [c] + b, translit) == Tokens(a, translit) + Tokens(b, translit)
  {
    var fa, fb := FoldAll(a, translit), FoldAll(b, translit);
    FoldAllAppend(a, [c] + b, translit);
    FoldAllAppend([c], b, translit);
    assert a + [c] + b == a + ([c] + b);
    assert FoldAll([c], translit) == [AsciiLower(c)];
    var f := FoldAll(a + [c] + b, translit);
    assert f == fa + [AsciiLower(c)] + fb;
    SanitizeAppend(fa + [AsciiLower(c)], fb);
    SanitizeAppend(fa, [AsciiLower(c)]);
    assert Sanitize(f) == Sanitize(fa) + " " + Sanitize(fb);
    WordsAppendSpace(Sanitize(fa), Sanitize(fb));
    RemoveStopwordsAppend(Words(Sanitize(fa)), Words(Sanitize(fb)));
  }

  /** On ASCII text, `unidecode(text.lower())` is ASCII lowering. */
  lemma {:induction false} FoldAllAscii(s: string, translit: char -> string)
    requires forall i :: 0 <= i < |s| ==> s[i] as int < 128
    ensures FoldAll(s, translit) == LowerAscii(s)
    decreases |s|
  {
    if s != [] {
      FoldAllAscii(s[1..], translit);
      assert LowerAscii(s) == [AsciiLower(s[0])] + LowerAscii(s[1..]);
    }
  }

  /** Text whose every word is a stopword normalises to "". */
  lemma NormalizeAllStopwords(text: Option<string>, translit: char -> string)
    requires text.Some? ==> forall w :: w in Words(Sanitize(FoldAll(text.value, translit))) ==> w in Stopwords
    ensures Normalize(text, translit) == ""
  {
    NormalizeIsJoin(text, translit);
    if Truthy(text) {
      var ws := Words(Sanitize(FoldAll(text.value, translit)));
      var toks := Tokens(text.value, translit);
      if toks != [] {
        RemoveStopwordsMembers(ws, toks[0]);
      }
    }
  }

  /** Text that is already lower-case ASCII letters, digits and spaces folds and sanitises to itself. */
  lemma {:induction false} FoldAllKeeps(s: string, translit: char -> string)
    requires forall i :: 0 <= i < |s| ==> IsLowerAlnum(s[i]) || s[i] == ' '
    ensures FoldAll(s, translit) == s
    decreases |s|
  {
    if s != [] {
      FoldAllKeeps(s[1..], translit);
      assert s == [s[0]] + s[1..];
    }
  }

  /** The tokens of a space-joined list of normal tokens are those tokens. */
  lemma TokensOfJoin(toks: seq<string>, translit: char -> string)
    requires forall k :: 0 <= k < |toks| ==>
      var w := toks[k];
      IsWord(w) && w !in Stopwords && forall i :: 0 <= i < |w| ==> IsLowerAlnum(w[i])
    ensures Tokens(JoinWith(toks, " "), translit) == toks
  {
    var r := JoinWith(toks, " ");
    JoinOfTokensNormal(toks);
    FoldAllKeeps(r, translit);
    assert Sanitize(r) == r;
    WordsOfJoin(toks);
    RemoveStopwordsKeeps(toks);
  }

  /** Normalising twice gives the same result as normalising once. */
  lemma NormalizeIdempotent(text: Option<string>, translit: char -> string)
    ensures Normalize(Some(Normalize(text, translit)), translit) == Normalize(text, translit)
  {
    NormalizeIsJoin(text, translit);
    var r := Normalize(text, translit);
    if r != "" {
      var toks := Tokens(text.value, translit);
      TokensShape(text.value, translit);
      TokensOfJoin(toks, translit);
      NormalizeIsJoin(Some(r), translit);
    }
  }
}
