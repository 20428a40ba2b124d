/**
 * The transaction schema (src/finanseer/schemas.py): the two-decimal amount
 * validator and the deduplication identity `Transaction.generate_id`.
 *
 * SHA-256 is a parameter `hash`: the identity is `hash(Preimage(...))`, and
 * everything proved here is about the preimage, which is what decides whether
 * two rows get the same identity.
 */
module Schemas {
  import opened Wrappers
  import opened Strings
  import opened Models

  /** A finite `decimal.Decimal`: (-1)^negative * coefficient * 10^exponent; the sign of zero is kept. */
  datatype Decimal = Decimal(negative: bool, coefficient: nat, exponent: int)

  lemma MulDistSub(a: int, b: int, d: int)
    ensures (a - b) * d == a * d - b * d
  {
  }

  lemma MulAtLeast(x: int, d: int)
    requires x >= 1 && d >= 0
    ensures x * d >= d
  {
    assert x * d == (x - 1) * d + d;
  }

  /** Quotient and remainder are determined by n == q * d + r with 0 <= r < d. */
  lemma DivModUnique(n: int, d: int, q: int, r: int)
    requires d > 0 && n == q * d + r && 0 <= r < d
    ensures n / d == q && n % d == r
  {
    var q', r' := n / d, n % d;
    assert n == q' * d + r';
    MulDistSub(q', q, d);
    if q' > q {
      MulAtLeast(q' - q, d);
    } else if q' < q {
      MulDistSub(q, q', d);
      MulAtLeast(q - q', d);
    }
  }

  /** c / m rounded to the nearest integer, a tie going to the even neighbour (ROUND_HALF_EVEN). */
  function RoundHalfEven(c: nat, m: nat): nat
    requires m >= 1
  {
    var q0, r := c / m, c % m;
    if 2 * r > m || (2 * r == m && q0 % 2 == 1) then q0 + 1 else q0
  }

  lemma RoundFacts(c: int, m: int, q0: int, r: int, up: bool)
    requires m >= 1 && c == q0 * m + r && 0 <= r < m
    requires up == (2 * r > m || (2 * r == m && q0 % 2 == 1))
    ensures var q := if up then q0 + 1 else q0;
      2 * c <= 2 * (q * m) + m && 2 * (q * m) <= 2 * c + m
      && ((2 * c == 2 * (q * m) + m || 2 * (q * m) == 2 * c + m) ==> q % 2 == 0)
  {
    assert (q0 + 1) * m == q0 * m + m;
  }

  /** The rounded quotient is within half a unit of c / m, and even at a tie. */
  lemma RoundHalfEvenNearest(c: nat, m: nat)
    requires m >= 1
    ensures var q := RoundHalfEven(c, m);
      2 * c <= 2 * (q * m) + m && 2 * (q * m) <= 2 * c + m
      && ((2 * c == 2 * (q * m) + m || 2 * (q * m) == 2 * c + m) ==> q % 2 == 0)
  {
    var q0, r := c / m, c % m;
    RoundFacts(c, m, q0, r, 2 * r > m || (2 * r == m && q0 % 2 == 1));
  }

  /**
   * The coefficient of `Decimal(_, c, e).quantize(Decimal('0.01'))` under the
   * default context: exact when there are at most two decimals, rounded half
   * to even otherwise.
   */
  function QuantizedCents(c: nat, e: int): nat
  {
    if e >= -2 then c * Pow10(e + 2) else RoundHalfEven(c, Pow10(-2 - e))
  }

  /** `d.quantize(Decimal('0.01'))`. */
  function Quantize(d: Decimal): (r: Decimal)
    ensures r.exponent == -2 && r.negative == d.negative
  {
    Decimal(d.negative, QuantizedCents(d.coefficient, d.exponent), -2)
  }

  /**
   * Quantizing keeps a value that has at most two decimals, and otherwise
   * gives the nearest two-decimal value, the even one at a tie.
   */
  lemma QuantizeNearest(d: Decimal)
    ensures d.exponent >= -2 ==> Quantize(d).coefficient == d.coefficient * Pow10(d.exponent + 2)
    ensures d.exponent < -2 ==>
      var m, q := Pow10(-2 - d.exponent), Quantize(d).coefficient;
      2 * d.coefficient <= 2 * (q * m) + m && 2 * (q * m) <= 2 * d.coefficient + m
      && ((2 * d.coefficient == 2 * (q * m) + m || 2 * (q * m) == 2 * d.coefficient + m) ==> q % 2 == 0)
  {
    if d.exponent < -2 {
      RoundHalfEvenNearest(d.coefficient, Pow10(-2 - d.exponent));
    }
  }

  /** The `amount` field validator `amount_must_be_two_decimal_places`. */
  function AmountMustBeTwoDecimalPlaces(v: Decimal): (r: Decimal)
    ensures r.exponent == -2 && r.negative == v.negative
  {
    Quantize(v)
  }

  /** Applying the validator twice equals applying it once. */
  lemma ValidatorIdempotent(v: Decimal)
    ensures AmountMustBeTwoDecimalPlaces(AmountMustBeTwoDecimalPlaces(v)) == AmountMustBeTwoDecimalPlaces(v)
  {
  }

  /** Scaling both the dividend and the divisor by ten does not change the rounded quotient. */
  lemma RoundHalfEvenScaled(c: nat, m: nat)
    requires m >= 1
    ensures RoundHalfEven(c * 10, 10 * m) == RoundHalfEven(c, m)
  {
    var q, r := c / m, c % m;
    assert c * 10 == q * (10 * m) + 10 * r by {
      assert c == q * m + r;
      assert (q * m + r) * 10 == q * (10 * m) + 10 * r;
    }
    DivModUnique(c * 10, 10 * m, q, 10 * r);
  }

  /** One more trailing zero in the coefficient (10.5 against 10.50) does not change the quantized value. */
  lemma QuantizeTrailingZero(neg: bool, c: nat, e: int)
    ensures Quantize(Decimal(neg, c * 10, e - 1)) == Quantize(Decimal(neg, c, e))
  {
    if e - 1 >= -2 {
      var p := Pow10(e + 1);
      assert Pow10(e + 2) == 10 * p;
      assert c * 10 * p == c * (10 * p);
    } else if e == -2 {
      DivModUnique(c * 10, 10, c, 0);
    } else {
      var m := Pow10(-2 - e);
      assert Pow10(-2 - (e - 1)) == 10 * m;
      RoundHalfEvenScaled(c, m);
    }
  }

  /** Any number of trailing zeros: equal values with equal signs quantize equally. */
  lemma {:induction false} QuantizeTrailingZeros(neg: bool, c: nat, e: int, k: nat)
    ensures Quantize(Decimal(neg, c * Pow10(k), e - k)) == Quantize(Decimal(neg, c, e))
  {
    if k > 0 {
      var p := Pow10(k - 1);
      QuantizeTrailingZero(neg, c * p, e - (k - 1));
      assert Pow10(k) == 10 * p;
      assert c * p * 10 == c * (10 * p);
      QuantizeTrailingZeros(neg, c, e, k - 1);
    }
  }

  /**
   * `str()` of a Decimal with exponent -2 (and of `f"{x:.2f}"`): an optional
   * minus sign, the integer part, a dot and exactly two decimals.
   */
  function TwoDecimals(negative: bool, cents: nat): string {
    (if negative then "-" else "") + NatStr(cents / 100) + "." + Padded(cents % 100, 2)
  }

  lemma TwoDecimalsUnsigned(cents: nat)
    ensures var s := TwoDecimals(false, cents);
      |s| >= 4 && s[..|s| - 3] == NatStr(cents / 100) && s[|s| - 3] == '.'
      && s[|s| - 2..] == Padded(cents % 100, 2)
  {
  }

  /** The rendering starts with '-' exactly when the sign is negative; the rest is the unsigned rendering. */
  lemma TwoDecimalsSign(negative: bool, cents: nat)
    ensures var s, u := TwoDecimals(negative, cents), TwoDecimals(false, cents);
      |s| >= 1 && (s[0] == '-') == negative && (negative ==> s[1..] == u) && (!negative ==> s == u)
  {
    var n := NatStr(cents / 100);
    var u := n + "." + Padded(cents % 100, 2);
    assert TwoDecimals(false, cents) == u;
    assert u[0] == n[0] && IsDigit(n[0]);
    if negative {
      assert TwoDecimals(negative, cents) == "-" + u;
    }
  }

  lemma UnsignedTwoDecimalsInjective(c1: nat, c2: nat)
    requires TwoDecimals(false, c1) == TwoDecimals(false, c2)
    ensures c1 == c2
  {
    TwoDecimalsUnsigned(c1);
    TwoDecimalsUnsigned(c2);
    NatStrInjective(c1 / 100, c2 / 100);
    assert Pow10(2) == 100;
    PaddedInjective(c1 % 100, c2 % 100, 2);
  }

  /** Distinct two-decimal amounts are rendered differently. */
  lemma TwoDecimalsInjective(n1: bool, c1: nat, n2: bool, c2: nat)
    requires TwoDecimals(n1, c1) == TwoDecimals(n2, c2)
    ensures n1 == n2 && c1 == c2
  {
    TwoDecimalsSign(n1, c1);
    TwoDecimalsSign(n2, c2);
    UnsignedTwoDecimalsInjective(c1, c2);
  }

  /** `date.isoformat()`: YYYY-MM-DD. */
  function IsoFormat(d: Date): (r: string)
    ensures |r| == 10
  {
    Padded(d.year, 4) + "-" + Padded(d.month, 2) + "-" + Padded(d.day, 2)
  }

  /** Distinct dates have distinct ISO renderings. */
  lemma IsoFormatInjective(a: Date, b: Date)
    requires ValidDate(a) && ValidDate(b)
    requires IsoFormat(a) == IsoFormat(b)
    ensures a == b
  {
    var sa, sb := IsoFormat(a), IsoFormat(b);
    assert sa[..4] == Padded(a.year, 4) && sb[..4] == Padded(b.year, 4);
    assert sa[5..7] == Padded(a.month, 2) && sb[5..7] == Padded(b.month, 2);
    assert sa[8..] == Padded(a.day, 2) && sb[8..] == Padded(b.day, 2);
    assert Pow10(2) == 100 && Pow10(4) == 10000;
    PaddedInjective(a.year, b.year, 4);
    PaddedInjective(a.month, b.month, 2);
    PaddedInjective(a.day, b.day, 2);
  }

  /** `counterparty_iban or counterparty_name or ""`. */
  function CounterpartyId(iban: Option<string>, name: Option<string>): string {
    if Truthy(iban) then iban.value else if Truthy(name) then name.value else ""
  }

  /** `description.strip() if description else ''`. */
  function DescriptionPart(description: Option<string>): string {
    if Truthy(description) then Strip(description.value) else ""
  }

  /** `str(self.amount)` once the validator has run. */
  function AmountText(amount: Decimal): string {
    var q := Quantize(amount);
    TwoDecimals(q.negative, q.coefficient)
  }

  /** `counterparty_id.strip()`. */
  function CounterpartyPart(iban: Option<string>, name: Option<string>): string {
    Strip(CounterpartyId(iban, name))
  }

  /** The string that `generate_id` hashes. */
  function Preimage(date: Date, amount: Decimal, iban: Option<string>, name: Option<string>,
                    description: Option<string>): string
  {
    IsoFormat(date) + AmountText(amount) + CounterpartyPart(iban, name) + DescriptionPart(description)
  }

  /** `Transaction.generate_id`, with the digest function as a parameter. */
  function GenerateId(hash: string -> string, date: Date, amount: Decimal, iban: Option<string>,
                      name: Option<string>, description: Option<string>): string
  {
    hash(Preimage(date, amount, iban, name, description))
  }

  /** An empty IBAN counts as absent: the identity falls through to the name. */
  lemma EmptyIbanFallsThrough(name: Option<string>)
    ensures CounterpartyId(Some(""), name) == CounterpartyId(None, name)
    ensures Truthy(name) ==> CounterpartyId(Some(""), name) == name.value
  {
  }

  /** A whitespace-only IBAN is truthy, so it wins over the name, and strips to "". */
  lemma BlankIbanWins(iban: string, name: Option<string>)
    requires iban != "" && AllSpace(iban)
    ensures CounterpartyId(Some(iban), name) == iban
    ensures CounterpartyPart(Some(iban), name) == ""
  {
    DropLeadingOfAllSpace(iban);
  }

  lemma CancelPrefix(a: string, b: string, x: string, y: string)
    requires |a| == |b| && a + x == b + y
    ensures a == b && x == y
  {
    assert a == (a + x)[..|a|] && b == (b + y)[..|b|];
    assert x == (a + x)[|a|..] && y == (b + y)[|b|..];
  }

  /** A common prefix and a common suffix can be cancelled. */
  lemma CancelAround(a: string, x: string, y: string, b: string)
    ensures a + x + b == a + y + b <==> x == y
  {
    if a + x + b == a + y + b {
      assert a + x + b == a + (x + b) && a + y + b == a + (y + b);
      CancelPrefix(a, a, x + b, y + b);
      assert x == (x + b)[..|x|] && y == (y + b)[..|y|];
    }
  }

  lemma ConcatAssoc(a: string, b: string, c: string, d: string)
    ensures a + b + c + d == a + (b + c + d) == a + b + (c + d)
  {
  }

  lemma PreimageSplit(date: Date, amount: Decimal, iban: Option<string>, name: Option<string>,
                      description: Option<string>)
    ensures Preimage(date, amount, iban, name, description)
            == IsoFormat(date) + (AmountText(amount) + CounterpartyPart(iban, name) + DescriptionPart(description))
  {
    ConcatAssoc(IsoFormat(date), AmountText(amount), CounterpartyPart(iban, name), DescriptionPart(description));
  }

  lemma PreimageSplitAmount(date: Date, amount: Decimal, iban: Option<string>, name: Option<string>,
                            description: Option<string>)
    ensures Preimage(date, amount, iban, name, description)
            == IsoFormat(date) + AmountText(amount) + (CounterpartyPart(iban, name) + DescriptionPart(description))
  {
    ConcatAssoc(IsoFormat(date), AmountText(amount), CounterpartyPart(iban, name), DescriptionPart(description));
  }

  /** Changing only the date changes the preimage, and only a change of date does. */
  lemma PreimageDateSensitive(d1: Date, d2: Date, amount: Decimal, iban: Option<string>,
                              name: Option<string>, description: Option<string>)
    requires ValidDate(d1) && ValidDate(d2)
    ensures Preimage(d1, amount, iban, name, description) == Preimage(d2, amount, iban, name, description)
            <==> d1 == d2
  {
    var i1, i2 := IsoFormat(d1), IsoFormat(d2);
    var r := AmountText(amount) + CounterpartyPart(iban, name) + DescriptionPart(description);
    PreimageSplit(d1, amount, iban, name, description);
    PreimageSplit(d2, amount, iban, name, description);
    if i1 + r == i2 + r {
      CancelPrefix(i1, i2, r, r);
      IsoFormatInjective(d1, d2);
    }
  }

  /** Changing only the amount changes the preimage exactly when the two-decimal values differ. */
  lemma PreimageAmountSensitive(date: Date, a1: Decimal, a2: Decimal, iban: Option<string>,
                                name: Option<string>, description: Option<string>)
    ensures Preimage(date, a1, iban, name, description) == Preimage(date, a2, iban, name, description)
            <==> Quantize(a1) == Quantize(a2)
  {
    var i, t1, t2 := IsoFormat(date), AmountText(a1), AmountText(a2);
    var r := CounterpartyPart(iban, name) + DescriptionPart(description);
    PreimageSplitAmount(date, a1, iban, name, description);
    PreimageSplitAmount(date, a2, iban, name, description);
    CancelAround(i, t1, t2, r);
    var q1, q2 := Quantize(a1), Quantize(a2);
    assert t1 == TwoDecimals(q1.negative, q1.coefficient) && t2 == TwoDecimals(q2.negative, q2.coefficient);
    if t1 == t2 {
      TwoDecimalsInjective(q1.negative, q1.coefficient, q2.negative, q2.coefficient);
    }
  }

  /** Changing only the counterparty changes the preimage exactly when the stripped identities differ. */
  lemma PreimageCounterpartySensitive(date: Date, amount: Decimal, i1: Option<string>, n1: Option<string>,
                                      i2: Option<string>, n2: Option<string>, description: Option<string>)
    ensures Preimage(date, amount, i1, n1, description) == Preimage(date, amount, i2, n2, description)
            <==> CounterpartyPart(i1, n1) == CounterpartyPart(i2, n2)
  {
    var h := IsoFormat(date) + AmountText(amount);
    var c1, c2, e := CounterpartyPart(i1, n1), CounterpartyPart(i2, n2), DescriptionPart(description);
    CancelAround(h, c1, c2, e);
  }

  /** Changing only the description changes the preimage exactly when the stripped descriptions differ. */
  lemma PreimageDescriptionSensitive(date: Date, amount: Decimal, iban: Option<string>, name: Option<string>,
                                     desc1: Option<string>, desc2: Option<string>)
    ensures Preimage(date, amount, iban, name, desc1) == Preimage(date, amount, iban, name, desc2)
            <==> DescriptionPart(desc1) == DescriptionPart(desc2)
  {
    var h := IsoFormat(date) + AmountText(amount) + CounterpartyPart(iban, name);
    var e1, e2 := DescriptionPart(desc1), DescriptionPart(desc2);
    assert h + e1 == h + e1 + [] && h + e2 == h + e2 + [];
    CancelAround(h, e1, e2, []);
  }

  /** `o` with whitespace `p` before and `q` after its value. */
  function Pad(o: Option<string>, p: string, q: string): Option<string> {
    match o
    case None => None
    case Some(v) => Some(p + v + q)
  }

  /** Padding a present, non-empty IBAN or name with whitespace does not change the stripped identity. */
  lemma CounterpartyPartPadded(iban: Option<string>, name: Option<string>,
                               p1: string, q1: string, p2: string, q2: string)
    requires AllSpace(p1) && AllSpace(q1) && AllSpace(p2) && AllSpace(q2)
    requires iban != Some("") && name != Some("")
    ensures CounterpartyPart(Pad(iban, p1, q1), Pad(name, p2, q2)) == CounterpartyPart(iban, name)
  {
    var padded, id := CounterpartyId(Pad(iban, p1, q1), Pad(name, p2, q2)), CounterpartyId(iban, name);
    if iban.Some? {
      var v := iban.value;
      assert padded == p1 + v + q1 && id == v;
      StripPadded(p1, v, q1);
    } else if name.Some? {
      var v := name.value;
      assert padded == p2 + v + q2 && id == v;
      StripPadded(p2, v, q2);
    } else {
      assert padded == id == "";
    }
  }

  /** Padding the description with whitespace does not change its part of the preimage. */
  lemma DescriptionPartPadded(description: Option<string>, p: string, q: string)
    requires AllSpace(p) && AllSpace(q)
    ensures DescriptionPart(Pad(description, p, q)) == DescriptionPart(description)
  {
    if description.Some? {
      var v := description.value;
      if v == "" {
        var w := p + v + q;
        assert w == p + q;
        assert AllSpace(w);
        DropLeadingOfAllSpace(w);
        assert Strip(w) == DropTrailing([]) == [];
      } else {
        StripPadded(p, v, q);
      }
    }
  }

  /**
   * Leading or trailing whitespace on the IBAN, the name or the description
   * changes neither the preimage nor the identity. An empty IBAN or name is
   * excluded: padding it would make it truthy and change which field is used.
   */
  lemma PreimageIgnoresPadding(hash: string -> string, date: Date, amount: Decimal,
                               iban: Option<string>, name: Option<string>, description: Option<string>,
                               p1: string, q1: string, p2: string, q2: string, p3: string, q3: string)
    requires AllSpace(p1) && AllSpace(q1) && AllSpace(p2) && AllSpace(q2) && AllSpace(p3) && AllSpace(q3)
    requires iban != Some("") && name != Some("")
    ensures Preimage(date, amount, Pad(iban, p1, q1), Pad(name, p2, q2), Pad(description, p3, q3))
            == Preimage(date, amount, iban, name, description)
    ensures GenerateId(hash, date, amount, Pad(iban, p1, q1), Pad(name, p2, q2), Pad(description, p3, q3))
            == GenerateId(hash, date, amount, iban, name, description)
  {
    CounterpartyPartPadded(iban, name, p1, q1, p2, q2);
    DescriptionPartPadded(description, p3, q3);
  }

  /** 10.5 and 10.50 give the same preimage; 10.51 does not. */
  lemma PreimageAmountExamples(date: Date, iban: Option<string>, name: Option<string>, description: Option<string>)
    ensures Preimage(date, Decimal(false, 105, -1), iban, name, description)
            == Preimage(date, Decimal(false, 1050, -2), iban, name, description)
    ensures Preimage(date, Decimal(false, 1050, -2), iban, name, description)
            != Preimage(date, Decimal(false, 1051, -2), iban, name, description)
  {
    QuantizeTrailingZero(false, 105, -1);
    PreimageAmountSensitive(date, Decimal(false, 1050, -2), Decimal(false, 1051, -2), iban, name, description);
  }
}
