/**
 * The Rabobank CSV import and the budget category import
 * (src/finanseer/importers.py), from the rows pandas has read onwards.
 *
 * A row maps column names to cells; a `None` cell is pandas' NaN (an empty
 * field) and a column the file lacks reads as `None` too. The date parser
 * (`datetime.strptime(s, "%Y-%m-%d")`), the decimal parser (`Decimal(s)`) and
 * SHA-256 are parameters; a parser returns `None` where Python raises.
 */
module Importers {
  import opened Wrappers
  import opened Strings
  import opened Sorting
  import opened Models
  import opened Schemas

  type Row = map<string, Option<string>>

  /** `row.get(column)`. */
  function Get(row: Row, column: string): Option<string> {
    if column in row then row[column] else None
  }

  // ---------------------------------------------------------------------------
  // _clean_str

  /** `_clean_str(value)`: NaN and `None` give `None`, anything else its stripped text. */
  function CleanStr(v: Option<string>): (r: Option<string>)
    ensures r.None? <==> v.None?
    ensures r.Some? ==> NoEdgeSpace(r.value) && |r.value| <= |v.value|
  {
    match v
    case None => None
    case Some(s) => Some(Strip(s))
  }

  /** A blank cell cleans to "", not to `None`. */
  lemma CleanStrBlank(s: string)
    requires AllSpace(s)
    ensures CleanStr(Some(s)) == Some("")
  {
    DropLeadingOfAllSpace(s);
  }

  /** Cleaning twice is cleaning once; text without edge whitespace is kept as it is. */
  lemma CleanStrIdempotent(v: Option<string>)
    ensures CleanStr(CleanStr(v)) == CleanStr(v)
    ensures v.Some? && NoEdgeSpace(v.value) ==> CleanStr(v) == v
  {
    if v.Some? {
      StripIdempotent(v.value);
      if NoEdgeSpace(v.value) {
        StripKeeps(v.value);
      }
    }
  }

  // ---------------------------------------------------------------------------
  // Building one transaction from one row

  /** `s.replace(a, b)` for single characters. */
  function ReplaceChar(s: string, a: char, b: char): (r: string)
    ensures |r| == |s|
    ensures forall i :: 0 <= i < |s| ==> r[i] == if s[i] == a then b else s[i]
  {
    seq(|s|, i requires 0 <= i < |s| => if s[i] == a then b else s[i])
  }

  /** `d >= 0` for a finite Decimal: negative zero counts as zero. */
  predicate NonNegative(d: Decimal) {
    !d.negative || d.coefficient == 0
  }

  /** `abs(d)`. */
  function Abs(d: Decimal): (r: Decimal)
    ensures NonNegative(r)
  {
    Decimal(false, d.coefficient, d.exponent)
  }

  /** `-d`. */
  function Negate(d: Decimal): Decimal {
    Decimal(!d.negative, d.coefficient, d.exponent)
  }

  /** The mutation type of a signed amount: credit for zero and above, debit below. */
  function MutationOf(d: Decimal): MutationType {
    if NonNegative(d) then Credit else Debit
  }

  /** The present, non-empty parts, in order. */
  function TruthyValues(parts: seq<Option<string>>): (r: seq<string>)
    ensures forall k :: 0 <= k < |r| ==> r[k] != ""
    decreases |parts|
  {
    if parts == [] then []
    else (if Truthy(parts[0]) then [parts[0].value] else []) + TruthyValues(parts[1..])
  }

  /** `" ".join(p for p in desc_parts if p).strip() or None`. */
  function DescriptionFromParts(parts: seq<Option<string>>): Option<string> {
    var joined := Strip(JoinWith(TruthyValues(parts), " "));
    if joined == "" then None else Some(joined)
  }

  lemma {:induction false} TruthyValuesStripped(parts: seq<Option<string>>)
    requires forall k :: 0 <= k < |parts| && parts[k].Some? ==> NoEdgeSpace(parts[k].value)
    ensures forall k :: 0 <= k < |TruthyValues(parts)| ==> NoEdgeSpace(TruthyValues(parts)[k])
    decreases |parts|
  {
    if parts != [] {
      TruthyValuesStripped(parts[1..]);
    }
  }

  /**
   * For cleaned parts the description is the non-empty parts joined by
   * single spaces, and `None` exactly when every part is `None` or "".
   */
  lemma DescriptionFromCleanParts(parts: seq<Option<string>>)
    requires forall k :: 0 <= k < |parts| && parts[k].Some? ==> NoEdgeSpace(parts[k].value)
    ensures DescriptionFromParts(parts) ==
      if TruthyValues(parts) == [] then None else Some(JoinWith(TruthyValues(parts), " "))
    ensures DescriptionFromParts(parts).None? <==> forall k :: 0 <= k < |parts| ==> !Truthy(parts[k])
  {
    var vs := TruthyValues(parts);
    TruthyValuesStripped(parts);
    JoinOfStrippedShape(vs);
    StripKeeps(JoinWith(vs, " "));
    TruthyValuesNone(parts);
  }

  lemma {:induction false} TruthyValuesNone(parts: seq<Option<string>>)
    ensures TruthyValues(parts) == [] <==> forall k :: 0 <= k < |parts| ==> !Truthy(parts[k])
    decreases |parts|
  {
    if parts != [] {
      TruthyValuesNone(parts[1..]);
      assert forall k :: 1 <= k < |parts| ==> parts[k] == parts[1..][k - 1];
    }
  }

  /** The record `import_rabobank_csv` merges for a row whose fields parsed. */
  function BuildTransaction(hash: string -> string, account: string, date: Date, amount: Decimal,
                            currency: string, iban: Option<string>, name: Option<string>,
                            description: Option<string>): Transaction
  {
    var magnitude := Abs(amount);
    Transaction(
      GenerateId(hash, date, magnitude, iban, name, description),
      account, date, Quantize(magnitude).coefficient, currency, name, iban, description,
      MutationOf(amount), "Rabobank", None)
  }

  /**
   * Only the magnitude of the amount is stored and hashed; its sign decides
   * the mutation type alone. A nonzero amount and its negation give the same
   * record but for the mutation type.
   */
  lemma BuildTransactionSign(hash: string -> string, account: string, date: Date, amount: Decimal,
                             currency: string, iban: Option<string>, name: Option<string>,
                             description: Option<string>)
    ensures var t := BuildTransaction(hash, account, date, amount, currency, iban, name, description);
      (t.mutationType == Credit <==> NonNegative(amount))
      && t.subcategoryId.None? && t.bankSource == "Rabobank"
    ensures amount.coefficient != 0 ==>
      var t := BuildTransaction(hash, account, date, amount, currency, iban, name, description);
      var u := BuildTransaction(hash, account, date, Negate(amount), currency, iban, name, description);
      u == t.(mutationType := if t.mutationType == Credit then Debit else Credit)
  {
  }

  /** The record carries the cells it was built from unchanged. */
  lemma BuildTransactionFields(hash: string -> string, account: string, date: Date, amount: Decimal,
                               currency: string, iban: Option<string>, name: Option<string>,
                               description: Option<string>)
    ensures var t := BuildTransaction(hash, account, date, amount, currency, iban, name, description);
      && t.accountId == account && t.transactionDate == date && t.currency == currency
      && t.counterpartyIban == iban && t.counterpartyName == name && t.descriptionRaw == description
      && t.subcategoryId.None?
  {
  }

  /**
   * The stored amount is the magnitude rounded to cents: 10.5 and -10.50 both
   * store 1050 cents, and a third decimal rounds to the nearest cent, the
   * even one at a tie.
   */
  lemma BuildTransactionAmount(hash: string -> string, account: string, date: Date, amount: Decimal,
                               currency: string, iban: Option<string>, name: Option<string>,
                               description: Option<string>)
    ensures amount.exponent >= -2 ==>
      BuildTransaction(hash, account, date, amount, currency, iban, name, description).amount
      == amount.coefficient * Pow10(amount.exponent + 2)
    ensures amount.exponent < -2 ==>
      var m, c := Pow10(-2 - amount.exponent), amount.coefficient;
      var q := BuildTransaction(hash, account, date, amount, currency, iban, name, description).amount;
      2 * c <= 2 * (q * m) + m && 2 * (q * m) <= 2 * c + m
      && ((2 * c == 2 * (q * m) + m || 2 * (q * m) == 2 * c + m) ==> q % 2 == 0)
  {
    QuantizeNearest(Abs(amount));
  }

  datatype RowResult = MissingData | ParseError | Parsed(t: Transaction)

  /** What the loop body of `import_rabobank_csv` makes of one row, before deduplication. */
  function ParseRow(row: Row, parseDate: string -> Option<Date>, parseDecimal: string -> Option<Decimal>,
                    hash: string -> string): RowResult
  {
    var account := CleanStr(Get(row, "IBAN/BBAN"));
    var dateText := CleanStr(Get(row, "Datum"));
    var amountText := CleanStr(Get(row, "Bedrag"));
    var currency := CleanStr(Get(row, "Munt"));
    if !(Truthy(account) && Truthy(dateText) && Truthy(amountText) && Truthy(currency)) then MissingData
    else
      match parseDate(dateText.value)
      case None => ParseError
      case Some(date) =>
        match parseDecimal(ReplaceChar(amountText.value, ',', '.'))
        case None => ParseError
        case Some(amount) =>
          Parsed(BuildTransaction(hash, account.value, date, amount, currency.value,
                                  CleanStr(Get(row, "Tegenrekening IBAN/BBAN")),
                                  CleanStr(Get(row, "Naam tegenpartij")), RowDescription(row)))
  }

  /**
   * A row is skipped for missing data exactly when its account, date, amount
   * or currency is absent or blank; a parsed row carries the cleaned account
   * and currency, the cleaned counterparty and a description that is `None`
   * or non-empty and stripped.
   */
  lemma ParseRowSpec(row: Row, parseDate: string -> Option<Date>, parseDecimal: string -> Option<Decimal>,
                     hash: string -> string)
    ensures ParseRow(row, parseDate, parseDecimal, hash) == MissingData <==>
      !Truthy(CleanStr(Get(row, "IBAN/BBAN"))) || !Truthy(CleanStr(Get(row, "Datum")))
      || !Truthy(CleanStr(Get(row, "Bedrag"))) || !Truthy(CleanStr(Get(row, "Munt")))
    ensures ParseRow(row, parseDate, parseDecimal, hash).Parsed? ==>
      var t := ParseRow(row, parseDate, parseDecimal, hash).t;
      && Some(t.accountId) == CleanStr(Get(row, "IBAN/BBAN")) && t.accountId != ""
      && Some(t.currency) == CleanStr(Get(row, "Munt")) && t.currency != ""
      && t.counterpartyIban == CleanStr(Get(row, "Tegenrekening IBAN/BBAN"))
      && t.counterpartyName == CleanStr(Get(row, "Naam tegenpartij"))
      && (t.descriptionRaw.Some? ==> t.descriptionRaw.value != "" && NoEdgeSpace(t.descriptionRaw.value))
      && t.subcategoryId.None?
  {
    ParseRowOutcome(row, parseDate, parseDecimal, hash);
    var r := ParseRow(row, parseDate, parseDecimal, hash);
    if r.Parsed? {
      var account, dateText := CleanStr(Get(row, "IBAN/BBAN")), CleanStr(Get(row, "Datum"));
      var amountText, currency := CleanStr(Get(row, "Bedrag")), CleanStr(Get(row, "Munt"));
      var amount := parseDecimal(ReplaceChar(amountText.value, ',', '.')).value;
      var description := RowDescription(row);
      BuildTransactionFields(hash, account.value, parseDate(dateText.value).value, amount, currency.value,
                             CleanStr(Get(row, "Tegenrekening IBAN/BBAN")), CleanStr(Get(row, "Naam tegenpartij")),
                             description);
    }
  }

  /** The description a row yields from its three cleaned description cells. */
  function RowDescription(row: Row): (r: Option<string>)
    ensures r.Some? ==> r.value != "" && NoEdgeSpace(r.value)
  {
    var parts := [CleanStr(Get(row, "Omschrijving-1")), CleanStr(Get(row, "Omschrijving-2")),
                  CleanStr(Get(row, "Omschrijving-3"))];
    DescriptionFromCleanParts(parts);
    DescriptionFromParts(parts)
  }

  /**
   * A row with all four essential cells is a parse error exactly when its
   * date or its amount (decimal comma read as a point) does not parse, and
   * otherwise becomes the transaction built from the parsed date and amount
   * and the row's cleaned cells.
   */
  lemma ParseRowOutcome(row: Row, parseDate: string -> Option<Date>, parseDecimal: string -> Option<Decimal>,
                        hash: string -> string)
    ensures var account, dateText := CleanStr(Get(row, "IBAN/BBAN")), CleanStr(Get(row, "Datum"));
      var amountText, currency := CleanStr(Get(row, "Bedrag")), CleanStr(Get(row, "Munt"));
      var present := Truthy(account) && Truthy(dateText) && Truthy(amountText) && Truthy(currency);
      var r := ParseRow(row, parseDate, parseDecimal, hash);
      && (r == MissingData <==> !present)
      && (r == ParseError <==>
            present && (parseDate(dateText.value).None? || parseDecimal(ReplaceChar(amountText.value, ',', '.')).None?))
      && (present && parseDate(dateText.value).Some? && parseDecimal(ReplaceChar(amountText.value, ',', '.')).Some? ==>
            r == Parsed(BuildTransaction(hash, account.value, parseDate(dateText.value).value,
                                         parseDecimal(ReplaceChar(amountText.value, ',', '.')).value, currency.value,
                                         CleanStr(Get(row, "Tegenrekening IBAN/BBAN")),
                                         CleanStr(Get(row, "Naam tegenpartij")), RowDescription(row))))
  {
  }

  // ---------------------------------------------------------------------------
  // The store as a table keyed by id, and db.merge

  /** The ids of some transactions. */
  function Ids(txs: seq<Transaction>): set<string> {
    set t | t in txs :: t.id
  }

  /** The position of the first transaction with `id`, or `|txs|`. */
  function IdIndex(txs: seq<Transaction>, id: string): (i: nat)
    ensures i <= |txs|
    ensures i < |txs| ==> txs[i].id == id
    ensures forall k :: 0 <= k < i ==> txs[k].id != id
    decreases |txs|
  {
    if txs == [] then 0 else if txs[0].id == id then 0 else 1 + IdIndex(txs[1..], id)
  }

  /** The transaction stored under `id`. */
  function Lookup(txs: seq<Transaction>, id: string): (r: Option<Transaction>)
    ensures r.Some? <==> id in Ids(txs)
    ensures r.Some? ==> r.value in txs && r.value.id == id
  {
    var i := IdIndex(txs, id);
    if i < |txs| then Some(txs[i])
    else
      assert forall t :: t in txs ==> t.id != id;
      None
  }

  /** With unique ids, every stored transaction is what its id looks up. */
  lemma LookupUnique(txs: seq<Transaction>, k: nat)
    requires UniqueTransactionIds(txs) && k < |txs|
    ensures Lookup(txs, txs[k].id) == Some(txs[k])
  {
  }

  /**
   * `db.merge(record)` for a record built without a subcategory: a new id is
   * inserted, an existing one is overwritten except for its `subcategory_id`,
   * which `merge` does not copy because the record never set it.
   */
  function Upsert(txs: seq<Transaction>, t: Transaction): seq<Transaction> {
    var i := IdIndex(txs, t.id);
    if i == |txs| then txs + [t] else txs[i := t.(subcategoryId := txs[i].subcategoryId)]
  }

  /** The subcategory an upsert of `t` leaves: the stored one if `t.id` is present, else `t`'s own. */
  function KeptSubcategory(txs: seq<Transaction>, t: Transaction): Option<int> {
    match Lookup(txs, t.id)
    case Some(stored) => stored.subcategoryId
    case None => t.subcategoryId
  }

  /**
   * After an upsert, `t.id` looks up `t` with the kept subcategory, every
   * other id looks up what it did before, the ids stay unique and only
   * `t.id` may be added.
   */
  lemma UpsertSpec(txs: seq<Transaction>, t: Transaction)
    requires UniqueTransactionIds(txs)
    ensures var r := Upsert(txs, t);
      && UniqueTransactionIds(r)
      && Ids(r) == Ids(txs) + {t.id}
      && Lookup(r, t.id) == Some(t.(subcategoryId := KeptSubcategory(txs, t)))
      && (forall id :: id != t.id ==> Lookup(r, id) == Lookup(txs, id))
  {
    if IdIndex(txs, t.id) == |txs| {
      UpsertNew(txs, t);
    } else {
      UpsertExisting(txs, t);
    }
  }

  lemma UpsertNew(txs: seq<Transaction>, t: Transaction)
    requires UniqueTransactionIds(txs) && IdIndex(txs, t.id) == |txs|
    ensures var r := txs + [t];
      && UniqueTransactionIds(r)
      && Ids(r) == Ids(txs) + {t.id}
      && Lookup(r, t.id) == Some(t.(subcategoryId := KeptSubcategory(txs, t)))
      && (forall id :: id != t.id ==> Lookup(r, id) == Lookup(txs, id))
  {
    var r := txs + [t];
    assert Lookup(txs, t.id) == None;
    forall i, j | 0 <= i < j < |r| ensures r[i].id != r[j].id {
      assert r[i] == txs[i];
      if j < |txs| {
        assert r[j] == txs[j];
      }
    }
    IdsAppend(txs, t);
    forall id | id != t.id ensures Lookup(r, id) == Lookup(txs, id) {
      IdIndexAppend(txs, t, id);
    }
    IdIndexAppend(txs, t, t.id);
  }

  lemma UpsertExisting(txs: seq<Transaction>, t: Transaction)
    requires UniqueTransactionIds(txs) && IdIndex(txs, t.id) < |txs|
    ensures var r := txs[IdIndex(txs, t.id) := t.(subcategoryId := txs[IdIndex(txs, t.id)].subcategoryId)];
      && UniqueTransactionIds(r)
      && Ids(r) == Ids(txs) + {t.id}
      && Lookup(r, t.id) == Some(t.(subcategoryId := KeptSubcategory(txs, t)))
      && (forall id :: id != t.id ==> Lookup(r, id) == Lookup(txs, id))
  {
    var i := IdIndex(txs, t.id);
    var u := t.(subcategoryId := txs[i].subcategoryId);
    var r := txs[i := u];
    assert Lookup(txs, t.id) == Some(txs[i]);
    assert forall k :: 0 <= k < |r| ==> r[k].id == txs[k].id;
    SameIds(r, txs);
    forall id | id != t.id ensures Lookup(r, id) == Lookup(txs, id) {
      SameIdIndex(r, txs, id);
      var j := IdIndex(txs, id);
      if j < |txs| {
        assert j != i && r[j] == txs[j];
      }
    }
    SameIdIndex(r, txs, t.id);
  }

  /** Sequences with the same id at every position have the same ids. */
  lemma SameIds(a: seq<Transaction>, b: seq<Transaction>)
    requires |a| == |b| && forall k :: 0 <= k < |a| ==> a[k].id == b[k].id
    ensures Ids(a) == Ids(b)
  {
    forall x | x in Ids(a) ensures x in Ids(b) {
      var v :| v in a && v.id == x;
      var k :| 0 <= k < |a| && a[k] == v;
      assert b[k] in b;
    }
    forall x | x in Ids(b) ensures x in Ids(a) {
      var v :| v in b && v.id == x;
      var k :| 0 <= k < |b| && b[k] == v;
      assert a[k] in a;
    }
  }

  /** ... and find every id at the same position. */
  lemma {:induction false} SameIdIndex(a: seq<Transaction>, b: seq<Transaction>, id: string)
    requires |a| == |b| && forall k :: 0 <= k < |a| ==> a[k].id == b[k].id
    ensures IdIndex(a, id) == IdIndex(b, id)
    decreases |a|
  {
    if a != [] && a[0].id != id {
      SameIdIndex(a[1..], b[1..], id);
    }
  }

  lemma IdIndexAppend(txs: seq<Transaction>, t: Transaction, id: string)
    requires IdIndex(txs, t.id) == |txs|
    ensures Lookup(txs + [t], id) == if id == t.id then Some(t) else Lookup(txs, id)
  {
    var r := txs + [t];
    var j := IdIndex(txs, id);
    assert forall k :: 0 <= k < |txs| ==> r[k] == txs[k];
    var jr := IdIndex(r, id);
    if j < |txs| {
      assert jr == j;
    } else {
      assert jr >= |txs|;
    }
  }

  /** `db.merge` of every record, in order. */
  function UpsertAll(txs: seq<Transaction>, ts: seq<Transaction>): seq<Transaction>
    decreases |ts|
  {
    if ts == [] then txs else Upsert(UpsertAll(txs, ts[..|ts| - 1]), ts[|ts| - 1])
  }

  // ---------------------------------------------------------------------------
  // The row loop of import_rabobank_csv

  /** `ParseRow` with its three collaborators fixed. */
  function RowParser(parseDate: string -> Option<Date>, parseDecimal: string -> Option<Decimal>,
                     hash: string -> string): Row -> RowResult
  {
    row => ParseRow(row, parseDate, parseDecimal, hash)
  }

  /** The records of the rows that parse, in file order. */
  function ParsedTransactions(rows: seq<Row>, parse: Row -> RowResult): seq<Transaction>
    decreases |rows|
  {
    if rows == [] then []
    else
      ParsedTransactions(rows[..|rows| - 1], parse) + RecordOf(parse(rows[|rows| - 1]))
  }

  function RecordOf(result: RowResult): seq<Transaction> {
    match result
    case Parsed(t) => [t]
    case _ => []
  }

  lemma ParsedTransactionsStep(rows: seq<Row>, i: nat, parse: Row -> RowResult)
    requires i < |rows|
    ensures ParsedTransactions(rows[..i + 1], parse) == ParsedTransactions(rows[..i], parse) + RecordOf(parse(rows[i]))
  {
    assert rows[..i + 1][..i] == rows[..i];
  }

  /** Each record whose id was not seen earlier in the file, in file order. */
  function Dedup(ts: seq<Transaction>): seq<Transaction>
    decreases |ts|
  {
    if ts == [] then []
    else
      var d := Dedup(ts[..|ts| - 1]);
      var t := ts[|ts| - 1];
      if t.id in Ids(d) then d else d + [t]
  }

  /** Deduplication loses no id and invents no record. */
  lemma {:induction false} DedupIds(ts: seq<Transaction>)
    ensures Ids(Dedup(ts)) == Ids(ts)
    ensures forall t :: t in Dedup(ts) ==> t in ts
    decreases |ts|
  {
    if ts != [] {
      var n := |ts| - 1;
      var init, t := ts[..n], ts[n];
      var d := Dedup(init);
      DedupIds(init);
      assert ts == init + [t];
      IdsAppend(init, t);
      assert forall u :: u in init ==> u in ts;
      if t.id !in Ids(d) {
        IdsAppend(d, t);
      }
    }
  }

  lemma {:induction false} DedupUnique(ts: seq<Transaction>)
    ensures UniqueTransactionIds(Dedup(ts))
    decreases |ts|
  {
    if ts != [] {
      var n := |ts| - 1;
      var d, t := Dedup(ts[..n]), ts[n];
      DedupUnique(ts[..n]);
      if t.id !in Ids(d) {
        var r := d + [t];
        forall i, j | 0 <= i < j < |r| ensures r[i].id != r[j].id {
          assert r[i] == d[i];
          if j < |d| {
            assert r[j] == d[j];
          }
        }
      }
    }
  }

  lemma {:induction false} DedupFirst(ts: seq<Transaction>)
    ensures forall i :: 0 <= i < |ts| && (forall j :: 0 <= j < i ==> ts[j].id != ts[i].id) ==> ts[i] in Dedup(ts)
    decreases |ts|
  {
    if ts != [] {
      var n := |ts| - 1;
      var init, t := ts[..n], ts[n];
      var d := Dedup(init);
      DedupFirst(init);
      DedupIds(init);
      var r := Dedup(ts);
      if t.id in Ids(d) {
        assert r == d;
      } else {
        assert r == d + [t];
      }
      assert forall u :: u in d ==> u in r;
      forall i | 0 <= i < |ts| && (forall j :: 0 <= j < i ==> ts[j].id != ts[i].id)
        ensures ts[i] in r
      {
        if i < n {
          assert init[i] == ts[i];
        } else {
          assert forall k :: 0 <= k < n ==> init[k].id != t.id;
          assert t.id !in Ids(init);
        }
      }
    }
  }

  /**
   * Deduplication keeps the first record of every id and nothing else: the
   * ids become unique, none is lost, and every kept record comes from the input.
   */
  lemma DedupSpec(ts: seq<Transaction>)
    ensures UniqueTransactionIds(Dedup(ts))
    ensures Ids(Dedup(ts)) == Ids(ts)
    ensures forall t :: t in Dedup(ts) ==> t in ts
    ensures forall i :: 0 <= i < |ts| && (forall j :: 0 <= j < i ==> ts[j].id != ts[i].id) ==> ts[i] in Dedup(ts)
  {
    DedupIds(ts);
    DedupUnique(ts);
    DedupFirst(ts);
  }

  /** Unique ids count the records. */
  lemma {:induction false} UniqueIdsCount(ts: seq<Transaction>)
    requires UniqueTransactionIds(ts)
    ensures |Ids(ts)| == |ts|
    decreases |ts|
  {
    if ts != [] {
      var n := |ts| - 1;
      UniqueIdsCount(ts[..n]);
      assert ts == ts[..n] + [ts[n]];
      assert Ids(ts) == Ids(ts[..n]) + {ts[n].id};
      assert ts[n].id !in Ids(ts[..n]);
    }
  }

  /** A file holds one stored record per distinct id among its parsed rows (3 rows with 1 duplicate store 2). */
  lemma DedupCount(ts: seq<Transaction>)
    ensures |Dedup(ts)| == |Ids(ts)|
  {
    DedupSpec(ts);
    UniqueIdsCount(Dedup(ts));
  }

  /**
   * Merging records with distinct ids: the ids stay unique and grow by the
   * records' ids, other ids are untouched, and each record's id looks it up
   * with the subcategory the store had for it.
   */
  lemma UpsertAllSpec(txs: seq<Transaction>, ts: seq<Transaction>)
    requires UniqueTransactionIds(txs) && UniqueTransactionIds(ts)
    ensures var r := UpsertAll(txs, ts);
      && UniqueTransactionIds(r)
      && Ids(r) == Ids(txs) + Ids(ts)
      && (forall id :: id !in Ids(ts) ==> Lookup(r, id) == Lookup(txs, id))
      && (forall k :: 0 <= k < |ts| ==> Lookup(r, ts[k].id) == Some(ts[k].(subcategoryId := KeptSubcategory(txs, ts[k]))))
  {
    UpsertAllUnique(txs, ts);
    UpsertAllIds(txs, ts);
    forall id | id !in Ids(ts) ensures Lookup(UpsertAll(txs, ts), id) == Lookup(txs, id) {
      UpsertAllOthers(txs, ts, id);
    }
    forall k | 0 <= k < |ts|
      ensures Lookup(UpsertAll(txs, ts), ts[k].id) == Some(ts[k].(subcategoryId := KeptSubcategory(txs, ts[k])))
    {
      UpsertAllLookup(txs, ts, k);
    }
  }

  lemma {:induction false} UpsertAllIds(txs: seq<Transaction>, ts: seq<Transaction>)
    requires UniqueTransactionIds(txs)
    ensures Ids(UpsertAll(txs, ts)) == Ids(txs) + Ids(ts)
    decreases |ts|
  {
    if ts != [] {
      var n := |ts| - 1;
      var init, last := ts[..n], ts[n];
      assert ts == init + [last];
      IdsAppend(init, last);
      UpsertAllIds(txs, init);
      UpsertAllUnique(txs, init);
      UpsertSpec(UpsertAll(txs, init), last);
    }
  }

  lemma {:induction false} UpsertAllOthers(txs: seq<Transaction>, ts: seq<Transaction>, id: string)
    requires UniqueTransactionIds(txs) && id !in Ids(ts)
    ensures Lookup(UpsertAll(txs, ts), id) == Lookup(txs, id)
    decreases |ts|
  {
    if ts != [] {
      var n := |ts| - 1;
      var init, last := ts[..n], ts[n];
      assert ts == init + [last];
      IdsAppend(init, last);
      UpsertAllOthers(txs, init, id);
      UpsertAllUnique(txs, init);
      UpsertSpec(UpsertAll(txs, init), last);
    }
  }

  lemma {:induction false} UpsertAllLookup(txs: seq<Transaction>, ts: seq<Transaction>, k: nat)
    requires UniqueTransactionIds(txs) && UniqueTransactionIds(ts) && k < |ts|
    ensures Lookup(UpsertAll(txs, ts), ts[k].id) == Some(ts[k].(subcategoryId := KeptSubcategory(txs, ts[k])))
    decreases |ts|
  {
    var n := |ts| - 1;
    var init, last := ts[..n], ts[n];
    assert ts == init + [last];
    var r' := UpsertAll(txs, init);
    UpsertAllUnique(txs, init);
    UpsertSpec(r', last);
    if k < n {
      assert init[k] == ts[k] && ts[k].id != last.id;
      UpsertAllLookup(txs, init, k);
    } else {
      assert last.id !in Ids(init) by {
        forall u | u in init ensures u.id != last.id {
          var j :| 0 <= j < n && init[j] == u;
          assert ts[j] == u;
        }
      }
      UpsertAllOthers(txs, init, last.id);
    }
  }

  lemma {:induction false} ParsedTransactionsUncategorized(rows: seq<Row>, parse: Row -> RowResult)
    requires forall row :: parse(row).Parsed? ==> parse(row).t.subcategoryId.None?
    ensures var ts := ParsedTransactions(rows, parse);
      forall k :: 0 <= k < |ts| ==> ts[k].subcategoryId.None?
    decreases |rows|
  {
    if rows != [] {
      var n := |rows| - 1;
      var init := ParsedTransactions(rows[..n], parse);
      ParsedTransactionsUncategorized(rows[..n], parse);
      assert forall k :: 0 <= k < |init| ==> init[k].subcategoryId.None? by {
        assert var ts := ParsedTransactions(rows[..n], parse);
          forall k :: 0 <= k < |ts| ==> ts[k].subcategoryId.None?;
      }
      var res := parse(rows[n]);
      var tail := RecordOf(res);
      var ts := ParsedTransactions(rows, parse);
      assert ts == init + tail;
      forall k | 0 <= k < |ts| ensures ts[k].subcategoryId.None? {
        if k < |init| {
          assert ts[k] == init[k];
        } else {
          assert ts[k] == tail[k - |init|];
        }
      }
    }
  }

  /** Every record `ParseRow` builds is uncategorised. */
  lemma RowParserUncategorized(parseDate: string -> Option<Date>, parseDecimal: string -> Option<Decimal>,
                               hash: string -> string)
    ensures var parse := RowParser(parseDate, parseDecimal, hash);
      forall row :: parse(row).Parsed? ==> parse(row).t.subcategoryId.None?
  {
    forall row ensures ParseRow(row, parseDate, parseDecimal, hash).Parsed? ==>
      ParseRow(row, parseDate, parseDecimal, hash).t.subcategoryId.None?
    {
      ParseRowSpec(row, parseDate, parseDecimal, hash);
    }
  }

  /**
   * The store after an import: ids stay unique; the stored ids are the
   * earlier ones and those of the parsed rows; a transaction the file does
   * not mention is untouched; an id of the file holds the first row with that
   * id, keeping any subcategory it already had.
   */
  lemma ImportedStore(txs: seq<Transaction>, rows: seq<Row>, parseDate: string -> Option<Date>,
                      parseDecimal: string -> Option<Decimal>, hash: string -> string)
    requires UniqueTransactionIds(txs)
    ensures var ts := ParsedTransactions(rows, RowParser(parseDate, parseDecimal, hash));
      var r := UpsertAll(txs, Dedup(ts));
      && UniqueTransactionIds(r)
      && Ids(r) == Ids(txs) + Ids(ts)
      && (forall id :: id !in Ids(ts) ==> Lookup(r, id) == Lookup(txs, id))
      && (forall i :: 0 <= i < |ts| && (forall j :: 0 <= j < i ==> ts[j].id != ts[i].id) ==>
            Lookup(r, ts[i].id) == Some(ts[i].(subcategoryId := KeptSubcategory(txs, ts[i]))))
  {
    var ts := ParsedTransactions(rows, RowParser(parseDate, parseDecimal, hash));
    var d := Dedup(ts);
    DedupSpec(ts);
    UpsertAllSpec(txs, d);
    var r := UpsertAll(txs, d);
    forall i | 0 <= i < |ts| && (forall j :: 0 <= j < i ==> ts[j].id != ts[i].id)
      ensures Lookup(r, ts[i].id) == Some(ts[i].(subcategoryId := KeptSubcategory(txs, ts[i])))
    {
      assert ts[i] in d;
      var k :| 0 <= k < |d| && d[k] == ts[i];
    }
  }

  /** Every transaction an import keeps from the file is uncategorised. */
  lemma ImportedUncategorized(rows: seq<Row>, parseDate: string -> Option<Date>,
                              parseDecimal: string -> Option<Decimal>, hash: string -> string)
    ensures var d := Dedup(ParsedTransactions(rows, RowParser(parseDate, parseDecimal, hash)));
      forall k :: 0 <= k < |d| ==> d[k].subcategoryId.None?
  {
    var ts := ParsedTransactions(rows, RowParser(parseDate, parseDecimal, hash));
    var d := Dedup(ts);
    DedupIds(ts);
    RowParserUncategorized(parseDate, parseDecimal, hash);
    ParsedTransactionsUncategorized(rows, RowParser(parseDate, parseDecimal, hash));
    assert forall k :: 0 <= k < |ts| ==> ts[k].subcategoryId.None? by {
      assert var ts := ParsedTransactions(rows, RowParser(parseDate, parseDecimal, hash));
        forall k :: 0 <= k < |ts| ==> ts[k].subcategoryId.None?;
    }
    forall k | 0 <= k < |d| ensures d[k].subcategoryId.None? {
      assert d[k] in ts;
      var j :| 0 <= j < |ts| && ts[j] == d[k];
    }
  }

  /** A transaction an import adds to the store arrives uncategorised. */
  lemma ImportedNewUncategorized(txs: seq<Transaction>, rows: seq<Row>, parseDate: string -> Option<Date>,
                                 parseDecimal: string -> Option<Decimal>, hash: string -> string, id: string)
    requires UniqueTransactionIds(txs)
    requires id !in Ids(txs)
    requires id in Ids(ParsedTransactions(rows, RowParser(parseDate, parseDecimal, hash)))
    ensures var r := UpsertAll(txs, Dedup(ParsedTransactions(rows, RowParser(parseDate, parseDecimal, hash))));
      Lookup(r, id).Some? && Lookup(r, id).value.subcategoryId.None?
  {
    var d := Dedup(ParsedTransactions(rows, RowParser(parseDate, parseDecimal, hash)));
    DedupSpec(ParsedTransactions(rows, RowParser(parseDate, parseDecimal, hash)));
    ImportedUncategorized(rows, parseDate, parseDecimal, hash);
    assert forall k :: 0 <= k < |d| ==> d[k].subcategoryId.None?;
    var k :| 0 <= k < |d| && d[k].id == id;
    UpsertAllLookup(txs, d, k);
  }

  /** Into an empty store, an import stores one transaction per distinct id of its parsed rows. */
  lemma ImportIntoEmpty(rows: seq<Row>, parseDate: string -> Option<Date>,
                        parseDecimal: string -> Option<Decimal>, hash: string -> string)
    ensures var ts := ParsedTransactions(rows, RowParser(parseDate, parseDecimal, hash));
      |UpsertAll([], Dedup(ts))| == |Ids(ts)|
  {
    var ts := ParsedTransactions(rows, RowParser(parseDate, parseDecimal, hash));
    ImportedStore([], rows, parseDate, parseDecimal, hash);
    assert Ids([]) == {};
    UniqueIdsCount(UpsertAll([], Dedup(ts)));
  }

  lemma IdsAppend(ts: seq<Transaction>, t: Transaction)
    ensures Ids(ts + [t]) == Ids(ts) + {t.id}
  {
    assert forall u :: u in ts + [t] <==> u in ts || u == t;
  }

  lemma {:induction false} UpsertAllUnique(txs: seq<Transaction>, ts: seq<Transaction>)
    requires UniqueTransactionIds(txs)
    ensures UniqueTransactionIds(UpsertAll(txs, ts))
    decreases |ts|
  {
    if ts != [] {
      UpsertAllUnique(txs, ts[..|ts| - 1]);
      UpsertSpec(UpsertAll(txs, ts[..|ts| - 1]), ts[|ts| - 1]);
    }
  }

  lemma DedupStep(ps: seq<Transaction>, t: Transaction)
    ensures Dedup(ps + [t]) == if t.id in Ids(Dedup(ps)) then Dedup(ps) else Dedup(ps) + [t]
  {
    assert (ps + [t])[..|ps|] == ps;
  }

  lemma UpsertAllStep(txs: seq<Transaction>, d: seq<Transaction>, t: Transaction)
    ensures UpsertAll(txs, d + [t]) == Upsert(UpsertAll(txs, d), t)
  {
    assert (d + [t])[..|d|] == d;
  }

  /** One more row: its record is kept when it parses and its id is new. */
  lemma KeptStep(rows: seq<Row>, i: nat, parse: Row -> RowResult, kept: seq<Transaction>)
    requires i < |rows| && kept == Dedup(ParsedTransactions(rows[..i], parse))
    ensures var next := Dedup(ParsedTransactions(rows[..i + 1], parse));
      next == if parse(rows[i]).Parsed? && parse(rows[i]).t.id !in Ids(kept) then kept + [parse(rows[i]).t] else kept
  {
    var ps := ParsedTransactions(rows[..i], parse);
    ParsedTransactionsStep(rows, i, parse);
    match parse(rows[i])
    case Parsed(t) =>
      assert ParsedTransactions(rows[..i + 1], parse) == ps + [t];
      DedupStep(ps, t);
    case _ =>
      assert ParsedTransactions(rows[..i + 1], parse) == ps + [];
      assert ps + [] == ps;
  }

  /** What the row loop has built after its first `i` rows. */
  ghost predicate MergedUpTo(txs: seq<Transaction>, rows: seq<Row>, parse: Row -> RowResult, i: nat,
                             merged: seq<Transaction>, processedIds: set<string>, processed: nat)
  {
    i <= |rows| &&
    var kept := Dedup(ParsedTransactions(rows[..i], parse));
    processed == |kept| && processedIds == Ids(kept) && merged == UpsertAll(txs, kept)
  }

  lemma MergedUpToStart(txs: seq<Transaction>, rows: seq<Row>, parse: Row -> RowResult)
    ensures MergedUpTo(txs, rows, parse, 0, txs, {}, 0)
  {
    assert rows[..0] == [];
    assert Ids([]) == {};
  }

  lemma MergedUpToEnd(txs: seq<Transaction>, rows: seq<Row>, parse: Row -> RowResult,
                      merged: seq<Transaction>, processedIds: set<string>, processed: nat)
    requires MergedUpTo(txs, rows, parse, |rows|, merged, processedIds, processed)
    ensures processed == |Dedup(ParsedTransactions(rows, parse))|
    ensures merged == UpsertAll(txs, Dedup(ParsedTransactions(rows, parse)))
  {
    assert rows[..|rows|] == rows;
  }

  lemma MergedUpToStep(txs: seq<Transaction>, rows: seq<Row>, parse: Row -> RowResult, i: nat,
                       merged: seq<Transaction>, processedIds: set<string>, processed: nat)
    requires i < |rows| && MergedUpTo(txs, rows, parse, i, merged, processedIds, processed)
    ensures var r := parse(rows[i]);
      if r.Parsed? && r.t.id !in processedIds
      then MergedUpTo(txs, rows, parse, i + 1, Upsert(merged, r.t), processedIds + {r.t.id}, processed + 1)
      else MergedUpTo(txs, rows, parse, i + 1, merged, processedIds, processed)
  {
    var kept := Dedup(ParsedTransactions(rows[..i], parse));
    KeptStep(rows, i, parse, kept);
    var r := parse(rows[i]);
    if r.Parsed? && r.t.id !in processedIds {
      UpsertAllStep(txs, kept, r.t);
      IdsAppend(kept, r.t);
    }
  }

  /**
   * The body of the row loop of `import_rabobank_csv` for the outcome of row
   * `i`: a parsed record whose id was not processed yet is merged and counted
   * as processed; anything else is counted as skipped.
   */
  method ProcessRow(ghost txs: seq<Transaction>, ghost rows: seq<Row>, ghost parse: Row -> RowResult, ghost i: nat,
                    result: RowResult, merged: seq<Transaction>, processedIds: set<string>,
                    processed: nat, skipped: nat)
    returns (merged': seq<Transaction>, processedIds': set<string>, processed': nat, skipped': nat)
    requires i < |rows| && result == parse(rows[i])
    requires MergedUpTo(txs, rows, parse, i, merged, processedIds, processed)
    ensures MergedUpTo(txs, rows, parse, i + 1, merged', processedIds', processed')
    ensures processed' + skipped' == processed + skipped + 1
  {
    MergedUpToStep(txs, rows, parse, i, merged, processedIds, processed);
    merged', processedIds', processed', skipped' := merged, processedIds, processed, skipped;
    if result.Parsed? {
      var t := result.t;
      if t.id in processedIds {
        skipped' := skipped + 1;
      } else {
        processedIds' := processedIds + {t.id};
        merged' := Upsert(merged, t);
        processed' := processed + 1;
      }
    } else {
      skipped' := skipped + 1;
    }
  }

  /**
   * The row loop of `import_rabobank_csv`: every row counts as processed or
   * skipped, and the processed ones are the first rows of their id that
   * parse, merged in file order into the stored transactions.
   */
  method MergeRows(txs: seq<Transaction>, rows: seq<Row>, parse: Row -> RowResult)
    returns (merged: seq<Transaction>, processed: nat, skipped: nat)
    ensures processed + skipped == |rows|
    ensures processed == |Dedup(ParsedTransactions(rows, parse))|
    ensures merged == UpsertAll(txs, Dedup(ParsedTransactions(rows, parse)))
  {
    merged := txs;
    processed, skipped := 0, 0;
    var processedIds: set<string> := {};
    MergedUpToStart(txs, rows, parse);
    var i := 0;
    while i < |rows|
      invariant 0 <= i <= |rows|
      invariant processed + skipped == i
      invariant MergedUpTo(txs, rows, parse, i, merged, processedIds, processed)
    {
      var result := parse(rows[i]);
      merged, processedIds, processed, skipped :=
        ProcessRow(txs, rows, parse, i, result, merged, processedIds, processed, skipped);
      i := i + 1;
    }
    MergedUpToEnd(txs, rows, parse, merged, processedIds, processed);
  }

  /**
   * `import_rabobank_csv` after reading the file: the row loop, then one
   * commit, rolled back when it fails.
   */
  method ImportRabobankRows(s: Session, rows: seq<Row>, parseDate: string -> Option<Date>,
                            parseDecimal: string -> Option<Decimal>, hash: string -> string,
                            commitSucceeds: bool)
    returns (processed: nat, skipped: nat)
    requires s.Valid()
    modifies s
    ensures s.Valid()
    ensures processed + skipped == |rows|
    ensures processed == |Dedup(ParsedTransactions(rows, RowParser(parseDate, parseDecimal, hash)))|
    ensures commitSucceeds ==>
      s.db == s.committed
      == old(s.db).(transactions := UpsertAll(old(s.db).transactions,
                                              Dedup(ParsedTransactions(rows, RowParser(parseDate, parseDecimal, hash)))))
    ensures !commitSucceeds ==> s.db == s.committed == old(s.committed)
  {
    var merged;
    merged, processed, skipped := MergeRows(s.db.transactions, rows, RowParser(parseDate, parseDecimal, hash));
    UpsertAllUnique(s.db.transactions, Dedup(ParsedTransactions(rows, RowParser(parseDate, parseDecimal, hash))));
    s.db := s.db.(transactions := merged);
    s.Commit(commitSucceeds);
  }
}
