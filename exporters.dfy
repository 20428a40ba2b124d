/**
 * The YNAB export (`export_transactions_to_ynab_csv`,
 * src/finanseer/exporters.py) up to the records handed to pandas: every
 * transaction, joined with its subcategory and category names, ordered by
 * date, becomes one record.
 */
module Exporters {
  import opened Wrappers
  import opened Strings
  import opened Sorting
  import opened Models
  import opened Schemas
  import opened Core

  /** One row of the CSV file. */
  datatype YnabRecord = YnabRecord(
    date: string,
    payee: Option<string>,
    memo: Option<string>,
    outflow: Option<string>,
    inflow: Option<string>,
    category: string)

  // ---------------------------------------------------------------------------
  // The query

  /** The category with primary key `id`. */
  function FindCategory(cats: seq<Category>, id: int): (r: Option<Category>)
    ensures r.Some? <==> exists k :: 0 <= k < |cats| && cats[k].id == id
    ensures r.Some? ==> r.value in cats && r.value.id == id
    decreases |cats|
  {
    if cats == [] then None
    else if cats[0].id == id then Some(cats[0])
    else
      var r := FindCategory(cats[1..], id);
      assert forall k :: 1 <= k < |cats| ==> cats[k] == cats[1..][k - 1];
      r
  }

  /** `Subcategory.name` of the outer join along `Transaction.subcategory`. */
  function SubcategoryName(db: Tables, t: Transaction): Option<string> {
    match t.subcategoryId
    case None => None
    case Some(id) =>
      match FindSubcategory(db.subcategories, id)
      case None => None
      case Some(sub) => Some(sub.name)
  }

  /** `Category.name` of the outer join along `Subcategory.category`. */
  function CategoryName(db: Tables, t: Transaction): Option<string> {
    match t.subcategoryId
    case None => None
    case Some(id) =>
      match FindSubcategory(db.subcategories, id)
      case None => None
      case Some(sub) =>
        match FindCategory(db.categories, sub.categoryId)
        case None => None
        case Some(c) => Some(c.name)
  }

  /** `db.query(Transaction, ...).order_by(Transaction.transaction_date).all()`; the order of ties is the store's. */
  function ExportQuery(db: Tables): seq<Transaction> {
    SortBy(db.transactions, DateAsc)
  }

  /** The query returns every transaction once, uncategorised ones included, by non-decreasing date. */
  lemma ExportQuerySpec(db: Tables)
    ensures multiset(ExportQuery(db)) == multiset(db.transactions)
    ensures |ExportQuery(db)| == |db.transactions|
    ensures var q := ExportQuery(db);
      forall i, j :: 0 <= i < j < |q| ==> DateLe(q[i].transactionDate, q[j].transactionDate)
  {
    OrdersArePreorders("");
    SortBySorted(db.transactions, DateAsc);
  }

  /** A categorised transaction whose subcategory and category exist carries both names. */
  lemma JoinedNames(db: Tables, t: Transaction, sub: Subcategory, c: Category)
    requires ValidTables(db) && t.subcategoryId == Some(sub.id) && sub in db.subcategories
    requires c in db.categories && c.id == sub.categoryId
    ensures SubcategoryName(db, t) == Some(sub.name) && CategoryName(db, t) == Some(c.name)
  {
    var k :| 0 <= k < |db.subcategories| && db.subcategories[k] == sub;
    var f := FindSubcategory(db.subcategories, sub.id).value;
    var kf :| 0 <= kf < |db.subcategories| && db.subcategories[kf] == f;
    assert kf == k;
    var j :| 0 <= j < |db.categories| && db.categories[j] == c;
    var g := FindCategory(db.categories, c.id).value;
    var jg :| 0 <= jg < |db.categories| && db.categories[jg] == g;
    assert jg == j;
  }

  /** An uncategorised transaction has neither name. */
  lemma UncategorizedNames(db: Tables, t: Transaction)
    requires t.subcategoryId.None?
    ensures SubcategoryName(db, t).None? && CategoryName(db, t).None?
  {
  }

  // ---------------------------------------------------------------------------
  // One record

  /** `f"{cat_name}: {sub_name}" if cat_name and sub_name else ""`. */
  function CategoryLabel(catName: Option<string>, subName: Option<string>): string {
    if Truthy(catName) && Truthy(subName) then catName.value + ": " + subName.value else ""
  }

  /**
   * The label is non-empty exactly when both names are present and
   * non-empty; it then starts with the category name, followed by ": ", and
   * ends with the subcategory name.
   */
  lemma CategoryLabelSpec(catName: Option<string>, subName: Option<string>)
    ensures CategoryLabel(catName, subName) != "" <==> Truthy(catName) && Truthy(subName)
    ensures var l := CategoryLabel(catName, subName);
      Truthy(catName) && Truthy(subName) ==>
        && |l| == |catName.value| + 2 + |subName.value|
        && l[..|catName.value|] == catName.value
        && l[|catName.value|..|catName.value| + 2] == ": "
        && l[|catName.value| + 2..] == subName.value
  {
    if Truthy(catName) && Truthy(subName) {
      var l := CategoryLabel(catName, subName);
      var c, s := catName.value, subName.value;
      assert l == c + ": " + s;
      assert l[..|c|] == c;
      assert l[|c|..|c| + 2] == ": ";
      assert l[|c| + 2..] == s;
    }
  }

  /** `f"{transaction.amount:.2f}"` of an amount in cents. */
  function AmountString(amount: int): string {
    TwoDecimals(amount < 0, if amount < 0 then -amount else amount)
  }

  /** The amount string has exactly two decimals, and different amounts give different strings. */
  lemma AmountStringSpec(a: int, b: int)
    ensures var s := AmountString(a);
      |s| >= 4 && s[|s| - 3] == '.' && IsDigit(s[|s| - 2]) && IsDigit(s[|s| - 1])
    ensures AmountString(a) == AmountString(b) ==> a == b
  {
    var neg, cents := a < 0, if a < 0 then -a else a;
    TwoDecimalsUnsigned(cents);
    TwoDecimalsSign(neg, cents);
    var s, u := AmountString(a), TwoDecimals(false, cents);
    assert s[|s| - 3..] == u[|u| - 3..];
    if AmountString(a) == AmountString(b) {
      TwoDecimalsInjective(a < 0, cents, b < 0, if b < 0 then -b else b);
    }
  }

  /** Outflow and inflow: a debit fills only the outflow, anything else only the inflow. */
  function Flows(t: Transaction): (Option<string>, Option<string>) {
    if t.mutationType == Debit then (Some(AmountString(t.amount)), None) else (None, Some(AmountString(t.amount)))
  }

  /** Exactly one of outflow and inflow is set, the outflow exactly for a debit, and it holds the amount. */
  lemma FlowsSpec(t: Transaction)
    ensures var (outflow, inflow) := Flows(t);
      && (outflow.Some? <==> t.mutationType == Debit)
      && (inflow.Some? <==> !outflow.Some?)
      && (outflow.Some? ==> outflow.value == AmountString(t.amount))
      && (inflow.Some? ==> inflow.value == AmountString(t.amount))
  {
  }

  /** `date.strftime('%m/%d/%Y')`. */
  function UsDate(d: Date): string {
    Padded(d.month, 2) + "/" + Padded(d.day, 2) + "/" + Padded(d.year, 4)
  }

  /** The rendering is MM/DD/YYYY, the fields of the ISO rendering rearranged, and distinct dates stay distinct. */
  lemma UsDateSpec(a: Date, b: Date)
    requires ValidDate(a) && ValidDate(b)
    ensures var s, iso := UsDate(a), IsoFormat(a);
      && |s| == 10 && s[2] == '/' && s[5] == '/'
      && s[..2] == iso[5..7] && s[3..5] == iso[8..] && s[6..] == iso[..4]
    ensures UsDate(a) == UsDate(b) ==> a == b
  {
    var s, iso := UsDate(a), IsoFormat(a);
    assert s[..2] == Padded(a.month, 2) && s[3..5] == Padded(a.day, 2) && s[6..] == Padded(a.year, 4);
    assert iso[..4] == Padded(a.year, 4) && iso[5..7] == Padded(a.month, 2) && iso[8..] == Padded(a.day, 2);
    if UsDate(a) == UsDate(b) {
      var t := UsDate(b);
      assert t[..2] == Padded(b.month, 2) && t[3..5] == Padded(b.day, 2) && t[6..] == Padded(b.year, 4);
      assert Pow10(2) == 100 && Pow10(4) == 10000;
      PaddedInjective(a.year, b.year, 4);
      PaddedInjective(a.month, b.month, 2);
      PaddedInjective(a.day, b.day, 2);
    }
  }

  /** The record of one transaction, given the names joined to it. */
  function BuildRecord(t: Transaction, catName: Option<string>, subName: Option<string>): (r: YnabRecord) {
    var (outflow, inflow) := Flows(t);
    YnabRecord(UsDate(t.transactionDate), t.counterpartyName, t.descriptionRaw, outflow, inflow,
               CategoryLabel(catName, subName))
  }

  /** The record of `t` in store `db`. */
  function ExportRecord(db: Tables, t: Transaction): YnabRecord {
    BuildRecord(t, CategoryName(db, t), SubcategoryName(db, t))
  }

  /** An uncategorised transaction is exported with an empty category label. */
  lemma UncategorizedLabel(db: Tables, t: Transaction)
    requires t.subcategoryId.None?
    ensures ExportRecord(db, t).category == ""
  {
    UncategorizedNames(db, t);
  }

  // ---------------------------------------------------------------------------
  // The loop

  /**
   * The record-building loop of `export_transactions_to_ynab_csv`: one
   * record per row of the query, in query order. No records means nothing
   * is written.
   */
  method ExportRecords(db: Tables) returns (records: seq<YnabRecord>)
    ensures |records| == |db.transactions|
    ensures forall i :: 0 <= i < |records| ==> records[i] == ExportRecord(db, ExportQuery(db)[i])
    ensures records == [] <==> db.transactions == []
  {
    var rows := ExportQuery(db);
    ExportQuerySpec(db);
    records := [];
    for i := 0 to |rows|
      invariant |records| == i
      invariant forall k :: 0 <= k < i ==> records[k] == ExportRecord(db, rows[k])
    {
      var t := rows[i];
      var catName, subName := CategoryName(db, t), SubcategoryName(db, t);
      var categoryLabel := CategoryLabel(catName, subName);
      var outflow, inflow := None, None;
      if t.mutationType == Debit {
        outflow := Some(AmountString(t.amount));
      } else {
        inflow := Some(AmountString(t.amount));
      }
      records := records + [YnabRecord(UsDate(t.transactionDate), t.counterpartyName, t.descriptionRaw,
                                       outflow, inflow, categoryLabel)];
    }
  }
}
