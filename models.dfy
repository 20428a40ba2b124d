/**
 * The persistent records (src/finanseer/models.py) and the unit of work that
 * holds them (the SQLAlchemy session). Amounts are whole cents: the column is
 * `Numeric(10, 2)`.
 */
module Models {
  import opened Wrappers

  /** A calendar date, as Python's `datetime.date`. */
  datatype Date = Date(year: nat, month: nat, day: nat)

  predicate IsLeapYear(y: int) {
    (y % 4 == 0 && y % 100 != 0) || y % 400 == 0
  }

  function DaysInMonth(y: int, m: int): int {
    if m == 2 then (if IsLeapYear(y) then 29 else 28)
    else if m == 4 || m == 6 || m == 9 || m == 11 then 30
    else 31
  }

  /** The dates `datetime.date` can represent. */
  predicate ValidDate(d: Date) {
    1 <= d.year <= 9999 && 1 <= d.month <= 12 && 1 <= d.day <= DaysInMonth(d.year, d.month)
  }

  /** Chronological order, which for dates is the order of (year, month, day). */
  predicate DateLe(a: Date, b: Date) {
    a.year < b.year || (a.year == b.year && (a.month < b.month || (a.month == b.month && a.day <= b.day)))
  }

  datatype MutationType = Debit | Credit

  /** The text stored in the `mutation_type` column. */
  function MutationTypeValue(m: MutationType): string {
    match m
    case Debit => "debit"
    case Credit => "credit"
  }

  /** A row of the `transactions` table; `subcategoryId == None` means uncategorised. */
  datatype Transaction = Transaction(
    id: string,
    accountId: string,
    transactionDate: Date,
    amount: int,
    currency: string,
    counterpartyName: Option<string>,
    counterpartyIban: Option<string>,
    descriptionRaw: Option<string>,
    mutationType: MutationType,
    bankSource: string,
    subcategoryId: Option<int>)

  /** A row of the `categories` table. */
  datatype Category = Category(id: int, name: string)

  /** A row of the `subcategories` table. */
  datatype Subcategory = Subcategory(id: int, name: string, categoryId: int)

  /** The three tables of the store, rows in insertion order. */
  datatype Tables = Tables(
    transactions: seq<Transaction>,
    categories: seq<Category>,
    subcategories: seq<Subcategory>)

  /** The primary key of `transactions`. */
  predicate UniqueTransactionIds(txs: seq<Transaction>) {
    forall i, j :: 0 <= i < j < |txs| ==> txs[i].id != txs[j].id
  }

  /** The primary key and the unique `name` of `categories`. */
  predicate CategoriesValid(cats: seq<Category>) {
    forall i, j :: 0 <= i < j < |cats| ==> cats[i].id != cats[j].id && cats[i].name != cats[j].name
  }

  /** The primary key, the unique (name, category_id) pair and the foreign key of `subcategories`. */
  predicate SubcategoriesValid(subs: seq<Subcategory>, cats: seq<Category>) {
    && (forall i, j :: 0 <= i < j < |subs| ==>
          subs[i].id != subs[j].id && (subs[i].name, subs[i].categoryId) != (subs[j].name, subs[j].categoryId))
    && (forall i :: 0 <= i < |subs| ==> exists k :: 0 <= k < |cats| && cats[k].id == subs[i].categoryId)
  }

  /** The constraints the schema declares. */
  predicate ValidTables(t: Tables) {
    UniqueTransactionIds(t.transactions) && CategoriesValid(t.categories)
    && SubcategoriesValid(t.subcategories, t.categories)
  }

  /**
   * A database session: `db` is what the session sees, pending changes
   * included; `committed` is what the database holds durably.
   */
  class Session {
    var db: Tables
    var committed: Tables

    ghost predicate Valid()
      reads this
    {
      ValidTables(db) && ValidTables(committed)
    }

    constructor (initial: Tables)
      requires ValidTables(initial)
      ensures Valid() && db == initial && committed == initial
    {
      db := initial;
      committed := initial;
    }

    /**
     * `db.commit()`, with `db.rollback()` when it raises: either the pending
     * changes become durable, or they are discarded and the session sees the
     * committed state again. Whether the commit succeeds is not modelled.
     */
    method Commit(succeeds: bool)
      requires Valid()
      modifies this
      ensures Valid()
      ensures succeeds ==> db == old(db) && committed == old(db)
      ensures !succeeds ==> db == old(committed) && committed == old(committed)
    {
      if succeeds {
        committed := db;
      } else {
        db := committed;
      }
    }
  }
}
