/**
 * The categorisation queries and the assignment primitive
 * (src/finanseer/core.py). Queries read what the session sees (`db`); the
 * assignment updates it and then commits or rolls back.
 */
module Core {
  import opened Wrappers
  import opened Strings
  import opened Sorting
  import opened Models

  // ---------------------------------------------------------------------------
  // Orders

  /** `ORDER BY amount DESC`. */
  function AmountDesc(a: Transaction, b: Transaction): bool {
    a.amount >= b.amount
  }

  /** `ORDER BY transaction_date DESC`. */
  function DateDesc(a: Transaction, b: Transaction): bool {
    DateLe(b.transactionDate, a.transactionDate)
  }

  /** `ORDER BY transaction_date` (ascending). */
  function DateAsc(a: Transaction, b: Transaction): bool {
    DateLe(a.transactionDate, b.transactionDate)
  }

  /** The order `get_uncategorized_transactions` uses: by amount for "amount", by date otherwise. */
  function UncategorizedOrder(sortBy: string): (Transaction, Transaction) -> bool {
    if sortBy == "amount" then AmountDesc else DateDesc
  }

  lemma DateLeTotalPreorder()
    ensures forall a, b :: DateLe(a, b) || DateLe(b, a)
    ensures forall a, b, c :: DateLe(a, b) && DateLe(b, c) ==> DateLe(a, c)
  {
  }

  /** Every order used by the queries is a total preorder, so sorting by it gives an ordered result. */
  lemma OrdersArePreorders(sortBy: string)
    ensures Total(UncategorizedOrder(sortBy)) && Transitive(UncategorizedOrder(sortBy))
    ensures Total(DateDesc) && Transitive(DateDesc)
    ensures Total(DateAsc) && Transitive(DateAsc)
  {
    DateLeTotalPreorder();
  }

  // ---------------------------------------------------------------------------
  // get_uncategorized_transactions

  predicate IsUncategorized(t: Transaction) {
    t.subcategoryId.None?
  }

  /** `get_uncategorized_transactions(db, sort_by)`. */
  function GetUncategorizedTransactions(db: Tables, sortBy: string): (r: seq<Transaction>)
    ensures multiset(r) == multiset(Filter(db.transactions, IsUncategorized))
  {
    SortBy(Filter(db.transactions, IsUncategorized), UncategorizedOrder(sortBy))
  }

  /**
   * The result holds exactly the uncategorised transactions, ordered by
   * non-increasing amount for "amount" and by non-increasing date otherwise.
   */
  lemma GetUncategorizedTransactionsSpec(db: Tables, sortBy: string)
    ensures forall t :: t in GetUncategorizedTransactions(db, sortBy) <==> t in db.transactions && t.subcategoryId.None?
    ensures var r := GetUncategorizedTransactions(db, sortBy);
      forall i, j :: 0 <= i < j < |r| ==>
        if sortBy == "amount" then r[i].amount >= r[j].amount
        else DateLe(r[j].transactionDate, r[i].transactionDate)
  {
    var r := GetUncategorizedTransactions(db, sortBy);
    forall t ensures t in r <==> t in db.transactions && t.subcategoryId.None? {
      assert t in r <==> t in multiset(r);
      FilterMembers(db.transactions, IsUncategorized, t);
    }
    OrdersArePreorders(sortBy);
    SortBySorted(Filter(db.transactions, IsUncategorized), UncategorizedOrder(sortBy));
  }

  // ---------------------------------------------------------------------------
  // get_all_categories

  /** A category with its subcategories loaded (`joinedload`). */
  datatype CategoryWithSubcategories = CategoryWithSubcategories(category: Category, subcategories: seq<Subcategory>)

  function Load(db: Tables, c: Category): CategoryWithSubcategories {
    CategoryWithSubcategories(c, Filter(db.subcategories, (s: Subcategory) => s.categoryId == c.id))
  }

  function LoadAll(db: Tables, cats: seq<Category>): (r: seq<CategoryWithSubcategories>)
    ensures |r| == |cats|
    ensures forall i :: 0 <= i < |cats| ==> r[i] == Load(db, cats[i])
  {
    seq(|cats|, i requires 0 <= i < |cats| => Load(db, cats[i]))
  }

  /** `ORDER BY name` on categories. */
  function NameOrder(a: Category, b: Category): bool {
    LexLe(a.name, b.name)
  }

  /** `get_all_categories(db)`. */
  function GetAllCategories(db: Tables): (r: seq<CategoryWithSubcategories>)
    ensures |r| == |db.categories|
  {
    LoadAll(db, SortBy(db.categories, NameOrder))
  }

  /** Each listed category is stored and carries exactly the subcategories that reference it. */
  lemma ListedCategory(db: Tables, i: int)
    requires 0 <= i < |GetAllCategories(db)|
    ensures var e := GetAllCategories(db)[i];
      && e.category in db.categories
      && forall s :: s in e.subcategories <==> s in db.subcategories && s.categoryId == e.category.id
  {
    var sorted := SortBy(db.categories, NameOrder);
    var c := sorted[i];
    SortByMembers(db.categories, NameOrder, c);
    forall s ensures s in GetAllCategories(db)[i].subcategories <==> s in db.subcategories && s.categoryId == c.id {
      FilterMembers(db.subcategories, (s: Subcategory) => s.categoryId == c.id, s);
    }
  }

  /** Each stored category is listed. */
  lemma CategoryListed(db: Tables, c: Category) returns (i: int)
    requires c in db.categories
    ensures 0 <= i < |GetAllCategories(db)| && GetAllCategories(db)[i].category == c
  {
    var sorted := SortBy(db.categories, NameOrder);
    SortByMembers(db.categories, NameOrder, c);
    i :| 0 <= i < |sorted| && sorted[i] == c;
  }

  /**
   * Every category appears exactly once, ordered by name, each with exactly
   * the subcategories that reference it.
   */
  lemma GetAllCategoriesSpec(db: Tables)
    ensures var r := GetAllCategories(db);
      && (forall c :: c in db.categories <==> exists i :: 0 <= i < |r| && r[i].category == c)
      && (forall i, j :: 0 <= i < j < |r| ==> LexLe(r[i].category.name, r[j].category.name))
      && (forall i, s :: 0 <= i < |r| ==>
            (s in r[i].subcategories <==> s in db.subcategories && s.categoryId == r[i].category.id))
  {
    var sorted := SortBy(db.categories, NameOrder);
    var r := GetAllCategories(db);
    forall c ensures c in db.categories <==> exists i :: 0 <= i < |r| && r[i].category == c {
      SortByMembers(db.categories, NameOrder, c);
      if c in sorted {
        var i :| 0 <= i < |sorted| && sorted[i] == c;
        assert r[i].category == c;
      }
    }
    forall a, b ensures NameOrder(a, b) || NameOrder(b, a) {
      LexLeTotal(a.name, b.name);
    }
    forall a, b, c | NameOrder(a, b) && NameOrder(b, c) ensures NameOrder(a, c) {
      LexLeTransitive(a.name, b.name, c.name);
    }
    SortBySorted(db.categories, NameOrder);
    forall i, s | 0 <= i < |r|
      ensures s in r[i].subcategories <==> s in db.subcategories && s.categoryId == r[i].category.id
    {
      var c := sorted[i];
      FilterMembers(db.subcategories, (s: Subcategory) => s.categoryId == c.id, s);
    }
  }

  // ---------------------------------------------------------------------------
  // get_transactions_by_text: SQL LIKE

  /**
   * SQL `s LIKE p` without an escape character: `%` matches any run of
   * characters, `_` any one character, every other character itself.
   */
  predicate Like(s: string, p: string)
    decreases |p| + |s|
  {
    if p == [] then s == []
    else if p[0] == '%' then Like(s, p[1..]) || (s != [] && Like(s[1..], p))
    else s != [] && (p[0] == '_' || p[0] == s[0]) && Like(s[1..], p[1..])
  }

  /** `s.ilike(p)` on SQLite: `lower(s) LIKE lower(p)`, where `lower` folds ASCII letters only. */
  predicate ILike(s: string, p: string) {
    Like(LowerAscii(s), LowerAscii(p))
  }

  /** `f"%{text_pattern}%"`. */
  function SearchPattern(text: string): string {
    "%" + text + "%"
  }

  /** A `NULL` column never matches. */
  predicate ColumnMatches(column: Option<string>, pattern: string) {
    column.Some? && ILike(column.value, pattern)
  }

  /** The filter of `get_transactions_by_text`. */
  predicate MatchesText(t: Transaction, text: string) {
    t.subcategoryId.None?
    && (ColumnMatches(t.counterpartyName, SearchPattern(text))
        || ColumnMatches(t.descriptionRaw, SearchPattern(text)))
  }

  /** `get_transactions_by_text(db, text_pattern)`. */
  function GetTransactionsByText(db: Tables, text: string): (r: seq<Transaction>)
    ensures multiset(r) == multiset(Filter(db.transactions, t => MatchesText(t, text)))
  {
    SortBy(Filter(db.transactions, t => MatchesText(t, text)), DateDesc)
  }

  /** The result holds exactly the uncategorised transactions whose name or description matches, newest first. */
  lemma GetTransactionsByTextSpec(db: Tables, text: string)
    ensures forall t :: t in GetTransactionsByText(db, text) <==> t in db.transactions && MatchesText(t, text)
    ensures var r := GetTransactionsByText(db, text);
      forall i, j :: 0 <= i < j < |r| ==> DateLe(r[j].transactionDate, r[i].transactionDate)
  {
    var r := GetTransactionsByText(db, text);
    forall t ensures t in r <==> t in db.transactions && MatchesText(t, text) {
      assert t in r <==> t in multiset(r);
      FilterMembers(db.transactions, t => MatchesText(t, text), t);
    }
    OrdersArePreorders("");
    SortBySorted(Filter(db.transactions, t => MatchesText(t, text)), DateDesc);
  }

  /** True when `p` has no LIKE wildcard. */
  predicate WildcardFree(p: string) {
    forall i :: 0 <= i < |p| ==> p[i] != '%' && p[i] != '_'
  }

  /** `t` occurs in `s` at position `i`. */
  predicate OccursAt(t: string, s: string, i: int) {
    0 <= i && i + |t| <= |s| && s[i..i + |t|] == t
  }

  /** `t` occurs in `s` as a contiguous piece. */
  predicate IsInfix(t: string, s: string) {
    exists i :: 0 <= i <= |s| && OccursAt(t, s, i)
  }

  /** A trailing `%` matches anything. */
  lemma {:induction false} LikePercent(s: string)
    ensures Like(s, "%")
    decreases |s|
  {
    if s != [] {
      LikePercent(s[1..]);
    }
  }

  /** A wildcard-free pattern followed by `%` matches exactly the strings it starts. */
  lemma {:induction false} LikePrefix(s: string, t: string)
    requires WildcardFree(t)
    ensures Like(s, t + "%") <==> |t| <= |s| && s[..|t|] == t
    decreases |t|
  {
    if t == [] {
      assert t + "%" == "%";
      LikePercent(s);
    } else {
      assert (t + "%")[0] == t[0] && (t + "%")[1..] == t[1..] + "%";
      if s != [] {
        LikePrefix(s[1..], t[1..]);
        if |t| <= |s| {
          assert s[..|t|] == [s[0]] + s[1..][..|t| - 1];
          assert t == [t[0]] + t[1..];
        }
      }
    }
  }

  /** A leading `%` matches when the rest of the pattern matches some suffix. */
  lemma {:induction false} LikeLeadingPercent(s: string, q: string)
    ensures Like(s, "%" + q) <==> exists i :: 0 <= i <= |s| && Like(s[i..], q)
    decreases |s|
  {
    var p := "%" + q;
    assert p[0] == '%' && p[1..] == q;
    assert s[0..] == s;
    if s != [] {
      LikeLeadingPercent(s[1..], q);
      forall i | 1 <= i <= |s| ensures s[1..][i - 1..] == s[i..] {
      }
      if exists i :: 0 <= i <= |s| && Like(s[i..], q) {
        var i :| 0 <= i <= |s| && Like(s[i..], q);
        if i > 0 {
          assert Like(s[1..][i - 1..], q);
        }
      }
    }
  }

  /** A pattern without wildcards is searched for as a plain substring. */
  lemma SearchIsSubstring(s: string, text: string)
    requires WildcardFree(text)
    ensures Like(s, SearchPattern(text)) <==> IsInfix(text, s)
  {
    assert SearchPattern(text) == "%" + (text + "%");
    LikeLeadingPercent(s, text + "%");
    forall i | 0 <= i <= |s| ensures Like(s[i..], text + "%") <==> OccursAt(text, s, i) {
      LikePrefix(s[i..], text);
      if i + |text| <= |s| {
        assert s[i..][..|text|] == s[i..i + |text|];
      }
    }
    if IsInfix(text, s) {
      var i :| 0 <= i <= |s| && OccursAt(text, s, i);
      assert Like(s[i..], text + "%");
    }
  }

  /** A pattern without `%` matches, followed by `%`, every string that starts with a character-wise match. */
  lemma {:induction false} LikeCharwise(s: string, p: string, rest: string)
    requires |s| == |p|
    requires forall i :: 0 <= i < |p| ==> p[i] != '%' && (p[i] == '_' || p[i] == s[i])
    ensures Like(s + rest, p + "%")
    decreases |p|
  {
    if p == [] {
      assert s + rest == rest && p + "%" == "%";
      LikePercent(rest);
    } else {
      assert (s + rest)[0] == s[0] && (s + rest)[1..] == s[1..] + rest;
      assert (p + "%")[0] == p[0] && (p + "%")[1..] == p[1..] + "%";
      LikeCharwise(s[1..], p[1..], rest);
    }
  }

  /**
   * The text is spliced into the pattern unescaped, so a `_` in it matches
   * any character: searching "unique_payee" also finds "unique-payee".
   */
  lemma SearchUnderscoreMatchesAnyChar(a: string, c: char, b: string)
    requires WildcardFree(a) && WildcardFree(b)
    ensures Like(a + [c] + b, SearchPattern(a + "_" + b))
  {
    var s, p := a + [c] + b, a + "_" + b;
    assert SearchPattern(p) == "%" + (p + "%");
    forall i | 0 <= i < |p| ensures p[i] != '%' && (p[i] == '_' || p[i] == s[i]) {
      if i < |a| {
        assert p[i] == a[i] && s[i] == a[i];
      } else if i > |a| {
        assert p[i] == b[i - |a| - 1] && s[i] == b[i - |a| - 1];
      }
    }
    LikeCharwise(s, p, []);
    assert s + [] == s && s[0..] == s;
    LikeLeadingPercent(s, p + "%");
  }

  /** A text without wildcards finds the transactions whose name or description contains it, ignoring ASCII case. */
  lemma MatchesTextSubstring(t: Transaction, text: string)
    requires WildcardFree(text)
    ensures MatchesText(t, text) <==>
      t.subcategoryId.None?
      && ((t.counterpartyName.Some? && IsInfix(LowerAscii(text), LowerAscii(t.counterpartyName.value)))
          || (t.descriptionRaw.Some? && IsInfix(LowerAscii(text), LowerAscii(t.descriptionRaw.value))))
  {
    var lt := LowerAscii(text);
    assert LowerAscii(SearchPattern(text)) == SearchPattern(lt);
    assert WildcardFree(lt);
    if t.counterpartyName.Some? {
      SearchIsSubstring(LowerAscii(t.counterpartyName.value), lt);
    }
    if t.descriptionRaw.Some? {
      SearchIsSubstring(LowerAscii(t.descriptionRaw.value), lt);
    }
  }

  // ---------------------------------------------------------------------------
  // set_category_for_transactions

  /** `db.query(Subcategory).filter(Subcategory.id == subcategory_id).first()`. */
  function FindSubcategory(subs: seq<Subcategory>, id: int): (r: Option<Subcategory>)
    ensures r.Some? <==> exists k :: 0 <= k < |subs| && subs[k].id == id
    ensures r.Some? ==> r.value in subs && r.value.id == id
    decreases |subs|
  {
    if subs == [] then None
    else if subs[0].id == id then Some(subs[0])
    else
      var r := FindSubcategory(subs[1..], id);
      assert forall k :: 1 <= k < |subs| ==> subs[k] == subs[1..][k - 1];
      r
  }

  /** The `UPDATE` of the bulk assignment: every transaction whose id is listed gets the subcategory. */
  function Assigned(txs: seq<Transaction>, ids: seq<string>, subId: int): seq<Transaction> {
    seq(|txs|, i requires 0 <= i < |txs| =>
      if txs[i].id in ids then txs[i].(subcategoryId := Some(subId)) else txs[i])
  }

  /**
   * The assignment keeps every row and every id; listed rows get the
   * subcategory, already categorised ones included, and the other rows are
   * unchanged. Ids that name no row change nothing.
   */
  lemma AssignedSpec(txs: seq<Transaction>, ids: seq<string>, subId: int)
    ensures var r := Assigned(txs, ids, subId);
      |r| == |txs|
      && (forall i :: 0 <= i < |txs| ==> r[i].id == txs[i].id)
      && (forall i :: 0 <= i < |txs| && txs[i].id in ids ==> r[i] == txs[i].(subcategoryId := Some(subId)))
      && (forall i :: 0 <= i < |txs| && txs[i].id !in ids ==> r[i] == txs[i])
      && (forall id :: id in ids && (forall i :: 0 <= i < |txs| ==> txs[i].id != id) ==>
            Assigned(txs, ids, subId) == Assigned(txs, RemoveId(ids, id), subId))
  {
    forall id | id in ids && (forall i :: 0 <= i < |txs| ==> txs[i].id != id)
      ensures Assigned(txs, ids, subId) == Assigned(txs, RemoveId(ids, id), subId)
    {
      forall i | 0 <= i < |txs| ensures (txs[i].id in ids) == (txs[i].id in RemoveId(ids, id)) {
        RemoveIdMembers(ids, id, txs[i].id);
      }
    }
  }

  /** `ids` without `id`. */
  function RemoveId(ids: seq<string>, id: string): seq<string> {
    Filter(ids, (x: string) => x != id)
  }

  lemma RemoveIdMembers(ids: seq<string>, id: string, x: string)
    ensures x in RemoveId(ids, id) <==> x in ids && x != id
  {
    FilterMembers(ids, (x: string) => x != id, x);
  }

  /** The assignment keeps the constraints of the tables. */
  lemma AssignedKeepsValid(db: Tables, ids: seq<string>, subId: int)
    requires ValidTables(db)
    ensures ValidTables(db.(transactions := Assigned(db.transactions, ids, subId)))
  {
    AssignedSpec(db.transactions, ids, subId);
  }

  /** After the assignment, the uncategorised transactions are the earlier ones whose id was not listed. */
  lemma AssignedLeaveUncategorized(db: Tables, ids: seq<string>, subId: int, sortBy: string)
    ensures var db' := db.(transactions := Assigned(db.transactions, ids, subId));
      forall t :: t in GetUncategorizedTransactions(db', sortBy) <==>
        t in GetUncategorizedTransactions(db, sortBy) && t.id !in ids
  {
    var txs := db.transactions;
    var db' := db.(transactions := Assigned(txs, ids, subId));
    AssignedSpec(txs, ids, subId);
    GetUncategorizedTransactionsSpec(db, sortBy);
    GetUncategorizedTransactionsSpec(db', sortBy);
    forall t ensures t in db'.transactions && t.subcategoryId.None? <==> t in txs && t.subcategoryId.None? && t.id !in ids {
      if t in db'.transactions && t.subcategoryId.None? {
        var i :| 0 <= i < |db'.transactions| && db'.transactions[i] == t;
        assert txs[i].id !in ids;
      }
      if t in txs && t.subcategoryId.None? && t.id !in ids {
        var i :| 0 <= i < |txs| && txs[i] == t;
        assert db'.transactions[i] == t;
      }
    }
  }

  datatype AssignOutcome = NoSuchSubcategory | Committed | RolledBack

  /**
   * `set_category_for_transactions(db, transaction_ids, subcategory_id)`.
   * `commitSucceeds` says whether `db.commit()` goes through.
   */
  method SetCategoryForTransactions(s: Session, ids: seq<string>, subId: int, commitSucceeds: bool)
    returns (outcome: AssignOutcome)
    requires s.Valid()
    modifies s
    ensures s.Valid()
    ensures (outcome == NoSuchSubcategory) <==> FindSubcategory(old(s.db).subcategories, subId).None?
    ensures outcome == NoSuchSubcategory ==> s.db == old(s.db) && s.committed == old(s.committed)
    ensures outcome != NoSuchSubcategory ==> outcome == if commitSucceeds then Committed else RolledBack
    ensures outcome == Committed ==>
      s.db == s.committed == old(s.db).(transactions := Assigned(old(s.db).transactions, ids, subId))
    ensures outcome == RolledBack ==> s.db == s.committed == old(s.committed)
  {
    var sub := FindSubcategory(s.db.subcategories, subId);
    if sub.None? {
      return NoSuchSubcategory;
    }
    var before := s.db.transactions;
    var txs := before;
    var i := 0;
    while i < |txs|
      invariant 0 <= i <= |txs| == |before|
      invariant forall k :: 0 <= k < i ==> txs[k] == Assigned(before, ids, subId)[k]
      invariant forall k :: i <= k < |txs| ==> txs[k] == before[k]
    {
      if txs[i].id in ids {
        txs := txs[i := txs[i].(subcategoryId := Some(subId))];
      }
      i := i + 1;
    }
    assert txs == Assigned(before, ids, subId);
    AssignedKeepsValid(s.db, ids, subId);
    s.db := s.db.(transactions := txs);
    s.Commit(commitSucceeds);
    outcome := if commitSucceeds then Committed else RolledBack;
  }
}
