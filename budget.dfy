/**
 * The budget category import (`import_budget_categories`,
 * src/finanseer/importers.py), from the rows pandas has read onwards: the
 * rows are filtered, folded into a map from category group to the set of its
 * category names, and every group and (name, group) pair missing from the
 * store is inserted. A group becomes a `Category`, a budget category a
 * `Subcategory` of it.
 */
module Budget {
  import opened Wrappers
  import opened Strings
  import opened Sorting
  import opened Models
  import opened Importers

  const GroupColumn := "Category Group"
  const CategoryColumn := "Category"

  // ---------------------------------------------------------------------------
  // Filtering the rows

  /** `dropna(subset=["Category Group", "Category"])` followed by `str.strip() != ""` on the group. */
  predicate KeptBudgetRow(row: Row) {
    Get(row, GroupColumn).Some? && Get(row, CategoryColumn).Some? && Strip(Get(row, GroupColumn).value) != ""
  }

  /** The rows that survive both filters, in file order. */
  function BudgetRows(rows: seq<Row>): seq<Row>
    decreases |rows|
  {
    if rows == [] then []
    else
      var n := |rows| - 1;
      BudgetRows(rows[..n]) + (if KeptBudgetRow(rows[n]) then [rows[n]] else [])
  }

  /** A row survives the filters exactly when both cells are present and the group is not blank. */
  lemma {:induction false} BudgetRowsSpec(rows: seq<Row>)
    ensures forall row :: row in BudgetRows(rows) <==> row in rows && KeptBudgetRow(row)
    ensures |BudgetRows(rows)| <= |rows|
    decreases |rows|
  {
    if rows != [] {
      var n := |rows| - 1;
      BudgetRowsSpec(rows[..n]);
      assert rows == rows[..n] + [rows[n]];
    }
  }

  // ---------------------------------------------------------------------------
  // The category map

  /** The two cleaned cells the loop reads from a row. */
  datatype Entry = Entry(group: Option<string>, category: Option<string>)

  /** `_clean_str(row["Category Group"])` and `_clean_str(row["Category"])`. */
  function EntryOf(row: Row): Entry {
    Entry(CleanStr(Get(row, GroupColumn)), CleanStr(Get(row, CategoryColumn)))
  }

  function Entries(rows: seq<Row>): (es: seq<Entry>)
    ensures |es| == |rows|
  {
    seq(|rows|, k requires 0 <= k < |rows| => EntryOf(rows[k]))
  }

  /** The truthy groups of the entries. */
  function GroupsOf(es: seq<Entry>): set<string> {
    set i | 0 <= i < |es| && Truthy(es[i].group) :: es[i].group.value
  }

  /** The truthy budget categories of the entries whose group is `g`. */
  function SubsOf(es: seq<Entry>, g: string): set<string> {
    set i | 0 <= i < |es| && es[i].group == Some(g) && Truthy(es[i].category) :: es[i].category.value
  }

  /** What `category_map` holds once every entry has been seen. */
  function CategoryMapOf(es: seq<Entry>): map<string, set<string>> {
    map g | g in GroupsOf(es) :: SubsOf(es, g)
  }

  /** The order in which the groups first enter `category_map` (dicts keep insertion order). */
  function GroupOrder(es: seq<Entry>): seq<string>
    decreases |es|
  {
    if es == [] then []
    else
      var n := |es| - 1;
      var prev := GroupOrder(es[..n]);
      var g := es[n].group;
      if Truthy(g) && g.value !in prev then prev + [g.value] else prev
  }

  /** The group order lists every group of the map once. */
  lemma {:induction false} GroupOrderSpec(es: seq<Entry>)
    ensures forall g :: g in GroupOrder(es) <==> g in GroupsOf(es)
    ensures forall i, j :: 0 <= i < j < |GroupOrder(es)| ==> GroupOrder(es)[i] != GroupOrder(es)[j]
    decreases |es|
  {
    if es != [] {
      var n := |es| - 1;
      GroupOrderSpec(es[..n]);
      GroupsStep(es[..n], es[n]);
      assert es == es[..n] + [es[n]];
    }
  }

  /** The groups seen in the first n entries, in their order, begin the whole order. */
  lemma {:induction false} GroupOrderPrefix(es: seq<Entry>, n: nat)
    requires n <= |es|
    ensures GroupOrder(es[..n]) <= GroupOrder(es)
    decreases |es|
  {
    if n < |es| {
      var init := es[..|es| - 1];
      GroupOrderPrefix(init, n);
      assert init[..n] == es[..n];
    } else {
      assert es[..n] == es;
    }
  }

  /**
   * A group takes its place in the order at its first entry: its position
   * is the number of groups seen before that entry.
   */
  lemma GroupOrderFirstSeen(es: seq<Entry>, k: nat)
    requires k < |es| && Truthy(es[k].group)
    requires forall m :: 0 <= m < k ==> es[m].group != es[k].group
    ensures |GroupOrder(es[..k])| < |GroupOrder(es)|
    ensures GroupOrder(es)[|GroupOrder(es[..k])|] == es[k].group.value
  {
    var g := es[k].group.value;
    var pre := es[..k];
    GroupOrderSpec(pre);
    assert g !in GroupsOf(pre);
    assert es[..k + 1][..k] == pre;
    assert GroupOrder(es[..k + 1]) == GroupOrder(pre) + [g];
    GroupOrderPrefix(es, k + 1);
  }

  /** One more entry adds at most its own group. */
  lemma GroupsStep(es: seq<Entry>, e: Entry)
    ensures GroupsOf(es + [e]) == GroupsOf(es) + (if Truthy(e.group) then {e.group.value} else {})
  {
    var r := es + [e];
    assert forall i :: 0 <= i < |es| ==> r[i] == es[i];
    assert r[|es|] == e;
  }

  /** One more entry adds at most its own budget category, and only under its own group. */
  lemma SubsStep(es: seq<Entry>, e: Entry, g: string)
    ensures SubsOf(es + [e], g)
         == SubsOf(es, g) + (if e.group == Some(g) && Truthy(e.category) then {e.category.value} else {})
  {
    var r := es + [e];
    assert forall i :: 0 <= i < |es| ==> r[i] == es[i];
    assert r[|es|] == e;
  }

  /** One more entry updates the map as the loop body does. */
  lemma CategoryMapStep(es: seq<Entry>, e: Entry)
    ensures var m := CategoryMapOf(es);
      var m1 := if Truthy(e.group) && e.group.value !in m then m[e.group.value := {}] else m;
      CategoryMapOf(es + [e])
        == if Truthy(e.group) && Truthy(e.category) then m1[e.group.value := m1[e.group.value] + {e.category.value}] else m1
  {
    var m, m' := CategoryMapOf(es), CategoryMapOf(es + [e]);
    GroupsStep(es, e);
    if !Truthy(e.group) {
      forall h | h in m' ensures m'[h] == m[h] {
        SubsStep(es, e, h);
      }
      assert m' == m;
    } else {
      var g := e.group.value;
      if g !in m {
        assert forall k :: 0 <= k < |es| ==> es[k].group != Some(g);
        assert SubsOf(es, g) == {};
      }
      var m1 := if g !in m then m[g := {}] else m;
      var expected := if Truthy(e.category) then m1[g := m1[g] + {e.category.value}] else m1;
      assert m'.Keys == expected.Keys;
      forall h | h in m' ensures m'[h] == expected[h] {
        SubsStep(es, e, h);
      }
      assert m' == expected;
    }
  }

  /** An entry repeated later in the file changes nothing: duplicate rows collapse. */
  lemma CategoryMapDuplicate(es: seq<Entry>, e: Entry)
    requires e in es
    ensures CategoryMapOf(es + [e]) == CategoryMapOf(es)
  {
    var m := CategoryMapOf(es);
    CategoryMapStep(es, e);
    var k :| 0 <= k < |es| && es[k] == e;
    if Truthy(e.group) {
      var g := e.group.value;
      assert g in m;
      if Truthy(e.category) {
        assert e.category.value in m[g];
        assert m[g] + {e.category.value} == m[g];
        assert m[g := m[g]] == m;
      }
    }
  }

  /** A budget row's group cleans to its stripped, non-empty text. */
  lemma KeptEntry(row: Row)
    requires KeptBudgetRow(row)
    ensures EntryOf(row).group == Some(Strip(Get(row, GroupColumn).value)) && Truthy(EntryOf(row).group)
    ensures EntryOf(row).category == Some(Strip(Get(row, CategoryColumn).value))
  {
  }

  /** The entries of the surviving rows are the cleaned cells of the rows that pass both filters. */
  lemma EntriesOfBudgetRows(rows: seq<Row>)
    ensures forall e :: e in Entries(BudgetRows(rows)) <==> exists row :: row in rows && KeptBudgetRow(row) && EntryOf(row) == e
  {
    var b := BudgetRows(rows);
    var es := Entries(b);
    BudgetRowsSpec(rows);
    forall e | e in es ensures exists row :: row in rows && KeptBudgetRow(row) && EntryOf(row) == e {
      var k :| 0 <= k < |es| && es[k] == e;
      assert b[k] in b;
    }
    forall row | row in rows && KeptBudgetRow(row) ensures EntryOf(row) in es {
      assert row in b;
      var k :| 0 <= k < |b| && b[k] == row;
      assert es[k] == EntryOf(row);
    }
  }

  /** A group of the entries is the truthy group of one of them. */
  lemma GroupsOfMembers(es: seq<Entry>, g: string)
    ensures g in GroupsOf(es) <==> exists e :: e in es && Truthy(e.group) && e.group.value == g
  {
    if exists e :: e in es && Truthy(e.group) && e.group.value == g {
      var e :| e in es && Truthy(e.group) && e.group.value == g;
      var k :| 0 <= k < |es| && es[k] == e;
    }
  }

  /** A budget category of group `g` is the truthy category of an entry of that group. */
  lemma SubsOfMembers(es: seq<Entry>, g: string, s: string)
    ensures s in SubsOf(es, g) <==> exists e :: e in es && e.group == Some(g) && Truthy(e.category) && e.category.value == s
  {
    if exists e :: e in es && e.group == Some(g) && Truthy(e.category) && e.category.value == s {
      var e :| e in es && e.group == Some(g) && Truthy(e.category) && e.category.value == s;
      var k :| 0 <= k < |es| && es[k] == e;
    }
  }

  /**
   * A group is a key of the map exactly when some row passes both filters
   * and cleans to that group.
   */
  lemma CategoryMapKeys(rows: seq<Row>, g: string)
    ensures g in CategoryMapOf(Entries(BudgetRows(rows))) <==>
      exists row :: row in rows && KeptBudgetRow(row) && EntryOf(row).group == Some(g)
  {
    var es := Entries(BudgetRows(rows));
    EntriesOfBudgetRows(rows);
    GroupsOfMembers(es, g);
    if exists row :: row in rows && KeptBudgetRow(row) && EntryOf(row).group == Some(g) {
      var row :| row in rows && KeptBudgetRow(row) && EntryOf(row).group == Some(g);
      KeptEntry(row);
      assert EntryOf(row) in es;
    }
  }

  /**
   * The set of a group holds exactly the non-empty cleaned budget categories
   * of the rows that pass both filters and clean to that group.
   */
  lemma CategoryMapValues(rows: seq<Row>, g: string, s: string)
    requires g in CategoryMapOf(Entries(BudgetRows(rows)))
    ensures s in CategoryMapOf(Entries(BudgetRows(rows)))[g] <==>
      s != "" && exists row :: row in rows && KeptBudgetRow(row) && EntryOf(row).group == Some(g)
                            && EntryOf(row).category == Some(s)
  {
    var es := Entries(BudgetRows(rows));
    EntriesOfBudgetRows(rows);
    SubsOfMembers(es, g, s);
    if s != "" && exists row :: row in rows && KeptBudgetRow(row) && EntryOf(row).group == Some(g)
                              && EntryOf(row).category == Some(s) {
      var row :| row in rows && KeptBudgetRow(row) && EntryOf(row).group == Some(g) && EntryOf(row).category == Some(s);
      assert EntryOf(row) in es;
    }
  }

  /**
   * The loop over the rows that fills `category_map`, given each row's
   * cleaned cells: a group is added with an empty set the first time it is
   * seen, and every truthy budget category is added to its group's set.
   */
  method BuildCategoryMap(es: seq<Entry>) returns (order: seq<string>, categoryMap: map<string, set<string>>)
    ensures categoryMap == CategoryMapOf(es)
    ensures order == GroupOrder(es)
  {
    order, categoryMap := [], map[];
    for i := 0 to |es|
      invariant categoryMap == CategoryMapOf(es[..i])
      invariant order == GroupOrder(es[..i])
    {
      var e := es[i];
      CategoryMapStep(es[..i], e);
      GroupOrderSpec(es[..i]);
      if Truthy(e.group) && e.group.value !in categoryMap {
        categoryMap := categoryMap[e.group.value := {}];
      }
      if Truthy(e.group) && Truthy(e.category) {
        categoryMap := categoryMap[e.group.value := categoryMap[e.group.value] + {e.category.value}];
      }
      if Truthy(e.group) && e.group.value !in order {
        order := order + [e.group.value];
      }
      assert es[..i + 1] == es[..i] + [e];
    }
    assert es[..|es|] == es;
  }

  // ---------------------------------------------------------------------------
  // Looking up categories and subcategories

  /** The position of the first category named `name`, or `|cats|`. */
  function CategoryIndex(cats: seq<Category>, name: string): (i: nat)
    ensures i <= |cats|
    ensures i < |cats| ==> cats[i].name == name
    ensures forall k :: 0 <= k < i ==> cats[k].name != name
    decreases |cats|
  {
    if cats == [] then 0 else if cats[0].name == name then 0 else 1 + CategoryIndex(cats[1..], name)
  }

  /** `db.query(Category).filter(Category.name == name).first()`. */
  function CategoryNamed(cats: seq<Category>, name: string): (r: Option<Category>)
    ensures r.Some? ==> r.value in cats && r.value.name == name
    ensures r.None? ==> forall c :: c in cats ==> c.name != name
  {
    var i := CategoryIndex(cats, name);
    if i < |cats| then Some(cats[i]) else None
  }

  /** A category found stays the one found when more categories are appended. */
  lemma CategoryNamedExtends(cats: seq<Category>, more: seq<Category>, name: string)
    requires cats <= more
    ensures CategoryNamed(cats, name).Some? ==> CategoryNamed(more, name) == CategoryNamed(cats, name)
  {
    var i := CategoryIndex(cats, name);
    if i < |cats| {
      assert more[i] == cats[i];
      var j := CategoryIndex(more, name);
    }
  }

  /** With unique names, every category is the one its name finds. */
  lemma CategoryNamedAll(cats: seq<Category>)
    requires CategoriesValid(cats)
    ensures forall c :: c in cats ==> CategoryNamed(cats, c.name) == Some(c)
  {
    forall c | c in cats ensures CategoryNamed(cats, c.name) == Some(c) {
      var k :| 0 <= k < |cats| && cats[k] == c;
      assert CategoryIndex(cats, c.name) == k;
    }
  }

  /** `db.query(Subcategory).filter(name == name, category_id == categoryId).first()` finds a row. */
  predicate HasSubcategory(subs: seq<Subcategory>, name: string, categoryId: int) {
    exists sub :: sub in subs && sub.name == name && sub.categoryId == categoryId
  }

  /** The id SQLite gives a new row of a table: one more than the largest id, 1 for an empty table. */
  function NextRowId(ids: seq<int>): (r: int)
    ensures forall k :: 0 <= k < |ids| ==> ids[k] < r
    ensures ids == [] ==> r == 1
    ensures ids != [] ==> r - 1 in ids
    decreases |ids|
  {
    if ids == [] then 1
    else
      var n := |ids| - 1;
      if n == 0 then ids[0] + 1
      else
        var p := NextRowId(ids[..n]);
        if ids[n] + 1 > p then ids[n] + 1 else p
  }

  function CategoryIds(cats: seq<Category>): seq<int> {
    seq(|cats|, k requires 0 <= k < |cats| => cats[k].id)
  }

  function SubcategoryIds(subs: seq<Subcategory>): seq<int> {
    seq(|subs|, k requires 0 <= k < |subs| => subs[k].id)
  }

  // ---------------------------------------------------------------------------
  // Ensure-exists inserts

  /** Group `g` has a category, and each of `names` a subcategory of it. */
  predicate CoversGroup(t: Tables, g: string, names: set<string>) {
    && CategoryNamed(t.categories, g).Some?
    && forall s :: s in names ==> HasSubcategory(t.subcategories, s, CategoryNamed(t.categories, g).value.id)
  }

  /** Every group of the map and every name of its set exists in the store. */
  predicate Covers(t: Tables, m: map<string, set<string>>) {
    forall g :: g in m ==> CoversGroup(t, g, m[g])
  }

  /** `r` is `t` with rows appended to `categories` and `subcategories` only. */
  predicate Extends(t: Tables, r: Tables) {
    r.transactions == t.transactions && t.categories <= r.categories && t.subcategories <= r.subcategories
  }

  /**
   * Every row `r` has beyond `t` was missing from `t` and is asked for by the
   * map: a category for a group of the map no category of `t` is named after,
   * a subcategory for a name of its group's set that `t` does not already hold
   * under that category.
   */
  predicate AddsOnlyMissing(t: Tables, r: Tables, m: map<string, set<string>>) {
    && Extends(t, r)
    && (forall k :: |t.categories| <= k < |r.categories| ==>
          r.categories[k].name in m && CategoryNamed(t.categories, r.categories[k].name).None?)
    && (forall k :: |t.subcategories| <= k < |r.subcategories| ==>
          && !HasSubcategory(t.subcategories, r.subcategories[k].name, r.subcategories[k].categoryId)
          && exists c :: c in r.categories && c.id == r.subcategories[k].categoryId
                      && c.name in m && r.subcategories[k].name in m[c.name])
  }

  /** Appending rows keeps a group covered. */
  lemma CoversGroupExtends(t: Tables, r: Tables, g: string, names: set<string>)
    requires t.categories <= r.categories && t.subcategories <= r.subcategories
    requires CoversGroup(t, g, names)
    ensures CoversGroup(r, g, names)
  {
    CategoryNamedExtends(t.categories, r.categories, g);
    var c := CategoryNamed(t.categories, g).value;
    forall s | s in names ensures HasSubcategory(r.subcategories, s, c.id) {
      var sub :| sub in t.subcategories && sub.name == s && sub.categoryId == c.id;
      assert sub in r.subcategories;
    }
  }

  /** Once the store covers the map, an import that adds only missing rows adds nothing. */
  lemma NothingMissingNothingAdded(t: Tables, r: Tables, m: map<string, set<string>>)
    requires ValidTables(t) && Covers(t, m) && AddsOnlyMissing(t, r, m)
    ensures r == t
  {
    CategoryNamedAll(t.categories);
    if |r.categories| > |t.categories| {
      ElementOf(r.categories, |t.categories|);
      assert false;
    }
    assert r.categories == t.categories;
    if |r.subcategories| > |t.subcategories| {
      ElementOf(r.subcategories, |t.subcategories|);
      assert false;
    }
    assert r.subcategories == t.subcategories;
  }

  /** Adding a category named `g`, which no category has, with the next id keeps the tables valid. */
  lemma AddCategoryValid(r: Tables, g: string)
    requires ValidTables(r) && CategoryNamed(r.categories, g).None?
    ensures var c := Category(NextRowId(CategoryIds(r.categories)), g);
      ValidTables(r.(categories := r.categories + [c])) && CategoryNamed(r.categories + [c], g) == Some(c)
  {
    var c := Category(NextRowId(CategoryIds(r.categories)), g);
    var cats := r.categories + [c];
    AddCategoryUnique(r.categories, c);
    ForeignKeysExtend(r.subcategories, r.categories, cats);
    assert forall k :: 0 <= k < |r.categories| ==> cats[k].name != g;
    assert cats[|r.categories|].name == g;
  }

  /** A category with a fresh id and an unused name keeps ids and names unique. */
  lemma AddCategoryUnique(cats: seq<Category>, c: Category)
    requires CategoriesValid(cats) && c.id == NextRowId(CategoryIds(cats)) && CategoryNamed(cats, c.name).None?
    ensures CategoriesValid(cats + [c])
  {
    var cats' := cats + [c];
    forall i, j | 0 <= i < j < |cats'| ensures cats'[i].id != cats'[j].id && cats'[i].name != cats'[j].name {
      assert cats'[i] == cats[i];
      if j < |cats| {
        assert cats'[j] == cats[j];
      } else {
        assert CategoryIds(cats)[i] == cats[i].id;
        assert cats[i] in cats;
      }
    }
  }

  /** More categories keep every subcategory's category present. */
  lemma ForeignKeysExtend(subs: seq<Subcategory>, cats: seq<Category>, more: seq<Category>)
    requires SubcategoriesValid(subs, cats) && cats <= more
    ensures SubcategoriesValid(subs, more)
  {
    forall i | 0 <= i < |subs| ensures exists k :: 0 <= k < |more| && more[k].id == subs[i].categoryId {
      var k :| 0 <= k < |cats| && cats[k].id == subs[i].categoryId;
      assert more[k] == cats[k];
    }
    assert forall i :: 0 <= i < |subs| ==> exists k :: 0 <= k < |more| && more[k].id == subs[i].categoryId;
  }

  /** Adding a subcategory `(s, c.id)` the store lacks, with the next id, keeps the tables valid. */
  lemma AddSubcategoryValid(r: Tables, c: Category, s: string)
    requires ValidTables(r) && c in r.categories && !HasSubcategory(r.subcategories, s, c.id)
    ensures var sub := Subcategory(NextRowId(SubcategoryIds(r.subcategories)), s, c.id);
      ValidTables(r.(subcategories := r.subcategories + [sub]))
  {
    var sub := Subcategory(NextRowId(SubcategoryIds(r.subcategories)), s, c.id);
    var subs := r.subcategories + [sub];
    assert forall k :: 0 <= k < |r.subcategories| ==>
      subs[k] == r.subcategories[k] && SubcategoryIds(r.subcategories)[k] == subs[k].id;
    forall i, j | 0 <= i < j < |subs|
      ensures subs[i].id != subs[j].id && (subs[i].name, subs[i].categoryId) != (subs[j].name, subs[j].categoryId)
    {
      if j == |r.subcategories| {
        assert subs[i] in r.subcategories;
      }
    }
    var k :| 0 <= k < |r.categories| && r.categories[k] == c;
    assert SubcategoriesValid(subs, r.categories);
  }

  /** Appending a category for a group of the map that `t` lacks keeps the additions to missing rows. */
  lemma AddsOnlyMissingCategory(t: Tables, r: Tables, m: map<string, set<string>>, c: Category)
    requires AddsOnlyMissing(t, r, m) && c.name in m && CategoryNamed(r.categories, c.name).None?
    ensures AddsOnlyMissing(t, r.(categories := r.categories + [c]), m)
  {
    var r' := r.(categories := r.categories + [c]);
    CategoryNamedExtends(t.categories, r.categories, c.name);
    assert t.categories <= r'.categories;
    forall k | |t.categories| <= k < |r'.categories|
      ensures r'.categories[k].name in m && CategoryNamed(t.categories, r'.categories[k].name).None?
    {
      if k < |r.categories| {
        assert r'.categories[k] == r.categories[k];
      } else {
        assert r'.categories[k] == c;
      }
    }
    forall k | |t.subcategories| <= k < |r'.subcategories|
      ensures exists c' :: c' in r'.categories && c'.id == r'.subcategories[k].categoryId
                        && c'.name in m && r'.subcategories[k].name in m[c'.name]
    {
      var c' :| c' in r.categories && c'.id == r.subcategories[k].categoryId
             && c'.name in m && r.subcategories[k].name in m[c'.name];
      assert c' in r'.categories;
    }
  }

  /** Appending a subcategory the map asks for and `r` lacks keeps the additions to missing rows. */
  lemma AddsOnlyMissingSubcategory(t: Tables, r: Tables, m: map<string, set<string>>, c: Category, sub: Subcategory)
    requires AddsOnlyMissing(t, r, m)
    requires c in r.categories && sub.categoryId == c.id && c.name in m && sub.name in m[c.name]
    requires !HasSubcategory(r.subcategories, sub.name, sub.categoryId)
    ensures AddsOnlyMissing(t, r.(subcategories := r.subcategories + [sub]), m)
  {
    var r' := r.(subcategories := r.subcategories + [sub]);
    assert t.subcategories <= r'.subcategories;
    assert forall w :: w in t.subcategories ==> w in r.subcategories;
    forall k | |t.subcategories| <= k < |r'.subcategories|
      ensures && !HasSubcategory(t.subcategories, r'.subcategories[k].name, r'.subcategories[k].categoryId)
              && exists c' :: c' in r'.categories && c'.id == r'.subcategories[k].categoryId
                           && c'.name in m && r'.subcategories[k].name in m[c'.name]
    {
      if k < |r.subcategories| {
        assert r'.subcategories[k] == r.subcategories[k];
      } else {
        assert r'.subcategories[k] == sub;
      }
    }
  }

  /** The groups `order[..i]` are covered. */
  ghost predicate CoveredUpTo(r: Tables, order: seq<string>, m: map<string, set<string>>, i: nat) {
    forall j :: 0 <= j < i && j < |order| ==> order[j] in m && CoversGroup(r, order[j], m[order[j]])
  }

  /** Appending rows keeps the groups covered. */
  lemma CoveredUpToExtends(r: Tables, r': Tables, order: seq<string>, m: map<string, set<string>>, i: nat)
    requires r.categories <= r'.categories && r.subcategories <= r'.subcategories
    requires CoveredUpTo(r, order, m, i)
    ensures CoveredUpTo(r', order, m, i)
  {
    forall j | 0 <= j < i && j < |order| ensures CoversGroup(r', order[j], m[order[j]]) {
      CoversGroupExtends(r, r', order[j], m[order[j]]);
    }
  }

  /** The invariant of the outer loop of the inserts, after the groups `order[..i]`. */
  ghost predicate InsertedUpTo(t: Tables, order: seq<string>, m: map<string, set<string>>, i: nat, r: Tables) {
    i <= |order| && ValidTables(r) && AddsOnlyMissing(t, r, m) && CoveredUpTo(r, order, m, i)
  }

  /** The invariant of the inner loop, for group `order[i]` with category `c`, with `pending` names left. */
  ghost predicate InsertingGroup(t: Tables, order: seq<string>, m: map<string, set<string>>, i: nat,
                                 c: Category, pending: set<string>, r: Tables)
  {
    && i < |order| && order[i] in m
    && InsertedUpTo(t, order, m, i, r)
    && CategoryNamed(r.categories, order[i]) == Some(c)
    && pending <= m[order[i]]
    && forall s :: s in m[order[i]] && s !in pending ==> HasSubcategory(r.subcategories, s, c.id)
  }

  /** Once no name is pending, group `order[i]` is covered too. */
  lemma GroupDone(t: Tables, order: seq<string>, m: map<string, set<string>>, i: nat, c: Category, r: Tables)
    requires InsertingGroup(t, order, m, i, c, {}, r)
    ensures InsertedUpTo(t, order, m, i + 1, r)
  {
    assert CoversGroup(r, order[i], m[order[i]]);
  }

  /** After the last group, the whole map is covered. */
  lemma InsertedAll(t: Tables, order: seq<string>, m: map<string, set<string>>, r: Tables)
    requires InsertedUpTo(t, order, m, |order|, r)
    requires forall g :: g in m ==> g in order
    ensures ValidTables(r) && AddsOnlyMissing(t, r, m) && Covers(r, m)
  {
    forall g | g in m ensures CoversGroup(r, g, m[g]) {
      var j :| 0 <= j < |order| && order[j] == g;
    }
  }

  /** Finding or creating the category of group `g == order[i]`. */
  method EnsureCategory(ghost t: Tables, ghost order: seq<string>, ghost m: map<string, set<string>>, ghost i: nat,
                        r: Tables, g: string)
    returns (r': Tables, c: Category)
    requires i < |order| && order[i] == g && g in m
    requires InsertedUpTo(t, order, m, i, r)
    ensures InsertingGroup(t, order, m, i, c, m[g], r')
    ensures CategoryNamed(r.categories, g).Some? ==> r' == r && c == CategoryNamed(r.categories, g).value
    ensures CategoryNamed(r.categories, g).None? ==>
      r' == r.(categories := r.categories + [Category(NextRowId(CategoryIds(r.categories)), g)])
  {
    var found := CategoryNamed(r.categories, g);
    if found.Some? {
      r', c := r, found.value;
    } else {
      c := Category(NextRowId(CategoryIds(r.categories)), g);
      r' := r.(categories := r.categories + [c]);
      AddCategoryValid(r, g);
      AddsOnlyMissingCategory(t, r, m, c);
      CoveredUpToExtends(r, r', order, m, i);
    }
  }

  /** Appending the subcategory for the pending name `sub.name` leaves one name fewer pending. */
  lemma PendingAdded(subs: seq<Subcategory>, sub: Subcategory, names: set<string>, pending: set<string>, categoryId: int)
    requires sub.categoryId == categoryId
    requires forall s :: s in names && s !in pending ==> HasSubcategory(subs, s, categoryId)
    ensures forall s :: s in names && s !in pending - {sub.name} ==> HasSubcategory(subs + [sub], s, categoryId)
  {
    assert sub in subs + [sub];
    forall s | s in names && s !in pending - {sub.name} ensures HasSubcategory(subs + [sub], s, categoryId) {
      if s != sub.name {
        var w :| w in subs && w.name == s && w.categoryId == categoryId;
        assert w in subs + [sub];
      }
    }
  }

  /** Finding or creating subcategory `s` of category `c`. */
  method EnsureSubcategory(ghost t: Tables, ghost order: seq<string>, ghost m: map<string, set<string>>, ghost i: nat,
                           c: Category, ghost pending: set<string>, r: Tables, s: string)
    returns (r': Tables)
    requires s in pending
    requires InsertingGroup(t, order, m, i, c, pending, r)
    ensures InsertingGroup(t, order, m, i, c, pending - {s}, r')
    ensures HasSubcategory(r.subcategories, s, c.id) ==> r' == r
    ensures !HasSubcategory(r.subcategories, s, c.id) ==>
      r' == r.(subcategories := r.subcategories + [Subcategory(NextRowId(SubcategoryIds(r.subcategories)), s, c.id)])
  {
    if HasSubcategory(r.subcategories, s, c.id) {
      r' := r;
    } else {
      var sub := Subcategory(NextRowId(SubcategoryIds(r.subcategories)), s, c.id);
      r' := r.(subcategories := r.subcategories + [sub]);
      AddSubcategoryValid(r, c, s);
      AddsOnlyMissingSubcategory(t, r, m, c, sub);
      CoveredUpToExtends(r, r', order, m, i);
      PendingAdded(r.subcategories, sub, m[order[i]], pending, c.id);
    }
  }

  /**
   * The insert loops of `import_budget_categories`: for every group, in map
   * order, the category named after it is looked up and created if missing;
   * then, for each name of its set in unspecified order, the subcategory
   * with that name under that category is looked up and created if missing.
   * New rows take the next free id.
   */
  method EnsureCategories(t: Tables, order: seq<string>, m: map<string, set<string>>) returns (r: Tables)
    requires ValidTables(t)
    requires forall g :: g in order <==> g in m
    ensures ValidTables(r)
    ensures AddsOnlyMissing(t, r, m)
    ensures Covers(r, m)
  {
    r := t;
    for i := 0 to |order|
      invariant InsertedUpTo(t, order, m, i, r)
    {
      var c;
      r, c := EnsureCategory(t, order, m, i, r, order[i]);
      var pending := m[order[i]];
      while pending != {}
        invariant InsertingGroup(t, order, m, i, c, pending, r)
        decreases |pending|
      {
        var s :| s in pending;
        r := EnsureSubcategory(t, order, m, i, c, pending, r, s);
        pending := pending - {s};
      }
      GroupDone(t, order, m, i, c, r);
    }
    InsertedAll(t, order, m, r);
  }

  /**
   * `import_budget_categories` from the rows read onwards: the store then
   * holds a category for every group of the file and a subcategory for
   * every name of every group, it was extended by exactly the missing ones
   * and its transactions are untouched; a failed commit leaves the committed
   * state. Whether the commit succeeds is a parameter.
   */
  method ImportBudgetCategories(s: Session, rows: seq<Row>, commitSucceeds: bool)
    requires s.Valid()
    modifies s
    ensures s.Valid()
    ensures commitSucceeds ==>
      && s.db == s.committed
      && AddsOnlyMissing(old(s.db), s.db, CategoryMapOf(Entries(BudgetRows(rows))))
      && Covers(s.db, CategoryMapOf(Entries(BudgetRows(rows))))
    ensures !commitSucceeds ==> s.db == old(s.committed) && s.committed == old(s.committed)
  {
    var order, categoryMap := BuildCategoryMap(Entries(BudgetRows(rows)));
    GroupOrderSpec(Entries(BudgetRows(rows)));
    var r := EnsureCategories(s.db, order, categoryMap);
    s.db := r;
    s.Commit(commitSucceeds);
  }
}
