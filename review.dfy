/**
 * The categorisation half of the interactive review (`handle_review`,
 * src/finanseer/__main__.py): the subcategories are numbered by flattening
 * the categories, a category number picks one of them, and the selected
 * transactions are assigned to it.
 */
module Review {
  import opened Wrappers
  import opened Strings
  import opened Sorting
  import opened Models
  import opened Core
  import opened Exporters
  import opened Selection

  // ---------------------------------------------------------------------------
  // Flattening the categories

  /** `key=lambda s: s.name` on subcategories. */
  function SubcategoryNameOrder(a: Subcategory, b: Subcategory): bool {
    LexLe(a.name, b.name)
  }

  /** `key=lambda x: x.name` on categories. */
  function CategoryNameOrder(a: CategoryWithSubcategories, b: CategoryWithSubcategories): bool {
    LexLe(a.category.name, b.category.name)
  }

  function LoadedName(c: CategoryWithSubcategories): string {
    c.category.name
  }

  function CategoryKey(c: Category): string {
    c.name
  }

  lemma NameOrdersArePreorders()
    ensures Total(SubcategoryNameOrder) && Transitive(SubcategoryNameOrder)
    ensures Total(CategoryNameOrder) && Transitive(CategoryNameOrder)
    ensures Total(NameOrder) && Transitive(NameOrder)
  {
    forall a: string, b: string ensures LexLe(a, b) || LexLe(b, a) {
      LexLeTotal(a, b);
    }
    forall a: string, b: string, c: string | LexLe(a, b) && LexLe(b, c) ensures LexLe(a, c) {
      LexLeTransitive(a, b, c);
    }
  }

  /** The blocks one after the other. */
  function Concat(blocks: seq<seq<Subcategory>>): seq<Subcategory>
    decreases |blocks|
  {
    if blocks == [] then [] else Concat(blocks[..|blocks| - 1]) + blocks[|blocks| - 1]
  }

  /** Each category's subcategories, sorted by name. */
  function Blocks(cs: seq<CategoryWithSubcategories>): (r: seq<seq<Subcategory>>)
    ensures |r| == |cs|
    ensures forall i :: 0 <= i < |cs| ==> r[i] == SortBy(cs[i].subcategories, SubcategoryNameOrder)
  {
    seq(|cs|, i requires 0 <= i < |cs| => SortBy(cs[i].subcategories, SubcategoryNameOrder))
  }

  /** `flat_subcategories`: the categories sorted by name, then each one's subcategories sorted by name. */
  function Flattened(allCategories: seq<CategoryWithSubcategories>): seq<Subcategory> {
    Concat(Blocks(SortBy(allCategories, CategoryNameOrder)))
  }

  /** `flat_subcategories`, built by the loops over `sorted(all_categories, key=lambda x: x.name)`. */
  method FlattenSubcategories(allCategories: seq<CategoryWithSubcategories>) returns (flat: seq<Subcategory>)
    ensures flat == Flattened(allCategories)
  {
    var cats := SortBy(allCategories, CategoryNameOrder);
    flat := FlattenInOrder(cats);
  }

  /** The nested loops: each category in turn appends its subcategories, sorted by name. */
  method FlattenInOrder(cats: seq<CategoryWithSubcategories>) returns (flat: seq<Subcategory>)
    ensures flat == Concat(Blocks(cats))
  {
    ghost var blocks := Blocks(cats);
    flat := [];
    for i := 0 to |cats|
      invariant flat == Concat(blocks[..i])
    {
      var subs := SortBy(cats[i].subcategories, SubcategoryNameOrder);
      flat := AppendAll(flat, subs);
      ConcatSnoc(blocks, i);
    }
    assert blocks[..|cats|] == blocks;
  }

  /** The inner loop: `flat_subcategories.append(sub)` for each subcategory in turn. */
  method AppendAll(flat: seq<Subcategory>, subs: seq<Subcategory>) returns (r: seq<Subcategory>)
    ensures r == flat + subs
  {
    r := flat;
    for j := 0 to |subs|
      invariant r == flat + subs[..j]
    {
      r := r + [subs[j]];
      assert subs[..j + 1] == subs[..j] + [subs[j]];
    }
    assert subs[..|subs|] == subs;
  }

  lemma ConcatSnoc(blocks: seq<seq<Subcategory>>, i: nat)
    requires i < |blocks|
    ensures Concat(blocks[..i + 1]) == Concat(blocks[..i]) + blocks[i]
  {
    assert blocks[..i + 1][..i] == blocks[..i];
  }

  /** A subcategory is in the concatenation exactly when one of the blocks holds it. */
  lemma {:induction false} ConcatMembers(blocks: seq<seq<Subcategory>>, x: Subcategory)
    ensures x in Concat(blocks) <==> exists i :: 0 <= i < |blocks| && x in blocks[i]
    decreases |blocks|
  {
    if blocks != [] {
      var init := blocks[..|blocks| - 1];
      ConcatMembers(init, x);
      assert forall i :: 0 <= i < |init| ==> init[i] == blocks[i];
      if x in blocks[|blocks| - 1] {
        assert x in Concat(blocks);
      }
      if exists i :: 0 <= i < |blocks| && x in blocks[i] {
        var i :| 0 <= i < |blocks| && x in blocks[i];
        if i < |blocks| - 1 {
          assert x in init[i];
        }
      }
    }
  }

  /** A listed subcategory is found by its id, so assigning it never reports a missing subcategory. */
  lemma FlattenedFound(db: Tables, flat: seq<Subcategory>, i: int)
    requires flat == Flattened(GetAllCategories(db)) && 0 <= i < |flat|
    ensures FindSubcategory(db.subcategories, flat[i].id).Some?
  {
    var x := flat[i];
    FlattenedStore(db, x);
    var k :| 0 <= k < |db.subcategories| && db.subcategories[k] == x;
    assert db.subcategories[k].id == x.id;
  }

  /**
   * The flattening of `get_all_categories` holds exactly the subcategories
   * whose category exists; with the foreign key in place, every subcategory.
   */
  lemma FlattenedStore(db: Tables, x: Subcategory)
    ensures x in Flattened(GetAllCategories(db)) <==>
      x in db.subcategories && exists c :: c in db.categories && c.id == x.categoryId
    ensures ValidTables(db) ==> (x in Flattened(GetAllCategories(db)) <==> x in db.subcategories)
  {
    if x in Flattened(GetAllCategories(db)) {
      var c := FlattenedOwner(db, x);
    }
    if x in db.subcategories && exists c :: c in db.categories && c.id == x.categoryId {
      var c :| c in db.categories && c.id == x.categoryId;
      FlattenedHas(db, x, c);
    }
    if ValidTables(db) && x in db.subcategories {
      var k :| 0 <= k < |db.subcategories| && db.subcategories[k] == x;
      var m :| 0 <= m < |db.categories| && db.categories[m].id == db.subcategories[k].categoryId;
      FlattenedHas(db, x, db.categories[m]);
    }
  }

  /** A listed subcategory is stored, and so is the category it references. */
  lemma FlattenedOwner(db: Tables, x: Subcategory) returns (c: Category)
    requires x in Flattened(GetAllCategories(db))
    ensures x in db.subcategories && c in db.categories && c.id == x.categoryId
  {
    var all := GetAllCategories(db);
    ListingAgrees(db);
    ConcatMembers(Blocks(all), x);
    var i :| 0 <= i < |all| && x in Blocks(all)[i];
    SortByMembers(all[i].subcategories, SubcategoryNameOrder, x);
    ListedCategory(db, i);
    c := all[i].category;
  }

  /** A stored subcategory whose category is stored is listed. */
  lemma FlattenedHas(db: Tables, x: Subcategory, c: Category)
    requires x in db.subcategories && c in db.categories && c.id == x.categoryId
    ensures x in Flattened(GetAllCategories(db))
  {
    var all := GetAllCategories(db);
    ListingAgrees(db);
    var i := CategoryListed(db, c);
    ListedCategory(db, i);
    SortByMembers(all[i].subcategories, SubcategoryNameOrder, x);
    assert x in Blocks(all)[i];
    ConcatMembers(Blocks(all), x);
  }

  /**
   * Blocks that are each ordered by name and whose owners have increasing,
   * distinct names concatenate into subcategories ordered by their owner's
   * name, and those of one owner by their own name.
   */
  lemma {:induction false} ConcatOrdered(blocks: seq<seq<Subcategory>>, names: seq<string>, owner: Subcategory -> string,
                                         p: nat, q: nat)
    requires |names| == |blocks|
    requires forall i, x :: 0 <= i < |blocks| && x in blocks[i] ==> owner(x) == names[i]
    requires forall i :: 0 <= i < |blocks| ==> SortedBy(blocks[i], SubcategoryNameOrder)
    requires forall i, j :: 0 <= i < j < |names| ==> LexLe(names[i], names[j]) && names[i] != names[j]
    requires p < q < |Concat(blocks)|
    ensures var f := Concat(blocks);
      LexLe(owner(f[p]), owner(f[q])) && (owner(f[p]) == owner(f[q]) ==> LexLe(f[p].name, f[q].name))
    decreases |blocks|
  {
    var n := |blocks| - 1;
    var init := blocks[..n];
    var a, b := Concat(init), blocks[n];
    var f := Concat(blocks);
    assert f == a + b;
    if q < |a| {
      assert forall i :: 0 <= i < n ==> init[i] == blocks[i];
      ConcatOrdered(init, names[..n], owner, p, q);
      assert f[p] == a[p] && f[q] == a[q];
    } else if p >= |a| {
      assert f[p] == b[p - |a|] && f[q] == b[q - |a|];
      assert f[p] in blocks[n] && f[q] in blocks[n];
      assert owner(f[p]) == names[n] == owner(f[q]);
      LexLeTotal(names[n], names[n]);
      assert SubcategoryNameOrder(b[p - |a|], b[q - |a|]);
    } else {
      assert f[p] == a[p] && f[q] == b[q - |a|];
      ConcatMembers(init, f[p]);
      var i :| 0 <= i < n && f[p] in init[i];
      assert f[p] in blocks[i] && f[q] in blocks[n];
      assert owner(f[p]) == names[i] && owner(f[q]) == names[n];
    }
  }

  /** The name of a subcategory's category in the store. */
  function OwnerName(db: Tables, x: Subcategory): string {
    match FindCategory(db.categories, x.categoryId)
    case Some(c) => c.name
    case None => ""
  }

  /**
   * The numbering orders subcategories by their category's name and, within
   * one category, by their own name.
   */
  lemma FlattenedOrder(db: Tables)
    requires ValidTables(db)
    ensures var f := Flattened(GetAllCategories(db));
      forall p, q :: 0 <= p < q < |f| ==>
        && LexLe(OwnerName(db, f[p]), OwnerName(db, f[q]))
        && (OwnerName(db, f[p]) == OwnerName(db, f[q]) ==> LexLe(f[p].name, f[q].name))
  {
    var all := GetAllCategories(db);
    var sorted := SortBy(db.categories, NameOrder);
    var blocks := Blocks(all);
    var names := seq(|all|, i requires 0 <= i < |all| => all[i].category.name);
    ListingAgrees(db);
    GetAllCategoriesSpec(db);
    SortByDistinct(db.categories, NameOrder, CategoryKey);
    forall i, j | 0 <= i < j < |names| ensures LexLe(names[i], names[j]) && names[i] != names[j] {
      assert all[i].category == sorted[i] && all[j].category == sorted[j];
    }
    forall i | 0 <= i < |blocks| ensures SortedBy(blocks[i], SubcategoryNameOrder) {
      NameOrdersArePreorders();
      SortBySorted(all[i].subcategories, SubcategoryNameOrder);
    }
    var owner := (x: Subcategory) => OwnerName(db, x);
    forall i, x | 0 <= i < |blocks| && x in blocks[i] ensures owner(x) == names[i] {
      SortByMembers(all[i].subcategories, SubcategoryNameOrder, x);
      assert all[i].category in db.categories && x.categoryId == all[i].category.id;
      OwnerOfCategory(db, all[i].category, x);
    }
    forall p, q | 0 <= p < q < |Concat(blocks)|
      ensures && LexLe(OwnerName(db, Concat(blocks)[p]), OwnerName(db, Concat(blocks)[q]))
              && (OwnerName(db, Concat(blocks)[p]) == OwnerName(db, Concat(blocks)[q]) ==>
                    LexLe(Concat(blocks)[p].name, Concat(blocks)[q].name))
    {
      ConcatOrdered(blocks, names, owner, p, q);
    }
  }

  /** With unique category ids, the owner of a subcategory is the category its id names. */
  lemma OwnerOfCategory(db: Tables, c: Category, x: Subcategory)
    requires CategoriesValid(db.categories)
    requires c in db.categories && x.categoryId == c.id
    ensures OwnerName(db, x) == c.name
  {
    var m :| 0 <= m < |db.categories| && db.categories[m] == c;
    var found := FindCategory(db.categories, c.id);
    var k :| 0 <= k < |db.categories| && db.categories[k] == found.value;
    assert k == m;
  }

  /**
   * The numbers `list-categories` prints (each category in the order
   * `get_all_categories` returns, its subcategories sorted by name) are the
   * numbers the review accepts: sorting the already name-ordered categories
   * again changes nothing.
   */
  lemma ListingAgrees(db: Tables)
    ensures Flattened(GetAllCategories(db)) == Concat(Blocks(GetAllCategories(db)))
  {
    GetAllCategoriesSpec(db);
    SortByOfSorted(GetAllCategories(db), CategoryNameOrder);
  }

  // ---------------------------------------------------------------------------
  // One round of the review

  /** What one round of the review loop ends in. */
  datatype ReviewOutcome =
    | Quit
    | ListCategories
    | InvalidInput
    | InvalidSelection
    | Cancelled
    | InvalidCategoryNumber
    | Categorized(ids: seq<string>, subcategoryId: int)

  /** `[t.id for t in selected_transactions]`. */
  function Ids(txs: seq<Transaction>): (r: seq<string>)
    ensures |r| == |txs|
    ensures forall i :: 0 <= i < |txs| ==> r[i] == txs[i].id
  {
    seq(|txs|, i requires 0 <= i < |txs| => txs[i].id)
  }

  /**
   * The outcome of one round, given the listed transactions `txs`, the
   * numbered subcategories `flat` and the two answers. `ValueError` and
   * `IndexError` both end in "Invalid input".
   */
  function Decide(txs: seq<Transaction>, flat: seq<Subcategory>, userInput: string, catInput: string): ReviewOutcome {
    if LowerAscii(userInput) == "q" then Quit
    else if LowerAscii(userInput) == "l" then ListCategories
    else
      match SelectionOf(userInput)
      case None => InvalidInput
      case Some(indices) =>
        match Selected(txs, indices)
        case None => InvalidInput
        case Some(selected) => Categorize(selected, flat, catInput)
  }

  /** What becomes of the selected transactions: the category answer decides. */
  function Categorize(selected: seq<Transaction>, flat: seq<Subcategory>, catInput: string): ReviewOutcome {
    if selected == [] then InvalidSelection
    else if LowerAscii(catInput) == "c" then Cancelled
    else
      match ParseInt(catInput)
      case None => InvalidInput
      case Some(n) =>
        if 0 <= n - 1 < |flat| then Categorized(Ids(selected), flat[n - 1].id)
        else InvalidCategoryNumber
  }

  /** Once the selection is made, the category answer alone decides. */
  lemma DecideSelected(txs: seq<Transaction>, flat: seq<Subcategory>, userInput: string, catInput: string)
    requires LowerAscii(userInput) != "q" && LowerAscii(userInput) != "l"
    requires SelectionOf(userInput).Some? && Selected(txs, SelectionOf(userInput).value).Some?
    ensures Decide(txs, flat, userInput, catInput) ==
      Categorize(Selected(txs, SelectionOf(userInput).value).value, flat, catInput)
  {
  }

  /**
   * Only a listed transaction is ever assigned, at least one is, and the
   * subcategory is one of the numbered ones.
   */
  lemma DecideCategorized(txs: seq<Transaction>, flat: seq<Subcategory>, userInput: string, catInput: string)
    requires Decide(txs, flat, userInput, catInput).Categorized?
    ensures var o := Decide(txs, flat, userInput, catInput);
      && |o.ids| > 0
      && (forall id :: id in o.ids ==> exists t :: t in txs && t.id == id)
      && exists k :: 0 <= k < |flat| && flat[k].id == o.subcategoryId
  {
    var o := Decide(txs, flat, userInput, catInput);
    var indices := SelectionOf(userInput).value;
    var selected := Selected(txs, indices).value;
    DecideSelected(txs, flat, userInput, catInput);
    var k := CategorizeChoice(selected, flat, catInput);
    assert selected != [];
    SelectedFrom(txs, indices);
    forall id | id in o.ids ensures exists t :: t in txs && t.id == id {
      var k :| 0 <= k < |selected| && Ids(selected)[k] == id;
      assert selected[k] in selected;
    }
  }

  /** A comma-separated part that is not a number or a range of numbers makes the round "Invalid input". */
  lemma DecideInvalidPart(txs: seq<Transaction>, flat: seq<Subcategory>, userInput: string, catInput: string, k: nat)
    requires LowerAscii(userInput) != "q" && LowerAscii(userInput) != "l"
    requires k < |SplitOn(userInput, ',')| && PartIndices(SplitOn(userInput, ',')[k]).None?
    ensures Decide(txs, flat, userInput, catInput) == InvalidInput
  {
    SelectionOfSpec(userInput, SplitOn(userInput, ','));
  }

  /** An empty answer is "Invalid input": `int('')` raises. */
  lemma DecideEmptyAnswer(txs: seq<Transaction>, flat: seq<Subcategory>, catInput: string)
    ensures Decide(txs, flat, "", catInput) == InvalidInput
  {
    assert LowerAscii("") == "";
    OnePartSelection("");
    BlankPart("");
  }

  /**
   * With at least one listed transaction, a selection that parses is
   * "Invalid selection" exactly when every index is beyond the list.
   */
  lemma DecideEmptySelection(txs: seq<Transaction>, flat: seq<Subcategory>, userInput: string, catInput: string)
    requires LowerAscii(userInput) != "q" && LowerAscii(userInput) != "l"
    requires |txs| > 0 && SelectionOf(userInput).Some?
    ensures Decide(txs, flat, userInput, catInput) == InvalidSelection <==>
      forall i :: i in SelectionOf(userInput).value ==> i >= |txs|
  {
    var indices := SelectionOf(userInput).value;
    SelectionLowerBound(userInput);
    SelectedEmpty(txs, indices);
    DecideSelected(txs, flat, userInput, catInput);
    var selected := Selected(txs, indices).value;
    assert Categorize(selected, flat, catInput) == InvalidSelection <==> selected == [];
  }

  /** "c" or "C" as the category answer cancels a non-empty selection. */
  lemma DecideCancel(txs: seq<Transaction>, flat: seq<Subcategory>, userInput: string, catInput: string)
    requires LowerAscii(userInput) != "q" && LowerAscii(userInput) != "l"
    requires SelectionOf(userInput).Some? && Selected(txs, SelectionOf(userInput).value).Some?
    requires Selected(txs, SelectionOf(userInput).value).value != []
    requires catInput == "c" || catInput == "C"
    ensures Decide(txs, flat, userInput, catInput) == Cancelled
  {
    assert LowerAscii(catInput)[0] == 'c';
    assert LowerAscii(catInput) == "c";
  }

  /**
   * The category answer k, whitespace around it allowed, assigns the
   * selected transactions to subcategory number k (the element k-1 of the
   * flattening); a k of 0 or beyond the list is "Invalid category number",
   * and a numeral over the length limit is "Invalid input".
   */
  lemma DecidePick(txs: seq<Transaction>, flat: seq<Subcategory>, userInput: string, k: nat, p: string, q: string)
    requires LowerAscii(userInput) != "q" && LowerAscii(userInput) != "l"
    requires SelectionOf(userInput).Some? && Selected(txs, SelectionOf(userInput).value).Some?
    requires Selected(txs, SelectionOf(userInput).value).value != []
    requires AllIntSpace(p) && AllIntSpace(q)
    ensures var selected := Selected(txs, SelectionOf(userInput).value).value;
      Decide(txs, flat, userInput, p + NatStr(k) + q) ==
        if |NatStr(k)| > MaxStrDigits then InvalidInput
        else if 1 <= k <= |flat| then Categorized(Ids(selected), flat[k - 1].id)
        else InvalidCategoryNumber
  {
    DecideSelected(txs, flat, userInput, p + NatStr(k) + q);
    CategorizePick(Selected(txs, SelectionOf(userInput).value).value, flat, k, p, q);
  }

  /** The category answer k, as `Categorize` sees it. */
  lemma CategorizePick(selected: seq<Transaction>, flat: seq<Subcategory>, k: nat, p: string, q: string)
    requires selected != [] && AllIntSpace(p) && AllIntSpace(q)
    ensures Categorize(selected, flat, p + NatStr(k) + q) ==
      if |NatStr(k)| > MaxStrDigits then InvalidInput
      else if 1 <= k <= |flat| then Categorized(Ids(selected), flat[k - 1].id)
      else InvalidCategoryNumber
  {
    var cat := p + NatStr(k) + q;
    ParseIntNatStr(k, p, q);
    var d := NatStr(k);
    assert cat[|p|] == d[0] && IsDigit(d[0]);
    assert LowerAscii(cat)[|p|] != 'c';
  }

  // ---------------------------------------------------------------------------
  // The round on the session

  /**
   * One round of `handle_review` after `transactions` was listed: the
   * answers are `userInput` and `catInput`, and `commitSucceeds` says whether
   * the commit of the assignment goes through. Only a categorised round
   * changes the store, and then exactly as `set_category_for_transactions`
   * does.
   */
  method ReviewRound(s: Session, transactions: seq<Transaction>, userInput: string, catInput: string,
                     commitSucceeds: bool)
    returns (outcome: ReviewOutcome)
    requires s.Valid()
    modifies s
    ensures s.Valid()
    ensures outcome == Decide(transactions, Flattened(GetAllCategories(old(s.db))), userInput, catInput)
    ensures !outcome.Categorized? ==> s.db == old(s.db) && s.committed == old(s.committed)
    ensures outcome.Categorized? && commitSucceeds ==>
      s.db == s.committed == old(s.db).(transactions := Assigned(old(s.db).transactions, outcome.ids, outcome.subcategoryId))
    ensures outcome.Categorized? && !commitSucceeds ==> s.db == s.committed == old(s.committed)
  {
    if LowerAscii(userInput) == "q" {
      return Quit;
    }
    if LowerAscii(userInput) == "l" {
      return ListCategories;
    }
    var selectedIndices := ParseSelection(userInput);
    if selectedIndices.None? {
      return InvalidInput;
    }
    var selected := Selected(transactions, selectedIndices.value);
    if selected.None? {
      return InvalidInput;
    }
    DecideSelected(transactions, Flattened(GetAllCategories(s.db)), userInput, catInput);
    outcome := CategorizeSelected(s, selected.value, catInput, commitSucceeds);
  }

  /**
   * Lines 116-138 of `handle_review`: an empty selection, a cancel, a category
   * number that does not parse or is out of range change nothing; a valid
   * number assigns the selected transactions to that subcategory.
   */
  method CategorizeSelected(s: Session, selected: seq<Transaction>, catInput: string, commitSucceeds: bool)
    returns (outcome: ReviewOutcome)
    requires s.Valid()
    modifies s
    ensures s.Valid()
    ensures outcome == Categorize(selected, Flattened(GetAllCategories(old(s.db))), catInput)
    ensures !outcome.Categorized? ==> s.db == old(s.db) && s.committed == old(s.committed)
    ensures outcome.Categorized? && commitSucceeds ==>
      s.db == s.committed == old(s.db).(transactions := Assigned(old(s.db).transactions, outcome.ids, outcome.subcategoryId))
    ensures outcome.Categorized? && !commitSucceeds ==> s.db == s.committed == old(s.committed)
  {
    outcome := ChooseSubcategory(s.db, selected, catInput);
    if outcome.Categorized? {
      CategorizedFound(s.db, selected, catInput);
      var assignment := SetCategoryForTransactions(s, outcome.ids, outcome.subcategoryId, commitSucceeds);
    }
  }

  /**
   * The answers of lines 116-135 of `handle_review`, read against the store `db`.
   */
  method ChooseSubcategory(db: Tables, selected: seq<Transaction>, catInput: string) returns (outcome: ReviewOutcome)
    ensures outcome == Categorize(selected, Flattened(GetAllCategories(db)), catInput)
  {
    if selected == [] {
      return InvalidSelection;
    }
    if LowerAscii(catInput) == "c" {
      return Cancelled;
    }
    var number := ParseInt(catInput);
    if number.None? {
      return InvalidInput;
    }
    var catIndex := number.value - 1;
    var flat := FlattenSubcategories(GetAllCategories(db));
    if !(0 <= catIndex < |flat|) {
      return InvalidCategoryNumber;
    }
    var chosen := flat[catIndex];
    var ids := Ids(selected);
    outcome := Categorized(ids, chosen.id);
  }

  /**
   * A categorised answer always names a subcategory the store has, so the
   * assignment that follows never reports it missing.
   */
  lemma CategorizedFound(db: Tables, selected: seq<Transaction>, catInput: string)
    requires Categorize(selected, Flattened(GetAllCategories(db)), catInput).Categorized?
    ensures FindSubcategory(db.subcategories, Categorize(selected, Flattened(GetAllCategories(db)), catInput).subcategoryId).Some?
  {
    var flat := Flattened(GetAllCategories(db));
    var k := CategorizeChoice(selected, flat, catInput);
    FlattenedFound(db, flat, k);
  }

  /** A categorised answer names the selected ids and the id of one element of the flattening. */
  lemma CategorizeChoice(selected: seq<Transaction>, flat: seq<Subcategory>, catInput: string) returns (k: int)
    requires Categorize(selected, flat, catInput).Categorized?
    ensures 0 <= k < |flat|
    ensures Categorize(selected, flat, catInput) == Categorized(Ids(selected), flat[k].id)
  {
    k := ParseInt(catInput).value - 1;
  }

  /**
   * A committed categorised round takes the selected transactions off the
   * uncategorised list and leaves the rest of it as it was.
   */
  lemma CategorizedLeavesList(db: Tables, sortBy: string, userInput: string, catInput: string)
    requires Decide(GetUncategorizedTransactions(db, sortBy), Flattened(GetAllCategories(db)), userInput, catInput).Categorized?
    ensures var o := Decide(GetUncategorizedTransactions(db, sortBy), Flattened(GetAllCategories(db)), userInput, catInput);
      var db' := db.(transactions := Assigned(db.transactions, o.ids, o.subcategoryId));
      && (forall t :: t in GetUncategorizedTransactions(db', sortBy) <==>
            t in GetUncategorizedTransactions(db, sortBy) && t.id !in o.ids)
      && exists t :: t in GetUncategorizedTransactions(db, sortBy) && t !in GetUncategorizedTransactions(db', sortBy)
  {
    var txs := GetUncategorizedTransactions(db, sortBy);
    var o := Decide(txs, Flattened(GetAllCategories(db)), userInput, catInput);
    DecideCategorized(txs, Flattened(GetAllCategories(db)), userInput, catInput);
    AssignedLeaveUncategorized(db, o.ids, o.subcategoryId, sortBy);
    assert o.ids[0] in o.ids;
    var t :| t in txs && t.id == o.ids[0];
  }
}
