# finanseer core in Dafny

finanseer imports bank transactions from a Rabobank CSV export into a small
relational store and lets the user categorise them against a YNAB-style
budget: categories, each with named subcategories. It also exports the store
in YNAB's CSV layout. This project models the logic of that pipeline over an
in-memory store and proves what the code promises.

- **Models**: the store. A `Tables` value holds the `transactions`, `categories` and
  `subcategories` rows in insertion order, together with the key, uniqueness
  and foreign-key constraints the schema declares. A `Session` class holds the
  working state `db` and the durable state `committed`. Its `Commit(succeeds)`
  either persists the working state or rolls it back. Amounts in the store
  are integer cents, the `Numeric(10, 2)` column.
- **Schemas**: `Transaction.generate_id` and the amount validator. A `Decimal`
  is modelled by its sign, coefficient and exponent. Quantisation to `0.01`
  rounds half to even. The preimage of the id is built exactly as the source
  builds it, and the SHA-256 step is a function parameter `hash`. The id is
  therefore a function of its arguments, and equal arguments give equal ids.
- **TextProcessing**: `normalize_description`: fold, replace non-`[a-z0-9\s]`
  characters, split, drop stopwords, join, collapse.
- **Core**: the three queries. Uncategorised transactions sorted by amount or
  date, all categories with their subcategories sorted by name, and the
  case-insensitive `ILIKE` text search, with the `LIKE` wildcards modelled.
  Also `set_category_for_transactions` on the session.
- **Importers**: `_clean_str`, the per-row parsing of `import_rabobank_csv`,
  the in-file deduplication, `db.merge` as an upsert that keeps an existing
  categorisation, the two counters, and the final commit.
- **Budget**: the `category_map` loop of `import_budget_categories` and its
  ensure-exists inserts.
- **Exporters**: the record-building loop of
  `export_transactions_to_ynab_csv`, with its outer joins, label,
  outflow/inflow and US date.
- **Selection**: the parsing of a selection answer such as `1,2,5-7` in
  `handle_review`, including Python's `int()` (the whitespace it skips, underscores between
  digits and the 4300-digit limit) and its negative list indices.
- **Review**: one categorisation round of `handle_review`: listing, parsing,
  flattening, picking and assigning.
- **Strings, Sorting, Wrappers**: the shared library. Whitespace and
  `strip`, ASCII lowering, digits, words and joins, `split`, lexicographic
  order, a stable insertion sort by a total preorder, a filter, and `Option`.

Loops in the source are methods with loop invariants. `MergeRows`,
`BuildCategoryMap`, `ExportRecords`, `ParseSelection` and `FlattenInOrder`
are each proved equal to a function that specifies them. `EnsureCategories`
is proved against the predicates `AddsOnlyMissing` and `Covers`: it adds
only missing entries, and afterwards every entry of the map is present.

## Model

| member | source | states |
|---|---|---|
| Models.Session.constructor | src/finanseer/models.py:17-50 | A session starts on a store that satisfies the declared constraints, with nothing pending. |
| Models.ValidTables | src/finanseer/models.py:20-38 | The declared constraints: unique transaction ids, unique category ids and names, unique subcategory ids and (name, category_id) pairs, and each subcategory's category present. |
| Models.Session.Commit | src/finanseer/core.py:114-119 | A successful commit makes the pending state durable; a failed one rolls the working state back to the committed one; the constraints keep holding. |
| Schemas.CounterpartyId | src/finanseer/schemas.py:48 | `counterparty_iban or counterparty_name or ""`: the first truthy of the two, else "". |
| Schemas.CounterpartyPart | src/finanseer/schemas.py:53 | The stripped counterparty identity. |
| Schemas.DescriptionPart | src/finanseer/schemas.py:54 | The stripped description, or "" when it is absent or empty. |
| Schemas.AmountText | src/finanseer/schemas.py:52 | `str()` of the amount quantised to two decimals. |
| Schemas.Preimage | src/finanseer/schemas.py:50-55 | The hashed string: ISO date, amount text, counterparty part and description part, concatenated. |
| Schemas.GenerateId | src/finanseer/schemas.py:35-56 | The id is the digest of the preimage. |
| Schemas.Quantize | src/finanseer/schemas.py:52 | Quantising gives an exponent of -2 and keeps the sign. |
| Schemas.QuantizeNearest | src/finanseer/schemas.py:52 | The quantised coefficient is exact when no digits are dropped; otherwise it is the nearest multiple of 0.01, and a tie goes to the even one. |
| Schemas.QuantizeTrailingZeros | src/finanseer/schemas.py:52 | Trailing zeros do not change the quantised value (10.5 and 10.50 quantise alike). |
| Schemas.AmountMustBeTwoDecimalPlaces | src/finanseer/schemas.py:29-33 | The validator gives a value with exactly two decimals and the same sign. |
| Schemas.ValidatorIdempotent | src/finanseer/schemas.py:29-33 | Applying the validator twice equals applying it once. |
| Schemas.TwoDecimalsUnsigned | src/finanseer/schemas.py:52 | The string of a quantised amount is the whole part, a dot and two zero-padded digits. |
| Schemas.TwoDecimalsInjective | src/finanseer/schemas.py:52 | Different quantised amounts give different strings. |
| Schemas.IsoFormatInjective | src/finanseer/schemas.py:51 | `isoformat` is ten characters long and tells valid dates apart. |
| Schemas.EmptyIbanFallsThrough | src/finanseer/schemas.py:48 | An empty IBAN is falsy, so the name (or "") is used. |
| Schemas.BlankIbanWins | src/finanseer/schemas.py:48-53 | A whitespace-only IBAN is truthy, is chosen, and strips to "". |
| Schemas.PreimageSplit | src/finanseer/schemas.py:50-55 | The preimage is ISO date, quantised amount, stripped counterparty and stripped description, concatenated without separators. |
| Schemas.PreimageDateSensitive | src/finanseer/schemas.py:50-55 | With the other fields fixed, the preimages agree exactly when the dates do. |
| Schemas.PreimageAmountSensitive | src/finanseer/schemas.py:50-55 | With the other fields fixed, the preimages agree exactly when the amounts agree at two decimals. |
| Schemas.PreimageCounterpartySensitive | src/finanseer/schemas.py:50-55 | With the other fields fixed, the preimages agree exactly when the stripped counterparties do. |
| Schemas.PreimageDescriptionSensitive | src/finanseer/schemas.py:50-55 | With the other fields fixed, the preimages agree exactly when the stripped descriptions do. |
| Schemas.CounterpartyPartPadded | src/finanseer/schemas.py:48-53 | Whitespace around a non-empty IBAN or name does not change the counterparty part. |
| Schemas.DescriptionPartPadded | src/finanseer/schemas.py:54 | Whitespace around the description does not change the description part. |
| Schemas.PreimageIgnoresPadding | src/finanseer/schemas.py:35-56 | Surrounding whitespace on IBAN, name and description changes neither the preimage nor the id, for any hash. |
| Schemas.PreimageAmountExamples | tests/test_schemas.py:37-63 | 10.5 and 10.50 give the same preimage; 10.50 and 10.51 do not. |
| TextProcessing.FoldAll | src/finanseer/text_processing.py:34 | `unidecode(text.lower())`, one character at a time. |
| TextProcessing.Tokens | src/finanseer/text_processing.py:37-41 | The tokens of the sanitised text that are not stopwords, in order. |
| TextProcessing.CollapseSpaces | src/finanseer/text_processing.py:45 | Every maximal run of whitespace becomes one space. |
| TextProcessing.Normalize | src/finanseer/text_processing.py:15-47 | `normalize_description`: "" for an empty or absent text, else the collapsed and stripped join of the tokens. |
| TextProcessing.SanitizeChar | src/finanseer/text_processing.py:37 | A replaced character is a lower-case letter, a digit or whitespace, and those are kept as they are. |
| TextProcessing.Sanitize | src/finanseer/text_processing.py:37 | The substitution keeps the length and works character by character. |
| TextProcessing.RemoveStopwordsMembers | src/finanseer/text_processing.py:41 | A token survives the filter exactly when it was there and is not a stopword. |
| TextProcessing.RemoveStopwordsAppend | src/finanseer/text_processing.py:40-42 | The filter works token by token, so surviving tokens keep their order. |
| TextProcessing.TokensShape | src/finanseer/text_processing.py:5-41 | Every surviving token is a non-empty word of lower-case letters and digits, and not a stopword. |
| TextProcessing.NormalizeIsJoin | src/finanseer/text_processing.py:30-45 | The result is "" for empty or absent input; otherwise it is the surviving tokens joined by single spaces, and the final collapse changes nothing. |
| TextProcessing.NormalizeEmpty | src/finanseer/text_processing.py:30-31 | `None` and "" normalise to "". |
| TextProcessing.NormalizeAlphabet | src/finanseer/text_processing.py:37-45 | The output holds only `a-z`, `0-9` and single spaces, with none at either end. |
| TextProcessing.NormalizeWords | src/finanseer/text_processing.py:40-45 | The words of the output are the surviving tokens, in order, and none is a stopword. |
| TextProcessing.NormalizeAllStopwords | tests/test_text_processing.py:13-15 | Input made only of stopwords normalises to "". |
| TextProcessing.BoundarySplits | src/finanseer/text_processing.py:37-40 | Punctuation or a space separates tokens: the tokens around it are those of each side. |
| TextProcessing.FoldAllAscii | src/finanseer/text_processing.py:34 | On ASCII text the fold is plain lower-casing. |
| TextProcessing.TokensOfJoin | src/finanseer/text_processing.py:34-42 | Tokenising a space-joined list of normal tokens gives the list back. |
| TextProcessing.NormalizeIdempotent | src/finanseer/text_processing.py:15-47 | Normalising a normalised description changes nothing. |
| Core.Like | src/finanseer/core.py:78-79 | SQL `LIKE` without escape: `%` matches any run, `_` any one character, anything else itself. |
| Core.ILike | src/finanseer/core.py:78-79 | `ilike` on SQLite: `LIKE` after ASCII lowering of both sides. |
| Core.MatchesText | src/finanseer/core.py:75-81 | The search filter: uncategorised, and the name or the description matches `%text%`. |
| Core.SearchPattern | src/finanseer/core.py:72 | The text spliced between two `%` wildcards, unescaped. |
| Core.Assigned | src/finanseer/core.py:108-112 | The bulk `UPDATE`: each listed transaction gets the subcategory. |
| Core.OrdersArePreorders | src/finanseer/core.py:25-28 | The amount, date-descending and date-ascending orders are total preorders. |
| Core.AmountDesc | src/finanseer/core.py:26 | `ORDER BY amount DESC`: a precedes b when its amount is at least b's. |
| Core.DateDesc | src/finanseer/core.py:28 | `ORDER BY transaction_date DESC`: a precedes b when its date is not earlier. |
| Core.DateAsc | src/finanseer/exporters.py:22 | `ORDER BY transaction_date`: a precedes b when its date is not later. |
| Core.UncategorizedOrder | src/finanseer/core.py:25-28 | The amount order for `sort_by == "amount"`, the date-descending order for any other value. |
| Core.GetUncategorizedTransactions | src/finanseer/core.py:23-30 | The result is a permutation of the uncategorised transactions. |
| Core.GetUncategorizedTransactionsSpec | src/finanseer/core.py:10-33 | Exactly the uncategorised transactions, by non-increasing amount for "amount" and by non-increasing date for anything else. |
| Core.GetAllCategories | src/finanseer/core.py:36-55 | One entry per category. |
| Core.Load | src/finanseer/core.py:50 | The eager load of one category: the category with the stored subcategories whose `category_id` is its id, in store order. |
| Core.LoadAll | src/finanseer/core.py:48-53 | One loaded entry per category, position by position. |
| Core.ListedCategory | src/finanseer/core.py:48-53 | Each entry is a stored category loaded with exactly its own subcategories. |
| Core.CategoryListed | src/finanseer/core.py:48-53 | Every stored category has an entry. |
| Core.GetAllCategoriesSpec | src/finanseer/core.py:36-55 | Every category once, by name, each with exactly the subcategories that point to it. |
| Core.GetTransactionsByText | src/finanseer/core.py:73-84 | The result is a permutation of the transactions that match. |
| Core.GetTransactionsByTextSpec | src/finanseer/core.py:58-87 | Exactly the matching transactions, by non-increasing date. |
| Core.SearchIsSubstring | src/finanseer/core.py:72 | Without wildcards in the text, `%text%` matches exactly the strings that contain it. |
| Core.MatchesTextSubstring | src/finanseer/core.py:75-81 | Without wildcards, a transaction matches when it is uncategorised and its name or description contains the text, ignoring ASCII case; an absent column never matches. |
| Core.SearchUnderscoreMatchesAnyChar | src/finanseer/core.py:72 | An `_` in the text matches any single character, because the text is spliced into the pattern unescaped. |
| Core.LikePrefix | src/finanseer/core.py:72 | `t%` matches exactly the strings that start with a wildcard-free `t`. |
| Core.FindSubcategory | src/finanseer/core.py:100 | The lookup finds a subcategory exactly when one with that id exists. |
| Core.AssignedSpec | src/finanseer/core.py:108-112 | Every listed transaction gets the subcategory, already categorised or not; the others and the order are unchanged; ids missing from the store are ignored. |
| Core.AssignedKeepsValid | src/finanseer/core.py:108-112 | The bulk update keeps the store's constraints. |
| Core.AssignedLeaveUncategorized | src/finanseer/core.py:108-112 | After the update the uncategorised list is the old one without the listed ids. |
| Core.SetCategoryForTransactions | src/finanseer/core.py:90-119 | An unknown subcategory changes nothing; otherwise the update is committed, or, when the commit fails, the working state is rolled back to the last committed state. |
| Importers.BuildTransaction | src/finanseer/importers.py:61-95 | The record of a parsed row: id of the magnitude, quantised magnitude, mutation type from the sign. |
| Importers.ReplaceChar | src/finanseer/importers.py:60 | `str.replace` of one character: same length, each occurrence of the old character replaced and every other character kept. |
| Importers.NonNegative | src/finanseer/importers.py:61 | `amount_decimal >= 0`: a positive sign, or a zero coefficient whatever the sign. |
| Importers.MutationOf | src/finanseer/importers.py:61 | CREDIT when the amount is at least zero, negative zero included; DEBIT otherwise. |
| Importers.DescriptionFromParts | src/finanseer/importers.py:66-67 | The truthy parts joined by spaces and stripped, or `None` when that is empty. |
| Importers.ParseRow | src/finanseer/importers.py:47-101 | One row: missing data, a parse error, or the built record. |
| Importers.ParsedTransactions | src/finanseer/importers.py:47-75 | The records of the rows that parse, in file order. |
| Importers.RowParser | src/finanseer/importers.py:47-101 | The per-row parse with the date parser, decimal parser and hash fixed. |
| Importers.Dedup | src/finanseer/importers.py:77-82 | The records whose id was not seen earlier in the file. |
| Importers.Upsert | src/finanseer/importers.py:96 | `db.merge`: insert a new id, or overwrite an existing one but keep its subcategory. |
| Importers.Lookup | src/finanseer/importers.py:96 | The primary-key lookup `merge` does: Some exactly when a stored transaction has the id, and then that transaction. |
| Importers.UpsertAll | src/finanseer/importers.py:96 | `db.merge` of each record in turn. |
| Importers.ProcessRow | src/finanseer/importers.py:47-104 | The loop body: a parsed record with an unseen id is merged and counted as processed, anything else as skipped. |
| Importers.CleanStr | src/finanseer/importers.py:16-20 | Absent stays absent; anything else is stripped. |
| Importers.CleanStrBlank | src/finanseer/importers.py:16-20 | A blank value cleans to "", not to `None`. |
| Importers.CleanStrIdempotent | src/finanseer/importers.py:16-20 | Cleaning twice equals cleaning once. |
| Importers.Abs | src/finanseer/importers.py:62 | The stored amount is never negative. |
| Importers.DescriptionFromCleanParts | src/finanseer/importers.py:66-67 | The description is the non-empty parts joined by single spaces, and `None` exactly when every part is empty. |
| Importers.BuildTransactionSign | src/finanseer/importers.py:61-95 | An amount of zero or more is a credit and a negative one a debit; the sign is not otherwise kept; the record is uncategorised and from "Rabobank". |
| Importers.BuildTransactionAmount | src/finanseer/importers.py:62-88 | The stored cents are the absolute amount when it has at most two decimals, and otherwise the nearest cent, the even one at a tie. |
| Importers.BuildTransactionFields | src/finanseer/importers.py:84-95 | The record carries the account, date, currency, counterparty and description it was built from, and no subcategory. |
| Importers.ParseRowSpec | src/finanseer/importers.py:49-75 | A row is skipped for missing data exactly when account, date, amount or currency is absent or blank; a parsed row carries the cleaned fields. |
| Importers.ParseRowOutcome | src/finanseer/importers.py:49-101 | A row with its four essential cells is a parse error exactly when its date or its amount (comma read as a point) does not parse, and otherwise is the record built from the parsed values and the cleaned cells. |
| Importers.RowDescription | src/finanseer/importers.py:66-67 | The description of a row is `None` or non-empty without whitespace at its ends. |
| Importers.LookupUnique | src/finanseer/importers.py:96 | In a store with unique ids the lookup finds each row by its id. |
| Importers.UpsertSpec | src/finanseer/importers.py:96 | `merge` inserts or replaces by id, keeps an existing categorisation, and changes no other id. |
| Importers.DedupSpec | src/finanseer/importers.py:77-82 | The kept records have unique ids, cover every parsed id, come from the parsed ones, and include the first record of each id. |
| Importers.DedupCount | src/finanseer/importers.py:77-82 | As many records are kept as there are distinct ids. |
| Importers.UpsertAllSpec | src/finanseer/importers.py:96 | Merging a batch keeps ids unique, adds the batch's ids, leaves other ids alone, and stores each batch record. |
| Importers.ImportedStore | src/finanseer/importers.py:47-104 | After the row loop, the store holds the old ids and the parsed ones, untouched rows elsewhere, and the first record of each new id. |
| Importers.ImportedNewUncategorized | src/finanseer/importers.py:84-96 | A transaction new to the store arrives uncategorised. |
| Importers.ImportIntoEmpty | tests/test_importers.py:34-44 | Importing into an empty store keeps one record per distinct id, so three rows with one duplicate store two. |
| Importers.MergeRows | src/finanseer/importers.py:43-104 | The loop counts every row as processed or skipped, processes one row per distinct parsed id, and merges exactly the deduplicated records. |
| Importers.ImportRabobankRows | src/finanseer/importers.py:43-111 | The import merges the deduplicated parsed rows and commits; a failed commit leaves the committed store. |
| Budget.KeptBudgetRow | src/finanseer/importers.py:130-131 | A row survives the `dropna` and the blank-group filter. |
| Budget.EntryOf | src/finanseer/importers.py:135-136 | The `_clean_str` of the group and the category cells of a row. |
| Budget.BudgetRows | src/finanseer/importers.py:130-131 | The rows that survive both filters, in file order. |
| Budget.CategoryMapOf | src/finanseer/importers.py:133-140 | The final `category_map`: each truthy group to the set of its truthy categories. |
| Budget.GroupOrder | src/finanseer/importers.py:137-138 | The insertion order of the keys of `category_map`. |
| Budget.BudgetRowsSpec | src/finanseer/importers.py:130-131 | The kept rows are those with both columns present and a non-blank group. |
| Budget.GroupOrderSpec | src/finanseer/importers.py:137-138 | The order holds exactly the groups of the map, each once. |
| Budget.GroupOrderPrefix | src/finanseer/importers.py:134-138 | The groups of the first n rows, in their order, begin the whole order: keys keep their insertion order. |
| Budget.GroupOrderFirstSeen | src/finanseer/importers.py:134-138 | A group's position is the number of groups seen before its first row. |
| Budget.CategoryMapStep | src/finanseer/importers.py:134-140 | One row adds its group if new, and its subcategory if both are non-blank. |
| Budget.CategoryMapDuplicate | tests/test_importers.py:59-83 | A duplicate row changes nothing. |
| Budget.CategoryMapKeys | src/finanseer/importers.py:130-140 | A group is a key exactly when some kept row names it. |
| Budget.CategoryMapValues | src/finanseer/importers.py:130-140 | A subcategory is in its group's set exactly when it is non-blank and some kept row pairs it with the group. |
| Budget.BuildCategoryMap | src/finanseer/importers.py:133-140 | The loop builds exactly the category map, and its keys in first-seen order. |
| Budget.NextRowId | src/finanseer/importers.py:145-147 | A new row id is above every existing one. |
| Budget.AddCategoryValid | src/finanseer/importers.py:143-147 | Adding a category whose name is missing keeps the constraints and makes the name found. |
| Budget.AddSubcategoryValid | src/finanseer/importers.py:150-156 | Adding a subcategory missing from its category keeps the constraints. |
| Budget.NothingMissingNothingAdded | src/finanseer/importers.py:142-156 | When every group and subcategory already exists, the ensure-exists step adds nothing: re-running the import is a no-op. |
| Budget.EnsureCategory | src/finanseer/importers.py:143-147 | A group's category is looked up by name, and inserted with a fresh id only when missing. |
| Budget.EnsureSubcategory | src/finanseer/importers.py:149-156 | A subcategory is inserted only when none with its name exists under the category. |
| Budget.CategoryNamed | src/finanseer/importers.py:143 | `filter_by(name).first()`: a stored category with that name, or None when no category has it. |
| Budget.HasSubcategory | src/finanseer/importers.py:150-154 | The subcategory query finds a row: some stored subcategory has the name and the category id. |
| Budget.EnsureCategories | src/finanseer/importers.py:142-156 | The inserts keep the constraints, add only missing groups and subcategories, and leave every group and subcategory of the map present. |
| Budget.ImportBudgetCategories | src/finanseer/importers.py:130-163 | The committed store covers the map and differs from the old one only by missing entries; a failed commit leaves the committed store. |
| Exporters.ExportQuery | src/finanseer/exporters.py:18-24 | All transactions ordered by date. |
| Exporters.CategoryLabel | src/finanseer/exporters.py:33 | "Cat: Sub" when both names are truthy, else "". |
| Exporters.AmountString | src/finanseer/exporters.py:39-41 | `f"{amount:.2f}"` of an amount in cents. |
| Exporters.Flows | src/finanseer/exporters.py:35-41 | Outflow for a debit, inflow otherwise. |
| Exporters.UsDate | src/finanseer/exporters.py:44 | `strftime("%m/%d/%Y")`. |
| Exporters.BuildRecord | src/finanseer/exporters.py:43-50 | The YNAB record of one transaction and its joined names. |
| Exporters.ExportRecord | src/finanseer/exporters.py:31-50 | The record of a transaction with the names its outer joins find in the store. |
| Exporters.SubcategoryName | src/finanseer/exporters.py:20 | The outer join on the subcategory: its name, or None for an uncategorised transaction or a dangling id. |
| Exporters.CategoryName | src/finanseer/exporters.py:20-21 | The second outer join: the name of the subcategory's category, or None where either join finds nothing. |
| Exporters.ExportQuerySpec | src/finanseer/exporters.py:18-24 | The query returns every transaction once, uncategorised ones included, by non-decreasing date. |
| Exporters.JoinedNames | src/finanseer/exporters.py:19-21 | A categorised transaction carries its subcategory's and category's names. |
| Exporters.UncategorizedLabel | src/finanseer/exporters.py:20-33 | An uncategorised transaction gets the empty label. |
| Exporters.CategoryLabelSpec | src/finanseer/exporters.py:33 | The label is "Cat: Sub" exactly when both names are present and non-empty, and "" otherwise. |
| Exporters.FlowsSpec | src/finanseer/exporters.py:35-41 | A debit fills only the outflow, anything else only the inflow, each with the amount string. |
| Exporters.AmountStringSpec | src/finanseer/exporters.py:39-41 | The amount string has exactly two decimals and tells amounts apart. |
| Exporters.UsDateSpec | src/finanseer/exporters.py:44 | The date is MM/DD/YYYY, the ISO fields rearranged, and distinct dates stay distinct. |
| Exporters.ExportRecords | src/finanseer/exporters.py:26-50 | One record per transaction in query order, built from its joined names; none exactly when the store is empty. |
| Selection.ParseInt | src/finanseer/__main__.py:113 | `int()` on an answer: skipped whitespace peeled from both ends, then the number, `None` where it raises `ValueError`. |
| Selection.ParseStripped | src/finanseer/__main__.py:113 | An optional sign, then the digits. |
| Selection.DigitsOf | src/finanseer/__main__.py:113 | Digits with single underscores between them, at most 4300 of them, and their value. |
| Selection.IntSpaceSplit | src/finanseer/__main__.py:113 | Every answer is skipped whitespace, a middle without any at its ends, and skipped whitespace. |
| Selection.ParseIntStrip | src/finanseer/__main__.py:113 | `int()` ignores the whitespace it skips at both ends and parses the middle alone. |
| Selection.ParseIntSurrounded | src/finanseer/__main__.py:113 | Skipped whitespace may surround the number on either side. |
| Selection.ParseIntNatStr | src/finanseer/__main__.py:113 | A decimal numeral, with skipped whitespace around it, parses to its value when it has at most 4300 digits, and raises otherwise. |
| Selection.UnitSeparatorRejected | src/finanseer/__main__.py:113 | A U+001F before the digits makes `int()` raise, although `strip()` removes it. |
| Selection.DigitCountNatStr | src/finanseer/__main__.py:113 | Every character of a numeral counts towards the digit limit. |
| Selection.ParseIntSigned | src/finanseer/__main__.py:113 | A leading `+` or `-` is accepted, within the digit limit. |
| Selection.ParseIntBlank | src/finanseer/__main__.py:113 | A blank string does not parse, whatever whitespace it holds. |
| Selection.ParseIntRejects | src/finanseer/__main__.py:113 | A character that is not a digit, a sign, an underscore or skipped whitespace makes `int()` fail. |
| Selection.PartIndices | src/finanseer/__main__.py:108-113 | The indices one part adds, or `None` when `int()` or the unpacking raises. |
| Selection.SelectionOf | src/finanseer/__main__.py:104-113 | The union of the parts' indices, or `None` when a part fails. |
| Selection.SelectIndices | src/finanseer/__main__.py:115 | The comprehension over sorted indices: indices at or above the length dropped, one below `-len` raising. |
| Selection.Selected | src/finanseer/__main__.py:115 | The selected transactions for a set of indices. |
| Selection.Resolve | src/finanseer/__main__.py:115 | Python's list index: a negative index counts from the end, any other is itself. |
| Selection.RangeSet | src/finanseer/__main__.py:111 | `range(lo, hi)` holds exactly the integers from lo up to but excluding hi. |
| Selection.UnionSpec | src/finanseer/__main__.py:108-113 | The selection fails when any part fails, and otherwise holds exactly the indices of the parts. |
| Selection.SelectionOfSpec | src/finanseer/__main__.py:104-113 | Parsing fails exactly when some comma-separated part is invalid, and otherwise gives the union of the parts' indices. |
| Selection.ParseSelection | src/finanseer/__main__.py:106-113 | The loop over the parts computes exactly that selection, stopping at the first invalid part. |
| Selection.ParsePart | src/finanseer/__main__.py:109-113 | One part contributes a range or a single index, or fails. |
| Selection.DashPart | src/finanseer/__main__.py:109-111 | A part with one dash is the range between the two numbers around it, and fails when either does not parse. |
| Selection.RangePart | src/finanseer/__main__.py:109-111 | A part "a-b" gives the indices a-1 to b-1 inclusive, and nothing when the range is reversed; it fails only when a bound is over the digit limit. |
| Selection.SinglePart | src/finanseer/__main__.py:112-113 | A part "n" gives index n-1, within the digit limit. |
| Selection.BlankPart | src/finanseer/__main__.py:113 | A blank part is invalid. |
| Selection.TwoDashesPart | src/finanseer/__main__.py:110 | A part with two dashes is invalid. |
| Selection.NegativePart | src/finanseer/__main__.py:109-110 | A part "-n" is an invalid range, not a negative number. |
| Selection.SelectionLowerBound | src/finanseer/__main__.py:109-113 | No selected index is below -1. |
| Selection.ZeroSelection | src/finanseer/__main__.py:113 | The answer "0" selects index -1. |
| Selection.Min | src/finanseer/__main__.py:115 | The least element of a non-empty set. |
| Selection.Ascending | src/finanseer/__main__.py:115 | `sorted(list(s))` holds each element once, strictly increasing. |
| Selection.BelowSpec | src/finanseer/__main__.py:115 | Dropping indices at or above the bound keeps the others in order. |
| Selection.SelectIndicesSpec | src/finanseer/__main__.py:115 | The comprehension raises exactly when a kept index is below `-len`; otherwise each kept index gives the element it resolves to, in order. |
| Selection.SelectedSpec | src/finanseer/__main__.py:106-115 | Duplicates collapse, indices at or above the length are dropped, and the rest come out by increasing index, a negative one counted from the end. |
| Selection.SelectedFrom | src/finanseer/__main__.py:115 | Only listed transactions are selected. |
| Selection.SelectedEmpty | src/finanseer/__main__.py:115-116 | With no index below `-len`, the selection is empty exactly when every index is out of range. |
| Selection.SelectedMinusOne | src/finanseer/__main__.py:113-115 | Index -1 selects the last transaction. |
| Review.Flattened | src/finanseer/__main__.py:128-133 | `flat_subcategories`: categories by name, then each one's subcategories by name. |
| Review.Decide | src/finanseer/__main__.py:98-158 | The outcome of one round for its two answers. |
| Review.Categorize | src/finanseer/__main__.py:120-155 | The outcome for the category answer, once the selection is made. |
| Review.NameOrdersArePreorders | src/finanseer/__main__.py:131-132 | Ordering by name is a total preorder. |
| Review.FlattenSubcategories | src/finanseer/__main__.py:129-133 | The loops build exactly the flattening: categories by name, then each one's subcategories by name. |
| Review.FlattenInOrder | src/finanseer/__main__.py:131-133 | The outer loop appends each category's sorted subcategories in turn. |
| Review.AppendAll | src/finanseer/__main__.py:132-133 | The inner loop appends the subcategories in order. |
| Review.FlattenedStore | src/finanseer/__main__.py:129-133 | A subcategory is numbered exactly when it is stored with an existing category; for a valid store, exactly when it is stored. |
| Review.FlattenedFound | src/finanseer/__main__.py:135-138 | Every numbered subcategory passes the existence check of the assignment. |
| Review.FlattenedOrder | src/finanseer/__main__.py:129-133 | The numbering is by category name, then by subcategory name within a category. |
| Review.ListingAgrees | src/finanseer/__main__.py:65-68 | The listing shows the same numbering as the one the round picks from. |
| Review.DecideSelected | src/finanseer/__main__.py:115-138 | Once a selection is made, the category answer alone decides the round. |
| Review.DecideCategorized | src/finanseer/__main__.py:115-138 | An assignment names at least one transaction, only listed ones, and a numbered subcategory. |
| Review.DecideInvalidPart | src/finanseer/__main__.py:108-158 | An invalid part makes the whole round "Invalid input". |
| Review.DecideEmptyAnswer | src/finanseer/__main__.py:113-158 | An empty answer is "Invalid input". |
| Review.DecideEmptySelection | src/finanseer/__main__.py:115-118 | "Invalid selection" comes exactly when every index is beyond the list. |
| Review.DecideCancel | src/finanseer/__main__.py:123-124 | "c" or "C" cancels. |
| Review.DecidePick | src/finanseer/__main__.py:126-155 | Answer k, with skipped whitespace around it, picks element k-1 of the flattening; 0 or a k beyond it is "Invalid category number"; a k over the digit limit is "Invalid input". |
| Review.CategorizePick | src/finanseer/__main__.py:123-155 | The same for the category answer alone, once the selection is non-empty. |
| Review.ReviewRound | src/finanseer/__main__.py:98-138 | The round's outcome is the decision for its answers; only a categorised round changes the store, exactly as the assignment does, committed or rolled back. |
| Review.CategorizeSelected | src/finanseer/__main__.py:116-138 | After the selection, the category answer decides and a pick assigns. |
| Review.ChooseSubcategory | src/finanseer/__main__.py:116-136 | The answers read against the store give that decision. |
| Review.CategorizedFound | src/finanseer/__main__.py:135-138 | A picked subcategory always exists, so the assignment is never refused. |
| Review.CategorizedLeavesList | src/finanseer/__main__.py:86-138 | A committed round takes the selected transactions, at least one, off the uncategorised list and leaves the rest on it. |
| Sorting.SortBy | src/finanseer/core.py:25-28 | Sorting gives a permutation of its input. |
| Sorting.SortBySorted | src/finanseer/core.py:25-28 | Under a total preorder the result is sorted. |
| Sorting.SortByOfSorted | src/finanseer/__main__.py:131 | Sorting an already sorted sequence leaves it as it is, so re-sorting the name-ordered categories changes nothing. |
| Sorting.FilterMembers | src/finanseer/core.py:23 | The filter keeps exactly the elements that satisfy the predicate. |
| Strings.Strip | src/finanseer/importers.py:20 | `strip()` has no whitespace at either end. |
| Strings.StripKeeps | src/finanseer/importers.py:20 | A string with no edge whitespace is its own strip. |
| Strings.StripIdempotent | src/finanseer/importers.py:20 | Stripping twice equals stripping once. |
| Strings.StripPadded | src/finanseer/schemas.py:53-54 | Whitespace added at either end is stripped away again. |
| Strings.WordsShape | src/finanseer/text_processing.py:40 | `split()` gives non-empty words without whitespace. |
| Strings.SplitOnJoin | src/finanseer/__main__.py:107 | `split(',')` gives parts without a comma that join back to the input. |
| Strings.LexLeTotal | src/finanseer/core.py:51 | String order is total. |
| Strings.LexLeTransitive | src/finanseer/core.py:51 | String order is transitive. |
| Strings.LexLeAntisymmetric | src/finanseer/core.py:51 | String order is antisymmetric. |

## Left out

- SHA-256 (`hashlib`) is the parameter `hash`; the model proves facts about the preimage and, for any `hash`, the id.
- `unidecode` of a non-ASCII character is the parameter `translit`. The normaliser's facts hold for any transliteration, because the substitution step replaces everything outside `[a-z0-9\s]`.
- Unicode-aware `str.lower` is modelled as ASCII lowering only: in the normaliser it applies to ASCII characters, and in `ILIKE` SQLite's own `lower()` is ASCII-only.
- `datetime.strptime` and `Decimal(...)` parsing are parameters returning `Option`; a failed parse is the `ParseError` row outcome.
- `int()` skips exactly the whitespace CPython skips (every `str.isspace` character but U+001C-U+001F) and enforces the default limit of 4300 digits; Unicode decimal digits other than `0-9`, which CPython also accepts, are not modelled, and neither is a changed limit (`sys.set_int_max_str_digits`).
- Schemas.Quantize: `Decimal` arithmetic is exact in the model. The 28-digit context of `decimal` is not modelled, so a `quantize` whose result needs more than 28 digits, which raises `InvalidOperation` and makes the row a parse error, is an ordinary value here.
- Importers.BuildTransaction: `abs()` is exact in the model; under the 28-digit context it rounds an amount of more than 28 significant digits before `quantize` rounds it again, and that double rounding is not modelled.
- The foreign key from `transactions.subcategory_id` to `subcategories` (models.py:49) is not part of `ValidTables`; where a transaction's subcategory id is dangling, the export's joins give None.
- The subcategory foreign key in `ValidTables` is an invariant of the states this application creates, all of whose operations keep it. SQLite enforces foreign keys only under `PRAGMA foreign_keys`, which db.py does not issue, so a store file written by other means need not satisfy it.
- The store keeps amounts as exact integer cents. SQLite keeps a `Numeric(10, 2)` value as a floating-point number and SQLAlchemy reads it back through `%.2f`, and that float storage is not modelled.
- pandas CSV reading and writing, NaN cells, the `FileNotFoundError` branches, the `KeyError` of a missing column, and the final `to_csv` are file I/O. A row is a map from column to optional string; NaN is an absent value.
- The generic `except Exception` of the row loop ends in the same skipped count as a parse error and is not separated from it.
- Tie order of the database sorts is unspecified in the source. The model's sort fixes one order for ties, and no proved property depends on it.
- `isoformat` and `strftime('%m/%d/%Y')` render the year zero-padded to four digits. For years below 1000, `strftime` output differs between platforms, and that is not modelled.
- Budget.EnsureCategories: a new row takes the store's next row id. Groups are visited in first-seen order, which is dict order. A group's subcategory names are visited in an arbitrary order, because Python's set order is not modelled. The contract states what is inserted, not the order or the ids of the new rows.
- Review.ReviewRound: it models one pass of lines 98-138. The transactions listed at line 86 are a parameter, and the `while True` loop, `input()`, `print`, the display of the first 20 rows, and the re-import at line 83 are left out. As written, line 83 passes `handle_import` a namespace without `and_list`, so line 34 raises `AttributeError` after both imports and `handle_review` never reaches line 86; line 213 shows the intended call, `Namespace(and_list=False)`. The model describes the round as intended, after an import that returns.
- Review.ReviewRound: the "l" answer gives the outcome `ListCategories`; what `handle_list_categories` prints is not modelled, only its numbering (`ListingAgrees`).
- The rule-suggestion prints at `__main__.py` lines 140-152, the rule engine (`apply_rules`, `add_rule`), and the `Rule`, `Budget` and `Merchant` tables: no source defines their behaviour.
- A commit failure is the boolean `commitSucceeds`; logging is left out; there is no concurrency.
- Review.FlattenSubcategories, Selection.ParseSelection: the loop bodies are split into helper methods (`FlattenInOrder`, `AppendAll`, `ParsePart`) with contracts of their own.
