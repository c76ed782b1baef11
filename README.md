# tote-app server core, modelled in Dafny

tote-app is a grocery price-comparison server. Its users keep shopping lists
of products. Users report product prices at store locations. The server
answers questions such as "where is my list cheapest?". This project models
the parts of the server's database layer that do more than pass SQL through,
and proves what they promise:

- **Price aggregation for a shopping list** (`getPricesForShoppingList`). Module
  `ListPricing` holds it and module `ListPricingProperties` its proofs.
  - The list's items and the rows of the price query are inputs.
  - The JavaScript loops are methods with loops: the grouping of the rows
    into per-store quotes, the pass that adds each store's missing items, and
    the code that builds the "best distribution", which buys each product at
    its cheapest store. The sort by total is the stable sort function
    `Sorting.SortBy`.
  - Each method is proved equal to a declarative specification. Lemmas state
    what that specification means.
- **Price selection** done by the SQL (module `PriceSelection`):
  - the latest record per (product, store location) pair;
  - `getLatestPricesForProduct`;
  - `getBestPriceForProduct`.
  - Both effective-price rules are modelled: `COALESCE(sale_price, price)` in
    SQL and `salePrice || price` in JavaScript.
- **Products** (module `Products`):
  - the field merge of `updateProduct` and its "Product not found" error;
  - the term guard of `searchProducts`, with the exact set of characters
    `String.prototype.trim` removes.
- **`toCamelCase`** (module `CamelCase`), the key rewrite repeated in every
  model file.
- **Shopping-list tables** (module `ShoppingLists`): the `shopping_lists` and
  `shopping_list_items` tables are maps in a class, and each statement is a
  method on them. `deleteShoppingList` runs in a transaction that either
  commits both deletes or rolls back to the state before it began.
- **The migration runner** (module `Migrate`): which `.sql` files run, in
  what order, which names are recorded, and where the first failure stops
  the run.

Ids are natural numbers. Prices are integer cents. A store location's
distance is an opaque `real`, and "in range" means `distance < radius`. JavaScript
`Array.prototype.sort` is stable, so module `Sorting` models it as a stable
insertion sort.

Two details of the code shape the model:

- **Ties among equally new prices.** `DISTINCT ON ... ORDER BY created_at DESC`
  leaves the choice among equally new rows of a pair to PostgreSQL. The model
  keeps the first such row in table order.
- **Effective price of a sale price of 0.** The code has two rules:
  `COALESCE(sale_price, price)` in SQL and `salePrice || price` in the
  JavaScript aggregation. They differ exactly for a sale price of 0
  (`PriceSelection.PriceRulesDisagreeOnlyOnZeroSale`).

## Model

| member | source | states |
|---|---|---|
| PriceSelection.PriceRulesDisagreeOnlyOnZeroSale | packages/server/src/db/models/prices.js:209 | `salePrice \|\| price` and `COALESCE(sale_price, price)` differ exactly when the sale price is 0 and the price is not |
| PriceSelection.LatestPricesSpec | packages/server/src/db/models/prices.js:155-161 | the `DISTINCT ON (product_id, store_location_id) ... created_at DESC` selection keeps exactly one row per pair that has a record, and that row has the pair's greatest `created_at` |
| PriceSelection.Candidates | packages/server/src/db/models/prices.js:113-115 | the rows kept are exactly those of the product at a joined store location whose distance is below the radius |
| PriceSelection.Cheapest | packages/server/src/db/models/prices.js:116-121 | `ORDER BY COALESCE(...) LIMIT 1`: nothing for no rows, otherwise a row of least effective price, and the first such row |
| PriceSelection.BestPriceForProduct | packages/server/src/db/models/prices.js:97-121 | `null` exactly when no latest price of the product is in range; otherwise a latest, in-range price of the product, no dearer than any other |
| PriceSelection.BestPriceIsNewest | packages/server/src/db/models/prices.js:107-112 | the best price is the newest record of its product at its store |
| PriceSelection.AtLocations | packages/server/src/db/models/prices.js:78-84 | the rows kept are exactly the product's latest records at a store location that joins a store |
| PriceSelection.CheaperOrEqualIsTotalPreorder | packages/server/src/db/models/prices.js:85 | `ORDER BY COALESCE(pp.sale_price, pp.price)` compares any two rows, transitively |
| PriceSelection.LatestPricesForProduct | packages/server/src/db/models/prices.js:73-89 | the product's latest price at every joined store location, and nothing else, sorted by `COALESCE(sale_price, price)`, with no store location twice |
| Sorting.SortBy | packages/server/src/db/models/prices.js:252-254 | `Array.prototype.sort` with a comparator: sorted, and a permutation of its input |
| Sorting.SortByStable | packages/server/src/db/models/prices.js:252-254 | the sort keeps equal elements in their input order |
| Sorting.SortByMembers | packages/server/src/db/models/prices.js:252-254 | the sorted array holds exactly the elements of its input |
| ListPricing.ByStore | packages/server/src/db/models/prices.js:252-254 | `byStore` is in non-decreasing order of `totalPrice` |
| ListPricing.BestItemFor | packages/server/src/db/models/prices.js:264-280 | a best item is for its product and at the store `productPrices` chose, and that store has a quote |
| ListPricing.StoreOrderHas | packages/server/src/db/models/prices.js:188-201 | a store gets a key in `pricesByStore` exactly when a row for it has been seen |
| ListPricing.StoreItemsSpec | packages/server/src/db/models/prices.js:204-221 | each item of a store is the item one of its rows adds, and the store has an item for a product exactly when it has a row for it |
| ListPricing.PicksSpec | packages/server/src/db/models/prices.js:224-232 | `productPrices` has an entry exactly for the products with a row; the entry is the price and store of such a row, no dearer than any row of the product, and the first cheapest |
| ListPricing.GroupedSpec | packages/server/src/db/models/prices.js:183-233 | after `n` rows, `pricesByStore` has a key for each store seen, and the quote holds that store's items so far, their sum and no missing items |
| ListPricing.GroupByStore | packages/server/src/db/models/prices.js:180-233 | the first loop yields, for every store with a row and no other, its items and total, with keys in first-appearance order and no key twice; it also yields `productPrices` |
| ListPricing.MissingFor | packages/server/src/db/models/prices.js:239-248 | the inner `productIds.forEach` yields the missing items of all list products, as `MissingUpTo` defines them and `MissingSpec` characterises |
| ListPricing.AddMissingItems | packages/server/src/db/models/prices.js:236-249 | the second loop completes every quote with its missing items and leaves the rest of it alone |
| ListPricing.DistributeBest | packages/server/src/db/models/prices.js:256-301 | the last loop yields the best items, their de-duplicated stores and their total as the specification defines them |
| ListPricing.GetPricesForShoppingList | packages/server/src/db/models/prices.js:129-311 | the method's result equals the specification `PricesFor`; an empty list gives `{items: [], stores: [], totalPrice: 0}` |
| ListPricingProperties.QuantityOfFirst | packages/server/src/db/models/prices.js:204-207 | a product's quantity is that of the first list item with that product |
| ListPricingProperties.QuantityOfAbsent | packages/server/src/db/models/prices.js:204-207 | a product no list item has gets quantity 1 |
| ListPricingProperties.StoreItemFacts | packages/server/src/db/models/prices.js:203-219 | a store item's `totalPrice` is `(salePrice \|\| price)` times the quantity of the first list item with that product |
| ListPricingProperties.MissingSpec | packages/server/src/db/models/prices.js:236-249 | `missingItems` are exactly the list products the store has no row for, each with its list quantity |
| ListPricingProperties.ItemsMissingPartition | packages/server/src/db/models/prices.js:236-249 | every list product is in exactly one of a quote's `items` and `missingItems` |
| ListPricingProperties.CompleteStore | packages/server/src/db/models/prices.js:236-249 | a quote has no missing items exactly when the store has a row for every list product |
| ListPricingProperties.ByStoreContents | packages/server/src/db/models/prices.js:252-254 | `byStore` holds the complete quote of every store that has a row, and nothing else |
| ListPricingProperties.ByStoreDistinct | packages/server/src/db/models/prices.js:188-201 | no store location appears twice in `byStore` |
| ListPricingProperties.ByStoreStable | packages/server/src/db/models/prices.js:252-254 | quotes with equal totals stay in the order their stores first appear in the rows |
| ListPricingProperties.BestItemForFacts | packages/server/src/db/models/prices.js:272-280 | a best item has its product's best price, its list quantity, and `price * quantity` as its total |
| ListPricingProperties.BestItemsSpec | packages/server/src/db/models/prices.js:264-281 | `bestPrice.items` has an entry for a list product exactly when it has a row, with the chosen price, store and store name; products without a row are omitted |
| ListPricingProperties.BestItemIsCheapest | packages/server/src/db/models/prices.js:224-232 | a best item's price is at most the effective price at every row of its product, and is the price of the first cheapest row |
| ListPricingProperties.BestStoresSpec | packages/server/src/db/models/prices.js:282-297 | `bestPrice.stores` has no duplicate `storeLocationId`, holds the store of every best item, and holds nothing else |
| ListPricingProperties.BestTotalIsPickSum | packages/server/src/db/models/prices.js:299 | `bestPrice.totalPrice` is the sum, over the priced list products, of best price times quantity |
| ListPricingProperties.BestNotAboveCompleteStore | packages/server/src/db/models/prices.js:256-301 | the best distribution costs no more than any store that carries the whole list (preconditions below) |
| ListPricingProperties.BestPriceNotAboveCompleteQuotes | packages/server/src/db/models/prices.js:303-306 | on the result, under the preconditions of `BestNotAboveCompleteStore`: `bestPrice.totalPrice` is at most the total of every quote in `byStore` without missing items |
| ListPricingProperties.DuplicateListProductCountedTwice | packages/server/src/db/models/prices.js:264-299 | a product listed twice is bought twice in `bestPrice` but priced once in a store's quote, so the bound needs distinct list products |
| CamelCase.ToUpper | packages/server/src/db/models/products.js:11 | `letter.toUpperCase()` makes an ASCII lowercase letter uppercase |
| CamelCase.CamelKey | packages/server/src/db/models/products.js:10-12 | the rewritten key is no longer than the key |
| CamelCase.CamelKeyHead | packages/server/src/db/models/products.js:10-12 | a key that does not start with `_` keeps its first character |
| CamelCase.CamelKeyHasNoSnakePair | packages/server/src/db/models/products.js:10-12 | no `_` followed by a lowercase letter is left in the output |
| CamelCase.CamelKeyFixesPlainKeys | packages/server/src/db/models/products.js:10-12 | a key without a `_[a-z]` pair is unchanged |
| CamelCase.CamelKeyIdempotent | packages/server/src/db/models/products.js:10-12 | rewriting a key twice equals rewriting it once |
| CamelCase.CamelKeyExamples | packages/server/src/db/models/products.js:10-12 | `a_b` becomes `aB`, `a__b` becomes `a_B`, and `a_` and `_1` are unchanged |
| CamelCase.LastWinsStep | packages/server/src/db/models/products.js:8-14 | one more assignment `newObj[newKey] = value` keeps every key assigned so far, each holding the value of its last assignment |
| CamelCase.ToCamelCase | packages/server/src/db/models/products.js:4-17 | `null` maps to `null`; otherwise every own key maps to its rewritten key with its value, and a later key wins a clash |
| Products.UpdateProduct | packages/server/src/db/models/products.js:105-145 | fails with "Product not found" exactly when no product has the id; otherwise the updated row is written back, and every other row and key is unchanged; what each field of that row holds is stated in `Products.UpdateFields` |
| Products.UpdateFields | packages/server/src/db/models/products.js:113-120 | each field takes the supplied value when truthy, and otherwise keeps the stored value |
| Products.FalsyUpdateChangesNothing | packages/server/src/db/models/products.js:113-120 | an update whose six values are all falsy leaves the table and the row unchanged |
| Products.EmptyUpdateChangesNothing | packages/server/src/db/models/products.js:113-120 | an empty `productData` leaves the table and the row unchanged |
| Products.MergeIdempotent | packages/server/src/db/models/products.js:113-120 | merging the same data twice equals merging it once |
| Products.UpdateIdempotent | packages/server/src/db/models/products.js:105-145 | applying the same update twice gives the same table and row as applying it once |
| Products.TrimStart | packages/server/src/db/models/products.js:77 | removes exactly the leading whitespace and line terminators |
| Products.TrimEnd | packages/server/src/db/models/products.js:77 | removes exactly the trailing whitespace and line terminators |
| Products.TrimSpec | packages/server/src/db/models/products.js:77 | `trim()` is a slice of the term; everything cut is trimmable, and its ends are not |
| Products.TrimCut | packages/server/src/db/models/products.js:77 | `trim()` cuts after the leading run `TrimStart` drops and before the trailing run `TrimEnd` drops, and the slice between is what is left |
| Products.TrimEmptyIffAllTrimmed | packages/server/src/db/models/products.js:77-78 | the trimmed term is empty exactly when every character is whitespace or a line terminator |
| Products.PlanSearch | packages/server/src/db/models/products.js:76-83 | no query for an empty or whitespace-only term; otherwise the pattern is `%` + trimmed term + `%` |
| Products.PlanSearchExamples | packages/server/src/db/models/products.js:76-83 | `""` and `" \t"` give no query; `" a "` gives the pattern `%a%` |
| ShoppingLists.QuantityOrDefault | packages/server/src/db/models/shopping_lists.js:127 | `quantity \|\| 1` is never 0 |
| ShoppingLists.NewItem | packages/server/src/db/models/shopping_lists.js:118-128 | the inserted row has the given ids and no `NULL` in quantity, notes or `is_checked` |
| ShoppingLists.NewItemDefaults | packages/server/src/db/models/shopping_lists.js:127 | a falsy quantity is stored as 1, falsy notes as `""` and a falsy `isChecked` as false; truthy values are stored as given |
| ShoppingLists.WithoutListItems | packages/server/src/db/models/shopping_lists.js:98-101 | the delete keeps only rows of other lists, unchanged |
| ShoppingLists.WithoutListItemsSpec | packages/server/src/db/models/shopping_lists.js:98-101 | every row of another list is kept, no row of the list remains, and deleting again changes nothing |
| ShoppingLists.Tables.CreateShoppingList | packages/server/src/db/models/shopping_lists.js:21-38 | inserts the row under a new id and changes nothing else |
| ShoppingLists.Tables.UpdateShoppingList | packages/server/src/db/models/shopping_lists.js:71-90 | changes only the name and description of an existing list; `null` and no change when there is none |
| ShoppingLists.Tables.DeleteShoppingList | packages/server/src/db/models/shopping_lists.js:93-115 | on commit, answers whether the list existed; the list row and every item of the list are gone, and all else is kept; a failing statement or commit leaves both tables as they were and rethrows that statement's error |
| ShoppingLists.Tables.AddItemToList | packages/server/src/db/models/shopping_lists.js:118-135 | inserts the defaulted row under a new id and changes nothing else |
| ShoppingLists.Tables.UpdateListItem | packages/server/src/db/models/shopping_lists.js:157-177 | overwrites exactly quantity, notes and `is_checked`, with no defaults; `null` and no change when there is no such item |
| ShoppingLists.Tables.RemoveListItem | packages/server/src/db/models/shopping_lists.js:180-192 | answers whether the item existed, and removes only that item |
| Migrate.SqlFiles | packages/server/src/db/migrate.js:61-63 | the names kept are exactly those ending in `.sql` |
| Migrate.LexLeTotal | packages/server/src/db/migrate.js:64 | any two names are comparable in the default sort order |
| Migrate.LexLeTransitive | packages/server/src/db/migrate.js:64 | the default sort order is transitive |
| Migrate.LexLeAntisymmetric | packages/server/src/db/migrate.js:64 | two names each no greater than the other are equal |
| Migrate.LexLeIsTotalPreorder | packages/server/src/db/migrate.js:64 | the default sort order is a total preorder, so the sort is well defined |
| Migrate.MigrationFiles | packages/server/src/db/migrate.js:61-64 | `migrationFiles` is sorted and holds exactly the `.sql` names of the directory |
| Migrate.PendingSpec | packages/server/src/db/migrate.js:67-68 | the files the loop would run are exactly the migration files not yet applied |
| Migrate.PendingSorted | packages/server/src/db/migrate.js:64-68 | skipping applied files keeps the ascending order |
| Migrate.PendingPrefix | packages/server/src/db/migrate.js:67-86 | the files pending among the first `n` are a prefix of all pending files |
| Migrate.RunMigration | packages/server/src/db/migrate.js:7-37 | `runMigration` sends nothing when the connection fails, and otherwise opens with `BEGIN` and closes with `COMMIT` or `ROLLBACK`; it answers true exactly when the last query is a `COMMIT`, and a `ROLLBACK` is sent exactly when it answers false after connecting |
| Migrate.RunMigrationSucceedsOnlyOnCommit | packages/server/src/db/migrate.js:11-36 | true after `COMMIT`; false after `ROLLBACK` or a failed connection |
| Migrate.RunMigrations | packages/server/src/db/migrate.js:59-86 | the recorded names are a prefix of the pending files, in order, each of whose run succeeded; the run stops at the first failure, which is the next pending file; a run with no failure records every pending file |
| Migrate.RecordedFiles | packages/server/src/db/migrate.js:61-86 | every recorded name is a `.sql` name of the directory that was not already applied, and the recorded names are in ascending order |
| Migrate.RecordedFilesDistinct | packages/server/src/db/migrate.js:61-86 | when the directory lists each name once, no name is recorded twice |

## Left out

- Distance: the Haversine formula in SQL is floating-point trigonometry. A
  store location's distance is an opaque input.
- The request layer: HTTP routing and the default radius of 10 that it and
  the functions' default parameters supply.
- The ORDER BY of the list price query (`product_id, effective_price`): the
  aggregation takes the rows in whatever order they arrive. Every property
  above holds for any order. Ties (the first cheapest row, the order of
  equal totals) refer to that order.
- PostgreSQL chooses freely among tied rows in `DISTINCT ON`, in
  `ORDER BY ... LIMIT 1`, and in the order of equally priced rows of
  `getLatestPricesForProduct` (`ORDER BY COALESCE(pp.sale_price, pp.price)`
  with no tie-breaker). The model takes the first row in table order, and
  keeps equally priced rows in table order.
- How the price query's rows relate to `product_prices`: the aggregation
  takes the joined rows as input. `ListPricingProperties.RowPairsDistinct`
  states the one-row-per-pair property that `DISTINCT ON` gives them, and the
  bound lemmas assume it.
- ListPricingProperties.BestNotAboveCompleteStore: the bound is proved only
  when the list names each product once and has non-negative quantities,
  the rows are one per (product, store), and the rows are for list products.
  The query guarantees the last two. `DuplicateListProductCountedTwice`
  shows the first is needed. Nothing in the source enforces the first two.
- ListPricingProperties.BestPriceNotAboveCompleteQuotes: the bound on the
  result holds under the same preconditions as
  `BestNotAboveCompleteStore`, for the same reasons.
- `toCamelCase` on rows: the aggregation reads rows that are already
  camel-cased. `CamelCase.ToCamelCase` models the rewrite itself.
- Store-location ids as object keys: JavaScript `Object.keys` and
  `Object.values` list integer-like keys first, in numeric order, and the
  others in insertion order. The model assumes store-location ids are not
  integer-like strings, so `pricesByStore` keeps first-appearance order.
  Only the product ids are declared as UUIDs in the source (`$1::uuid[]`);
  the type of `store_locations.id` is not in the modelled sources. The key
  order in `GroupByStore` and `ListPricingProperties.ByStoreStable` rests on
  this assumption.
- Numbers: no string-versus-number coercion from `pg` numeric columns, no
  floating point. Prices are integer cents. `null` list quantities from the
  database are not modelled.
- The default sort of migration names compares UTF-16 code units. The model
  compares Unicode code points, which agree on names without characters
  outside the Basic Multilingual Plane.
- Database plumbing: the pool, connections and `transaction`. A transaction
  is modelled as all-or-nothing. Which statement fails is an input.
- Timestamps (`NOW()`): `created_at`, `updated_at` and `applied_at` are not
  modelled. New ids come from counters in the class, not from the database.
- Foreign keys: the schema is not in the modelled sources. `AddItemToList`
  inserts whether or not the list exists, and deleting a list does not
  depend on a cascade.
- The `ILIKE` search query itself, the read-only `SELECT` functions, and the
  rest of the CRUD (`recordPrice`, `updatePrice`, `deletePrice`,
  `getPriceHistory`, `createProduct`, `deleteProduct` and the like). These
  are single SQL statements with no logic of their own.
- Migration I/O:
  - reading the directory and the files;
  - creating the `migrations` table;
  - the `INSERT` of each name;
  - console output;
  - `process.exit(1)` appears only as the `ExitedOnFailure` end of the run.
  A file that cannot be read throws out of `runMigration` and ends the run
  the same way a run that answers false does. The model counts it as a
  failing run.
- Console logging everywhere.
