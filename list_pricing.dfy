/**
 * `getPricesForShoppingList`: the JavaScript that turns the rows of the
 * shopping-list price query into per-store quotes (`byStore`) and the best
 * distribution of the list over stores (`bestPrice`).
 *
 * The query rows are an input, in whatever order the query produced them.
 * The specification functions below say, row by row, what each quote and the
 * distribution contain; the method `GetPricesForShoppingList` performs the
 * source's loops and is proved to compute them; the lemmas at the end state
 * what the result means.
 */
module ListPricing {
  import opened Wrappers
  import Sorting
  import opened Ids
  import opened PriceSelection

  /** A row of `shopping_list_items`, reduced to what the aggregation reads. */
  datatype ListItem = ListItem(productId: ProductId, quantity: int)

  /** The `nearby_stores` columns carried into a quote; `distance` is opaque. */
  datatype StoreInfo = StoreInfo(
    storeName: string,
    storeLogo: string,
    address: string,
    city: string,
    state: string,
    distance: real)

  /** A row of the price query: a latest price joined with its product name and its nearby store. */
  datatype PriceRow = PriceRow(
    productId: ProductId,
    storeLocationId: StoreLocationId,
    price: Cents,
    salePrice: Option<Cents>,
    productName: string,
    store: StoreInfo)

  datatype StoreItem = StoreItem(
    productId: ProductId,
    productName: string,
    price: Cents,
    salePrice: Option<Cents>,
    quantity: int,
    totalPrice: int)

  datatype MissingItem = MissingItem(productId: ProductId, quantity: int)

  /** An entry of `pricesByStore`. */
  datatype StoreQuote = StoreQuote(
    storeLocationId: StoreLocationId,
    store: StoreInfo,
    items: seq<StoreItem>,
    totalPrice: int,
    missingItems: seq<MissingItem>)

  /** An entry of `productPrices`: the best price seen so far and where. */
  datatype BestPick = BestPick(price: Cents, storeLocationId: StoreLocationId)

  datatype BestItem = BestItem(
    productId: ProductId,
    productName: string,
    price: Cents,
    quantity: int,
    totalPrice: int,
    storeLocationId: StoreLocationId,
    storeName: string)

  datatype BestStore = BestStore(storeLocationId: StoreLocationId, store: StoreInfo)

  /** `bestDistribution`, and also the shape returned for an empty list. */
  datatype Distribution = Distribution(items: seq<BestItem>, stores: seq<BestStore>, totalPrice: int)

  /**
   * The two shapes the function returns: `{items: [], stores: [], totalPrice: 0}`
   * for a list without items, `{byStore, bestPrice}` otherwise.
   */
  datatype ListPrices =
    | EmptyList(result: Distribution)
    | Priced(byStore: seq<StoreQuote>, bestPrice: Distribution)

  // ---------------------------------------------------------------------------
  // Specification

  /** `listItems.find(item => item.productId === productId)`, its quantity, or 1 when there is none. */
  function Quantity(listItems: seq<ListItem>, productId: ProductId): int
  {
    if listItems == [] then 1
    else if listItems[0].productId == productId then listItems[0].quantity
    else Quantity(listItems[1..], productId)
  }

  /** `listItems.map(item => item.productId)` */
  function ProductIds(listItems: seq<ListItem>): (ps: seq<ProductId>)
    ensures |ps| == |listItems| && forall k :: 0 <= k < |ps| ==> ps[k] == listItems[k].productId
  {
    seq(|listItems|, k requires 0 <= k < |listItems| => listItems[k].productId)
  }

  /** `price.salePrice || price.price` */
  function RowPrice(row: PriceRow): Cents
  {
    TruthyPrice(row.price, row.salePrice)
  }

  /** The item a row adds to its store's quote. */
  function ItemOf(listItems: seq<ListItem>, row: PriceRow): StoreItem
  {
    var quantity := Quantity(listItems, row.productId);
    StoreItem(row.productId, row.productName, RowPrice(row), row.salePrice, quantity, RowPrice(row) * quantity)
  }

  /** Some of the first `n` rows is at store location `s`. */
  predicate AtStore(rows: seq<PriceRow>, n: nat, s: StoreLocationId)
    requires n <= |rows|
  {
    exists k :: 0 <= k < n && rows[k].storeLocationId == s
  }

  /** Some of the first `n` rows prices product `p` at store location `s`. */
  predicate Offers(rows: seq<PriceRow>, n: nat, s: StoreLocationId, p: ProductId)
    requires n <= |rows|
  {
    exists k :: 0 <= k < n && rows[k].storeLocationId == s && rows[k].productId == p
  }

  /** Some of the first `n` rows prices product `p`. */
  predicate HasPrice(rows: seq<PriceRow>, n: nat, p: ProductId)
    requires n <= |rows|
  {
    exists k :: 0 <= k < n && rows[k].productId == p
  }

  /** The store columns of the first of the first `n` rows at `s` (the row that created its quote). */
  function InfoUpTo(rows: seq<PriceRow>, n: nat, s: StoreLocationId): Option<StoreInfo>
    requires n <= |rows|
  {
    if n == 0 then None
    else
      var first := InfoUpTo(rows, n - 1, s);
      if first.Some? then first
      else if rows[n - 1].storeLocationId == s then Some(rows[n - 1].store)
      else None
  }

  /** The keys of `pricesByStore` in insertion order: the store locations in order of first appearance. */
  function StoreOrderUpTo(rows: seq<PriceRow>, n: nat): seq<StoreLocationId>
    requires n <= |rows|
  {
    if n == 0 then []
    else
      var order := StoreOrderUpTo(rows, n - 1);
      if rows[n - 1].storeLocationId in order then order else order + [rows[n - 1].storeLocationId]
  }

  /** The items of store location `s` after `n` rows: one per row at `s`, in row order. */
  function StoreItemsUpTo(listItems: seq<ListItem>, rows: seq<PriceRow>, n: nat, s: StoreLocationId): seq<StoreItem>
    requires n <= |rows|
  {
    if n == 0 then []
    else
      StoreItemsUpTo(listItems, rows, n - 1, s)
        + (if rows[n - 1].storeLocationId == s then [ItemOf(listItems, rows[n - 1])] else [])
  }

  function Sum(items: seq<StoreItem>): int
  {
    if items == [] then 0 else Sum(items[..|items| - 1]) + items[|items| - 1].totalPrice
  }

  /** `items.find(item => item.productId === productId)` finds something. */
  predicate HasItem(items: seq<StoreItem>, p: ProductId)
  {
    exists k :: 0 <= k < |items| && items[k].productId == p
  }

  /** `items.find(item => item.productId === productId)` */
  function FirstItem(items: seq<StoreItem>, p: ProductId): (it: StoreItem)
    requires HasItem(items, p)
    ensures it in items && it.productId == p
  {
    if items[0].productId == p then items[0] else FirstItem(items[1..], p)
  }

  /** The missing items a store gets from the first `k` list products. */
  function MissingUpTo(productIds: seq<ProductId>, k: nat, listItems: seq<ListItem>, items: seq<StoreItem>)
    : seq<MissingItem>
    requires k <= |productIds|
  {
    if k == 0 then []
    else
      MissingUpTo(productIds, k - 1, listItems, items)
        + (if HasItem(items, productIds[k - 1]) then []
           else [MissingItem(productIds[k - 1], Quantity(listItems, productIds[k - 1]))])
  }

  /** The best price per product after `n` rows: a strictly cheaper row replaces the pick. */
  function PicksUpTo(rows: seq<PriceRow>, n: nat): map<ProductId, BestPick>
    requires n <= |rows|
  {
    if n == 0 then map[]
    else
      var picks := PicksUpTo(rows, n - 1);
      var row := rows[n - 1];
      if row.productId !in picks || RowPrice(row) < picks[row.productId].price
      then picks[row.productId := BestPick(RowPrice(row), row.storeLocationId)]
      else picks
  }

  function Picks(rows: seq<PriceRow>): map<ProductId, BestPick>
  {
    PicksUpTo(rows, |rows|)
  }

  function StoreItems(listItems: seq<ListItem>, rows: seq<PriceRow>, s: StoreLocationId): seq<StoreItem>
  {
    StoreItemsUpTo(listItems, rows, |rows|, s)
  }

  function Info(rows: seq<PriceRow>, s: StoreLocationId): Option<StoreInfo>
  {
    InfoUpTo(rows, |rows|, s)
  }

  /** The complete quote of a store location that has at least one row. */
  function QuoteFor(listItems: seq<ListItem>, rows: seq<PriceRow>, s: StoreLocationId): StoreQuote
    requires Info(rows, s).Some?
  {
    var items := StoreItems(listItems, rows, s);
    StoreQuote(s, Info(rows, s).value, items, Sum(items),
               MissingUpTo(ProductIds(listItems), |listItems|, listItems, items))
  }

  /** `Object.values(pricesByStore)` */
  function Quotes(listItems: seq<ListItem>, rows: seq<PriceRow>, order: seq<StoreLocationId>): (qs: seq<StoreQuote>)
    requires forall s :: s in order ==> Info(rows, s).Some?
    ensures |qs| == |order| && forall k :: 0 <= k < |qs| ==> qs[k] == QuoteFor(listItems, rows, order[k])
  {
    if order == [] then [] else [QuoteFor(listItems, rows, order[0])] + Quotes(listItems, rows, order[1..])
  }

  /** The comparator `(a, b) => a.totalPrice - b.totalPrice`, as an order. */
  function TotalLe(a: StoreQuote, b: StoreQuote): bool
  {
    a.totalPrice <= b.totalPrice
  }

  lemma TotalLeIsTotalPreorder()
    ensures Sorting.IsTotalPreorder(TotalLe)
  {
  }

  /** `Object.values(pricesByStore)` once every quote is complete: in order of first appearance. */
  function StoreQuotes(listItems: seq<ListItem>, rows: seq<PriceRow>): seq<StoreQuote>
  {
    StoreOrderInfo(rows);
    Quotes(listItems, rows, StoreOrderUpTo(rows, |rows|))
  }

  /** `byStore`: every quote, sorted by total (stably). */
  function ByStore(listItems: seq<ListItem>, rows: seq<PriceRow>): (r: seq<StoreQuote>)
    ensures Sorting.Sorted(r, TotalLe)
  {
    TotalLeIsTotalPreorder();
    Sorting.SortBy(StoreQuotes(listItems, rows), TotalLe)
  }

  /** The entry of `bestDistribution.items` for a product that has a price. */
  function BestItemFor(listItems: seq<ListItem>, rows: seq<PriceRow>, p: ProductId): (b: BestItem)
    requires p in Picks(rows)
    ensures b.productId == p && b.storeLocationId == Picks(rows)[p].storeLocationId
    ensures Info(rows, b.storeLocationId).Some?
  {
    var pick := Picks(rows)[p];
    PickHasItem(listItems, rows, p);
    var item := FirstItem(StoreItems(listItems, rows, pick.storeLocationId), p);
    BestItem(p, item.productName, pick.price, item.quantity, pick.price * item.quantity,
             pick.storeLocationId, Info(rows, pick.storeLocationId).value.storeName)
  }

  /** `bestDistribution.items` after the first `k` list products. */
  function BestItemsUpTo(productIds: seq<ProductId>, k: nat, listItems: seq<ListItem>, rows: seq<PriceRow>)
    : (bs: seq<BestItem>)
    requires k <= |productIds|
    ensures forall j :: 0 <= j < |bs| ==> Info(rows, bs[j].storeLocationId).Some?
  {
    if k == 0 then []
    else
      BestItemsUpTo(productIds, k - 1, listItems, rows)
        + (if productIds[k - 1] in Picks(rows) then [BestItemFor(listItems, rows, productIds[k - 1])] else [])
  }

  /** `bestDistribution.stores.find(s => s.storeLocationId === id)` finds something. */
  predicate HasStore(stores: seq<BestStore>, s: StoreLocationId)
  {
    exists k :: 0 <= k < |stores| && stores[k].storeLocationId == s
  }

  /** `bestDistribution.stores`: the stores of the best items, each added at its first use. */
  function BestStoresOf(items: seq<BestItem>, rows: seq<PriceRow>): seq<BestStore>
    requires forall j :: 0 <= j < |items| ==> Info(rows, items[j].storeLocationId).Some?
  {
    if items == [] then []
    else
      var stores := BestStoresOf(items[..|items| - 1], rows);
      var s := items[|items| - 1].storeLocationId;
      if HasStore(stores, s) then stores else stores + [BestStore(s, Info(rows, s).value)]
  }

  /** The sum of `price * quantity` over the best items. */
  function BestTotal(items: seq<BestItem>): int
  {
    if items == [] then 0
    else BestTotal(items[..|items| - 1]) + items[|items| - 1].price * items[|items| - 1].quantity
  }

  function BestItems(listItems: seq<ListItem>, rows: seq<PriceRow>): seq<BestItem>
  {
    BestItemsUpTo(ProductIds(listItems), |listItems|, listItems, rows)
  }

  /** What `getPricesForShoppingList` returns for the list's items and the query's rows. */
  function PricesFor(listItems: seq<ListItem>, rows: seq<PriceRow>): ListPrices
  {
    if listItems == [] then EmptyList(Distribution([], [], 0))
    else
      var items := BestItems(listItems, rows);
      Priced(ByStore(listItems, rows), Distribution(items, BestStoresOf(items, rows), BestTotal(items)))
  }

  // ---------------------------------------------------------------------------
  // Facts the definitions rely on

  lemma {:induction false} StoreOrderSpec(rows: seq<PriceRow>, n: nat)
    requires n <= |rows|
    ensures forall s :: s in StoreOrderUpTo(rows, n) <==> InfoUpTo(rows, n, s).Some?
    ensures forall s :: InfoUpTo(rows, n, s).Some? <==> AtStore(rows, n, s)
    ensures forall i, j :: 0 <= i < j < |StoreOrderUpTo(rows, n)| ==> StoreOrderUpTo(rows, n)[i] != StoreOrderUpTo(rows, n)[j]
  {
    if n > 0 {
      StoreOrderSpec(rows, n - 1);
      forall s ensures InfoUpTo(rows, n, s).Some? <==> AtStore(rows, n, s) {
        if AtStore(rows, n, s) && !AtStore(rows, n - 1, s) {
          assert rows[n - 1].storeLocationId == s;
        }
      }
    }
  }

  lemma {:induction false} StoreOrderHas(rows: seq<PriceRow>, n: nat, s: StoreLocationId)
    requires n <= |rows|
    ensures s in StoreOrderUpTo(rows, n) <==> InfoUpTo(rows, n, s).Some?
  {
    if n > 0 {
      StoreOrderHas(rows, n - 1, s);
    }
  }

  lemma StoreOrderInfo(rows: seq<PriceRow>)
    ensures forall s :: s in StoreOrderUpTo(rows, |rows|) ==> Info(rows, s).Some?
  {
    forall s | s in StoreOrderUpTo(rows, |rows|) ensures Info(rows, s).Some? {
      StoreOrderHas(rows, |rows|, s);
    }
  }

  /** A row's store location has store columns once that row has been read. */
  lemma {:induction false} RowHasInfo(rows: seq<PriceRow>, n: nat, k: nat)
    requires k < n <= |rows|
    ensures InfoUpTo(rows, n, rows[k].storeLocationId).Some?
  {
    if k < n - 1 {
      RowHasInfo(rows, n - 1, k);
    }
  }

  /** The best store of a product has store columns and an item for that product. */
  lemma PickHasItem(listItems: seq<ListItem>, rows: seq<PriceRow>, p: ProductId)
    requires p in Picks(rows)
    ensures Info(rows, Picks(rows)[p].storeLocationId).Some?
    ensures HasItem(StoreItems(listItems, rows, Picks(rows)[p].storeLocationId), p)
  {
    var pick := Picks(rows)[p];
    PicksOrigin(rows, |rows|);
    var k :| 0 <= k < |rows| && PickedAt(rows, k, p, pick);
    RowHasInfo(rows, |rows|, k);
    StoreItemsSpec(listItems, rows, |rows|, pick.storeLocationId);
    assert Offers(rows, |rows|, pick.storeLocationId, p);
  }

  /** `it` is the item that one of the first `n` rows adds at store location `s`. */
  predicate ItemFromRow(listItems: seq<ListItem>, rows: seq<PriceRow>, n: nat, s: StoreLocationId, it: StoreItem)
    requires n <= |rows|
  {
    exists j :: 0 <= j < n && rows[j].storeLocationId == s && it == ItemOf(listItems, rows[j])
  }

  lemma {:induction false} StoreItemsSpec(listItems: seq<ListItem>, rows: seq<PriceRow>, n: nat, s: StoreLocationId)
    requires n <= |rows|
    ensures forall p :: HasItem(StoreItemsUpTo(listItems, rows, n, s), p) <==> Offers(rows, n, s, p)
    ensures forall it :: it in StoreItemsUpTo(listItems, rows, n, s) ==> ItemFromRow(listItems, rows, n, s, it)
  {
    if n > 0 {
      StoreItemsSpec(listItems, rows, n - 1, s);
      var prev := StoreItemsUpTo(listItems, rows, n - 1, s);
      var items := StoreItemsUpTo(listItems, rows, n, s);
      forall p ensures HasItem(items, p) <==> Offers(rows, n, s, p) {
        if HasItem(items, p) {
          var k :| 0 <= k < |items| && items[k].productId == p;
          if k < |prev| {
            assert items[k] == prev[k];
            assert HasItem(prev, p);
            var j :| 0 <= j < n - 1 && rows[j].storeLocationId == s && rows[j].productId == p;
          } else {
            assert rows[n - 1].storeLocationId == s && items[k] == ItemOf(listItems, rows[n - 1]);
          }
        }
        if Offers(rows, n, s, p) {
          if !Offers(rows, n - 1, s, p) {
            assert rows[n - 1].storeLocationId == s && rows[n - 1].productId == p;
            assert items[|prev|].productId == p;
          } else {
            var k :| 0 <= k < |prev| && prev[k].productId == p;
            assert items[k] == prev[k];
          }
        }
      }
      forall it | it in items ensures ItemFromRow(listItems, rows, n, s, it) {
        if it in prev {
          var j :| 0 <= j < n - 1 && rows[j].storeLocationId == s && it == ItemOf(listItems, rows[j]);
        } else {
          assert rows[n - 1].storeLocationId == s && it == ItemOf(listItems, rows[n - 1]);
        }
      }
    }
  }

  /** `productPrices` after `n` rows has an entry exactly for the products some row prices. */
  lemma {:induction false} PicksDomain(rows: seq<PriceRow>, n: nat)
    requires n <= |rows|
    ensures forall p :: p in PicksUpTo(rows, n) <==> HasPrice(rows, n, p)
  {
    if n > 0 {
      PicksDomain(rows, n - 1);
      forall p ensures p in PicksUpTo(rows, n) <==> HasPrice(rows, n, p) {
        if HasPrice(rows, n, p) && !HasPrice(rows, n - 1, p) {
          assert rows[n - 1].productId == p;
        }
      }
    }
  }

  /** Row `k` is where the pick `b` of product `p` comes from, and no earlier row of `p` is as cheap. */
  predicate PickedAt(rows: seq<PriceRow>, k: nat, p: ProductId, b: BestPick)
    requires k < |rows|
  {
    && rows[k].productId == p
    && rows[k].storeLocationId == b.storeLocationId
    && RowPrice(rows[k]) == b.price
    && forall j :: 0 <= j < k && rows[j].productId == p ==> b.price < RowPrice(rows[j])
  }

  /** Every pick is the price and store of the first of the cheapest rows of its product. */
  lemma {:induction false} PicksOrigin(rows: seq<PriceRow>, n: nat)
    requires n <= |rows|
    ensures forall p :: p in PicksUpTo(rows, n) ==>
      exists k :: 0 <= k < n && PickedAt(rows, k, p, PicksUpTo(rows, n)[p])
  {
    if n > 0 {
      PicksOrigin(rows, n - 1);
      PicksDomain(rows, n - 1);
      var prev := PicksUpTo(rows, n - 1);
      var picks := PicksUpTo(rows, n);
      var row := rows[n - 1];
      forall p | p in picks ensures exists k :: 0 <= k < n && PickedAt(rows, k, p, picks[p]) {
        if p == row.productId && (p !in prev || RowPrice(row) < prev[p].price) {
          if p in prev {
            var k :| 0 <= k < n - 1 && PickedAt(rows, k, p, prev[p]);
            PicksBound(rows, n - 1);
          }
          assert PickedAt(rows, n - 1, p, picks[p]);
        } else {
          var k :| 0 <= k < n - 1 && PickedAt(rows, k, p, prev[p]);
          assert PickedAt(rows, k, p, picks[p]);
        }
      }
    }
  }

  /** Every pick is at most the price of every row of its product. */
  lemma {:induction false} PicksBound(rows: seq<PriceRow>, n: nat)
    requires n <= |rows|
    ensures forall p, j :: p in PicksUpTo(rows, n) && 0 <= j < n && rows[j].productId == p ==>
      PicksUpTo(rows, n)[p].price <= RowPrice(rows[j])
  {
    if n > 0 {
      PicksBound(rows, n - 1);
      PicksDomain(rows, n - 1);
    }
  }

  /** The three facts about `productPrices` together. */
  lemma PicksSpec(rows: seq<PriceRow>, n: nat)
    requires n <= |rows|
    ensures forall p :: p in PicksUpTo(rows, n) <==> HasPrice(rows, n, p)
    ensures forall p :: p in PicksUpTo(rows, n) ==>
      exists k :: 0 <= k < n && PickedAt(rows, k, p, PicksUpTo(rows, n)[p])
    ensures forall p, j :: p in PicksUpTo(rows, n) && 0 <= j < n && rows[j].productId == p ==>
      PicksUpTo(rows, n)[p].price <= RowPrice(rows[j])
  {
    PicksDomain(rows, n);
    PicksOrigin(rows, n);
    PicksBound(rows, n);
  }

  lemma SumAppend(items: seq<StoreItem>, x: StoreItem)
    ensures Sum(items + [x]) == Sum(items) + x.totalPrice
  {
    assert (items + [x])[..|items|] == items;
  }

  lemma BestTotalAppend(items: seq<BestItem>, x: BestItem)
    ensures BestTotal(items + [x]) == BestTotal(items) + x.price * x.quantity
  {
    assert (items + [x])[..|items|] == items;
  }

  /** `Object.values(pricesByStore)`, read in key insertion order. */
  function ValuesInOrder(order: seq<StoreLocationId>, byId: map<StoreLocationId, StoreQuote>): (qs: seq<StoreQuote>)
    requires forall s :: s in order ==> s in byId
    ensures |qs| == |order| && forall k :: 0 <= k < |qs| ==> qs[k] == byId[order[k]]
  {
    if order == [] then [] else [byId[order[0]]] + ValuesInOrder(order[1..], byId)
  }

  // ---------------------------------------------------------------------------
  // The aggregation, loop by loop

  /** The quote of store location `s` after `n` rows, before missing items are added. */
  function PartialQuote(listItems: seq<ListItem>, rows: seq<PriceRow>, n: nat, s: StoreLocationId): StoreQuote
    requires n <= |rows| && InfoUpTo(rows, n, s).Some?
  {
    var items := StoreItemsUpTo(listItems, rows, n, s);
    StoreQuote(s, InfoUpTo(rows, n, s).value, items, Sum(items), [])
  }

  /** The pushed quote of one row, given the quote it is pushed onto. */
  function Pushed(listItems: seq<ListItem>, row: PriceRow, base: StoreQuote): StoreQuote
  {
    var item := ItemOf(listItems, row);
    base.(items := base.items + [item], totalPrice := base.totalPrice + item.totalPrice)
  }

  /** `pricesByStore` after `n` rows, built row by row as the first `forEach` does. */
  ghost function GroupedUpTo(listItems: seq<ListItem>, rows: seq<PriceRow>, n: nat): map<StoreLocationId, StoreQuote>
    requires n <= |rows|
  {
    if n == 0 then map[]
    else
      var grouped := GroupedUpTo(listItems, rows, n - 1);
      var row := rows[n - 1];
      var created := if row.storeLocationId in grouped then grouped
                     else grouped[row.storeLocationId := StoreQuote(row.storeLocationId, row.store, [], 0, [])];
      created[row.storeLocationId := Pushed(listItems, row, created[row.storeLocationId])]
  }

  lemma {:induction false} NoInfoNoItems(listItems: seq<ListItem>, rows: seq<PriceRow>, n: nat, s: StoreLocationId)
    requires n <= |rows| && InfoUpTo(rows, n, s).None?
    ensures StoreItemsUpTo(listItems, rows, n, s) == []
  {
    if n > 0 {
      NoInfoNoItems(listItems, rows, n - 1, s);
    }
  }

  /** After `n` rows, `pricesByStore` holds the partial quote of exactly the store locations seen. */
  ghost predicate GroupedAt(listItems: seq<ListItem>, rows: seq<PriceRow>, n: nat, s: StoreLocationId)
    requires n <= |rows|
  {
    && (s in GroupedUpTo(listItems, rows, n) <==> InfoUpTo(rows, n, s).Some?)
    && (s in GroupedUpTo(listItems, rows, n) ==> GroupedUpTo(listItems, rows, n)[s] == PartialQuote(listItems, rows, n, s))
  }

  lemma {:induction false} GroupedSpec(listItems: seq<ListItem>, rows: seq<PriceRow>, n: nat, s: StoreLocationId)
    requires n <= |rows|
    ensures s in GroupedUpTo(listItems, rows, n) <==> InfoUpTo(rows, n, s).Some?
    ensures s in GroupedUpTo(listItems, rows, n) ==> GroupedUpTo(listItems, rows, n)[s] == PartialQuote(listItems, rows, n, s)
  {
    if n > 0 {
      GroupedSpec(listItems, rows, n - 1, s);
      if rows[n - 1].storeLocationId == s {
        GroupedRowAt(listItems, rows, n, s);
      } else {
        GroupedRowElsewhere(listItems, rows, n, s);
      }
    }
  }

  /** A row at `s` pushes its item onto the quote of `s`, created from the row when `s` is new. */
  lemma GroupedRowAt(listItems: seq<ListItem>, rows: seq<PriceRow>, n: nat, s: StoreLocationId)
    requires 0 < n <= |rows| && rows[n - 1].storeLocationId == s && GroupedAt(listItems, rows, n - 1, s)
    ensures GroupedAt(listItems, rows, n, s)
  {
    var item := ItemOf(listItems, rows[n - 1]);
    var prev := StoreItemsUpTo(listItems, rows, n - 1, s);
    SumAppend(prev, item);
    assert StoreItemsUpTo(listItems, rows, n, s) == prev + [item];
    var base := if InfoUpTo(rows, n - 1, s).Some? then PartialQuote(listItems, rows, n - 1, s)
                else StoreQuote(s, rows[n - 1].store, [], 0, []);
    assert GroupedUpTo(listItems, rows, n)[s] == Pushed(listItems, rows[n - 1], base);
    if InfoUpTo(rows, n - 1, s).None? {
      NoInfoNoItems(listItems, rows, n - 1, s);
      assert prev + [item] == [item];
      assert InfoUpTo(rows, n, s) == Some(rows[n - 1].store);
    } else {
      assert InfoUpTo(rows, n, s) == InfoUpTo(rows, n - 1, s);
    }
    assert Pushed(listItems, rows[n - 1], base) == PartialQuote(listItems, rows, n, s);
  }

  /** A row at another store location leaves the quote of `s` as it was. */
  lemma GroupedRowElsewhere(listItems: seq<ListItem>, rows: seq<PriceRow>, n: nat, s: StoreLocationId)
    requires 0 < n <= |rows| && rows[n - 1].storeLocationId != s && GroupedAt(listItems, rows, n - 1, s)
    ensures GroupedAt(listItems, rows, n, s)
  {
    assert StoreItemsUpTo(listItems, rows, n, s) == StoreItemsUpTo(listItems, rows, n - 1, s);
  }

  lemma GroupedAll(listItems: seq<ListItem>, rows: seq<PriceRow>)
    ensures forall s :: s in GroupedUpTo(listItems, rows, |rows|) <==> Info(rows, s).Some?
    ensures forall s :: s in GroupedUpTo(listItems, rows, |rows|) ==>
      GroupedUpTo(listItems, rows, |rows|)[s] == QuoteFor(listItems, rows, s).(missingItems := [])
  {
    forall s ensures s in GroupedUpTo(listItems, rows, |rows|) <==> Info(rows, s).Some? {
      GroupedSpec(listItems, rows, |rows|, s);
    }
    forall s | s in GroupedUpTo(listItems, rows, |rows|)
      ensures GroupedUpTo(listItems, rows, |rows|)[s] == QuoteFor(listItems, rows, s).(missingItems := [])
    {
      GroupedSpec(listItems, rows, |rows|, s);
    }
  }

  /** After any number of rows, `pricesByStore` and the key order hold the same store locations. */
  lemma GroupedKeys(listItems: seq<ListItem>, rows: seq<PriceRow>, n: nat, s: StoreLocationId)
    requires n <= |rows|
    ensures s in StoreOrderUpTo(rows, n) <==> s in GroupedUpTo(listItems, rows, n)
  {
    GroupedSpec(listItems, rows, n, s);
    StoreOrderHas(rows, n, s);
  }

  /** What the first `forEach` leaves, stated on the row-by-row definitions. */
  lemma GroupedFinal(listItems: seq<ListItem>, rows: seq<PriceRow>)
    ensures var storeKeys, grouped := StoreOrderUpTo(rows, |rows|), GroupedUpTo(listItems, rows, |rows|);
      && (forall a, b :: 0 <= a < b < |storeKeys| ==> storeKeys[a] != storeKeys[b])
      && (forall s :: s in grouped <==> s in storeKeys)
      && (forall s :: s in grouped <==> Info(rows, s).Some?)
      && (forall s :: s in grouped ==> grouped[s] == QuoteFor(listItems, rows, s).(missingItems := []))
  {
    GroupedAll(listItems, rows);
    StoreOrderSpec(rows, |rows|);
  }

  /** The first `forEach` over the rows: `pricesByStore` without missing items, and `productPrices`. */
  method GroupByStore(listItems: seq<ListItem>, rows: seq<PriceRow>)
    returns (pricesByStore: map<StoreLocationId, StoreQuote>, storeKeys: seq<StoreLocationId>,
             productPrices: map<ProductId, BestPick>)
    ensures storeKeys == StoreOrderUpTo(rows, |rows|)
    ensures forall a, b :: 0 <= a < b < |storeKeys| ==> storeKeys[a] != storeKeys[b]
    ensures forall s :: s in pricesByStore <==> s in storeKeys
    ensures forall s :: s in pricesByStore <==> Info(rows, s).Some?
    ensures forall s :: s in pricesByStore ==> pricesByStore[s] == QuoteFor(listItems, rows, s).(missingItems := [])
    ensures productPrices == Picks(rows)
  {
    pricesByStore, storeKeys, productPrices := map[], [], map[];
    var i := 0;
    while i < |rows|
      invariant 0 <= i <= |rows|
      invariant storeKeys == StoreOrderUpTo(rows, i)
      invariant pricesByStore == GroupedUpTo(listItems, rows, i)
      invariant productPrices == PicksUpTo(rows, i)
    {
      var row := rows[i];
      var storeId := row.storeLocationId;
      var productId := row.productId;
      GroupedKeys(listItems, rows, i, storeId);
      if storeId !in pricesByStore {
        pricesByStore := pricesByStore[storeId := StoreQuote(storeId, row.store, [], 0, [])];
        storeKeys := storeKeys + [storeId];
      }
      ghost var created := pricesByStore;
      // Find the quantity from the shopping list
      var quantity := Quantity(listItems, productId);
      var effectivePrice := TruthyPrice(row.price, row.salePrice);
      var totalItemPrice := effectivePrice * quantity;
      var quote := pricesByStore[storeId];
      var item := StoreItem(productId, row.productName, effectivePrice, row.salePrice, quantity, totalItemPrice);
      assert item == ItemOf(listItems, row);
      pricesByStore := pricesByStore[storeId := quote.(items := quote.items + [item],
                                                      totalPrice := quote.totalPrice + totalItemPrice)];
      assert pricesByStore == created[storeId := Pushed(listItems, row, created[storeId])];
      // Track the best price of each product
      if productId !in productPrices || effectivePrice < productPrices[productId].price {
        productPrices := productPrices[productId := BestPick(effectivePrice, storeId)];
      }
      i := i + 1;
    }
    GroupedFinal(listItems, rows);
  }

  /** The inner `productIds.forEach` of the second loop: the missing items of one store. */
  method MissingFor(listItems: seq<ListItem>, items: seq<StoreItem>) returns (missing: seq<MissingItem>)
    ensures missing == MissingUpTo(ProductIds(listItems), |listItems|, listItems, items)
  {
    var productIds := ProductIds(listItems);
    missing := [];
    var k := 0;
    while k < |productIds|
      invariant 0 <= k <= |productIds|
      invariant missing == MissingUpTo(productIds, k, listItems, items)
    {
      var productId := productIds[k];
      if !HasItem(items, productId) {
        missing := missing + [MissingItem(productId, Quantity(listItems, productId))];
      }
      k := k + 1;
    }
  }

  /** The second `forEach`: each store's `missingItems`, one per list product it has no item for. */
  method AddMissingItems(listItems: seq<ListItem>, rows: seq<PriceRow>, storeKeys: seq<StoreLocationId>,
                         grouped: map<StoreLocationId, StoreQuote>)
    returns (pricesByStore: map<StoreLocationId, StoreQuote>)
    requires forall a, b :: 0 <= a < b < |storeKeys| ==> storeKeys[a] != storeKeys[b]
    requires forall s :: s in grouped <==> s in storeKeys
    requires forall s :: s in grouped ==> Info(rows, s).Some? && grouped[s] == QuoteFor(listItems, rows, s).(missingItems := [])
    ensures forall s :: s in pricesByStore <==> s in storeKeys
    ensures forall s :: s in pricesByStore ==> pricesByStore[s] == QuoteFor(listItems, rows, s)
  {
    pricesByStore := grouped;
    var j := 0;
    while j < |storeKeys|
      invariant 0 <= j <= |storeKeys|
      invariant pricesByStore.Keys == grouped.Keys
      invariant forall k :: 0 <= k < |storeKeys| ==>
        pricesByStore[storeKeys[k]] == if k < j then QuoteFor(listItems, rows, storeKeys[k]) else grouped[storeKeys[k]]
    {
      var storeId := storeKeys[j];
      var store := pricesByStore[storeId];
      ghost var quote := QuoteFor(listItems, rows, storeId);
      assert store == quote.(missingItems := []);
      // Missing items start empty, so pushing onto them yields exactly the missing list.
      var missing := MissingFor(listItems, store.items);
      assert store.(missingItems := missing) == quote;
      ghost var before := pricesByStore;
      pricesByStore := pricesByStore[storeId := store.(missingItems := missing)];
      forall k | 0 <= k < |storeKeys|
        ensures pricesByStore[storeKeys[k]]
             == if k < j + 1 then QuoteFor(listItems, rows, storeKeys[k]) else grouped[storeKeys[k]]
      {
        if k != j {
          assert storeKeys[k] != storeId;
          assert pricesByStore[storeKeys[k]] == before[storeKeys[k]];
        }
      }
      j := j + 1;
    }
    forall s | s in pricesByStore ensures pricesByStore[s] == QuoteFor(listItems, rows, s) {
      var k :| 0 <= k < |storeKeys| && storeKeys[k] == s;
    }
  }

  /** The best item of a product, read off the complete quote of its best store. */
  lemma BestItemFromQuote(listItems: seq<ListItem>, rows: seq<PriceRow>,
                          pricesByStore: map<StoreLocationId, StoreQuote>, p: ProductId)
    requires forall s :: s in pricesByStore <==> Info(rows, s).Some?
    requires forall s :: s in pricesByStore ==> pricesByStore[s] == QuoteFor(listItems, rows, s)
    requires p in Picks(rows)
    ensures var pick := Picks(rows)[p];
      && pick.storeLocationId in pricesByStore
      && var quote := pricesByStore[pick.storeLocationId];
      && HasItem(quote.items, p)
      && var item := FirstItem(quote.items, p);
      && quote.store == Info(rows, pick.storeLocationId).value
      && BestItem(p, item.productName, pick.price, item.quantity, pick.price * item.quantity,
                  pick.storeLocationId, quote.store.storeName) == BestItemFor(listItems, rows, p)
  {
    PickHasItem(listItems, rows, p);
  }

  /** The last `forEach`: every list product that has a price, bought at its best store. */
  method DistributeBest(listItems: seq<ListItem>, rows: seq<PriceRow>,
                        pricesByStore: map<StoreLocationId, StoreQuote>, productPrices: map<ProductId, BestPick>)
    returns (bestDistribution: Distribution)
    requires forall s :: s in pricesByStore <==> Info(rows, s).Some?
    requires forall s :: s in pricesByStore ==> pricesByStore[s] == QuoteFor(listItems, rows, s)
    requires productPrices == Picks(rows)
    ensures bestDistribution.items == BestItems(listItems, rows)
    ensures bestDistribution.stores == BestStoresOf(bestDistribution.items, rows)
    ensures bestDistribution.totalPrice == BestTotal(bestDistribution.items)
  {
    var productIds := ProductIds(listItems);
    var items: seq<BestItem> := [];
    var stores: seq<BestStore> := [];
    var totalPrice := 0;
    var k := 0;
    while k < |productIds|
      invariant 0 <= k <= |productIds|
      invariant items == BestItemsUpTo(productIds, k, listItems, rows)
      invariant stores == BestStoresOf(items, rows)
      invariant totalPrice == BestTotal(items)
    {
      var productId := productIds[k];
      if productId in productPrices {
        var bestPrice := productPrices[productId];
        BestItemFromQuote(listItems, rows, pricesByStore, productId);
        var storeInfo := pricesByStore[bestPrice.storeLocationId];
        var item := FirstItem(storeInfo.items, productId);
        var bestItem := BestItem(productId, item.productName, bestPrice.price, item.quantity,
                                 bestPrice.price * item.quantity, bestPrice.storeLocationId, storeInfo.store.storeName);
        assert bestItem == BestItemFor(listItems, rows, productId);
        var prevItems := items;
        items := items + [bestItem];
        assert items[..|items| - 1] == prevItems;
        // Add the store if it is not already in the list
        if !HasStore(stores, bestPrice.storeLocationId) {
          stores := stores + [BestStore(bestPrice.storeLocationId, storeInfo.store)];
        }
        BestTotalAppend(prevItems, bestItem);
        totalPrice := totalPrice + bestPrice.price * item.quantity;
      }
      k := k + 1;
    }
    assert productIds[..k] == productIds;
    bestDistribution := Distribution(items, stores, totalPrice);
  }

  /** `Object.values` of complete quotes, in key order, are the quotes of those keys. */
  lemma ValuesAreQuotes(listItems: seq<ListItem>, rows: seq<PriceRow>, order: seq<StoreLocationId>,
                        byId: map<StoreLocationId, StoreQuote>)
    requires forall s :: s in order ==> Info(rows, s).Some?
    requires forall s :: s in order ==> s in byId && byId[s] == QuoteFor(listItems, rows, s)
    ensures ValuesInOrder(order, byId) == Quotes(listItems, rows, order)
  {
    var vs, qs := ValuesInOrder(order, byId), Quotes(listItems, rows, order);
    forall k | 0 <= k < |order| ensures vs[k] == qs[k] {
      assert order[k] in order;
    }
  }

  /**
   * `getPricesForShoppingList` after its two queries: `listItems` are the
   * list's rows, `rows` the price query's rows.
   */
  method GetPricesForShoppingList(listItems: seq<ListItem>, rows: seq<PriceRow>) returns (result: ListPrices)
    ensures result == PricesFor(listItems, rows)
    ensures listItems == [] ==> result == EmptyList(Distribution([], [], 0))
  {
    if |listItems| == 0 {
      return EmptyList(Distribution([], [], 0));
    }
    var grouped, storeKeys, productPrices := GroupByStore(listItems, rows);
    var pricesByStore := AddMissingItems(listItems, rows, storeKeys, grouped);
    TotalLeIsTotalPreorder();
    var storesArray := Sorting.SortBy(ValuesInOrder(storeKeys, pricesByStore), TotalLe);
    StoreOrderInfo(rows);
    ValuesAreQuotes(listItems, rows, storeKeys, pricesByStore);
    var bestDistribution := DistributeBest(listItems, rows, pricesByStore, productPrices);
    return Priced(storesArray, bestDistribution);
  }
}
