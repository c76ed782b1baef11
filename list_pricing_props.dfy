/**
 * What the result of `getPricesForShoppingList` means: the contents of each
 * store quote, the order of `byStore`, the choice of best prices, and the
 * bound the best distribution keeps against any store that carries the whole
 * list.
 */
module ListPricingProperties {
  import opened Wrappers
  import Sorting
  import opened Ids
  import opened PriceSelection
  import opened ListPricing

  // ---------------------------------------------------------------------------
  // Store quotes

  /** A product's quantity is that of the first list item with the product. */
  lemma {:induction false} QuantityOfFirst(listItems: seq<ListItem>, p: ProductId, k: nat)
    requires k < |listItems| && listItems[k].productId == p
    requires forall j :: 0 <= j < k ==> listItems[j].productId != p
    ensures Quantity(listItems, p) == listItems[k].quantity
  {
    if k > 0 {
      assert listItems[0].productId != p;
      QuantityOfFirst(listItems[1..], p, k - 1);
    }
  }

  /** A product no list item has gets quantity 1. */
  lemma {:induction false} QuantityOfAbsent(listItems: seq<ListItem>, p: ProductId)
    requires forall k :: 0 <= k < |listItems| ==> listItems[k].productId != p
    ensures Quantity(listItems, p) == 1
  {
    if listItems != [] {
      assert listItems[0].productId != p;
      QuantityOfAbsent(listItems[1..], p);
    }
  }

  /** Every item of a store's quote comes from one of that store's rows, priced by `salePrice || price`. */
  lemma StoreItemFacts(listItems: seq<ListItem>, rows: seq<PriceRow>, s: StoreLocationId, it: StoreItem)
    requires it in StoreItems(listItems, rows, s)
    ensures exists j :: 0 <= j < |rows| && rows[j].storeLocationId == s && rows[j].productId == it.productId
                        && it.price == RowPrice(rows[j])
                        && it.productName == rows[j].productName && it.salePrice == rows[j].salePrice
    ensures it.quantity == Quantity(listItems, it.productId)
    ensures it.totalPrice == it.price * it.quantity
  {
    StoreItemsSpec(listItems, rows, |rows|, s);
    var j :| 0 <= j < |rows| && rows[j].storeLocationId == s && it == ItemOf(listItems, rows[j]);
  }

  /** The missing items after `k` list products: one per product the store has no item for, in list order. */
  lemma {:induction false} MissingUpToSpec(productIds: seq<ProductId>, k: nat, listItems: seq<ListItem>,
                                            items: seq<StoreItem>)
    requires k <= |productIds|
    ensures forall m :: m in MissingUpTo(productIds, k, listItems, items) ==>
      m.productId in productIds[..k] && !HasItem(items, m.productId) && m.quantity == Quantity(listItems, m.productId)
    ensures forall j :: 0 <= j < k && !HasItem(items, productIds[j]) ==>
      MissingItem(productIds[j], Quantity(listItems, productIds[j])) in MissingUpTo(productIds, k, listItems, items)
  {
    if k > 0 {
      MissingUpToSpec(productIds, k - 1, listItems, items);
      assert productIds[..k] == productIds[..k - 1] + [productIds[k - 1]];
    }
  }

  /**
   * A quote's `missingItems` are exactly the list products its store has no
   * row for, each with its list quantity; together with the items they cover
   * the list.
   */
  lemma MissingSpec(listItems: seq<ListItem>, rows: seq<PriceRow>, s: StoreLocationId)
    requires Info(rows, s).Some?
    ensures var q := QuoteFor(listItems, rows, s);
      forall m :: m in q.missingItems ==>
        m.productId in ProductIds(listItems) && !Offers(rows, |rows|, s, m.productId)
        && m.quantity == Quantity(listItems, m.productId)
    ensures var q := QuoteFor(listItems, rows, s);
      forall p :: p in ProductIds(listItems) && !Offers(rows, |rows|, s, p) ==>
        MissingItem(p, Quantity(listItems, p)) in q.missingItems
    ensures var q := QuoteFor(listItems, rows, s);
      forall p :: HasItem(q.items, p) <==> Offers(rows, |rows|, s, p)
  {
    var productIds := ProductIds(listItems);
    var items := StoreItems(listItems, rows, s);
    StoreItemsSpec(listItems, rows, |rows|, s);
    MissingUpToSpec(productIds, |listItems|, listItems, items);
    assert productIds[..|listItems|] == productIds;
    forall p | p in productIds && !Offers(rows, |rows|, s, p)
      ensures MissingItem(p, Quantity(listItems, p)) in QuoteFor(listItems, rows, s).missingItems
    {
      var j :| 0 <= j < |productIds| && productIds[j] == p;
    }
  }

  /** Each list product is in exactly one of a quote's `items` and its `missingItems`. */
  lemma ItemsMissingPartition(listItems: seq<ListItem>, rows: seq<PriceRow>, s: StoreLocationId, p: ProductId)
    requires Info(rows, s).Some? && p in ProductIds(listItems)
    ensures var q := QuoteFor(listItems, rows, s);
      HasItem(q.items, p) <==> !(exists m :: m in q.missingItems && m.productId == p)
  {
    MissingSpec(listItems, rows, s);
  }

  /** A store's quote has no missing items exactly when the store has a row for every list product. */
  lemma CompleteStore(listItems: seq<ListItem>, rows: seq<PriceRow>, s: StoreLocationId)
    requires Info(rows, s).Some?
    ensures QuoteFor(listItems, rows, s).missingItems == []
      <==> forall p :: p in ProductIds(listItems) ==> Offers(rows, |rows|, s, p)
  {
    MissingSpec(listItems, rows, s);
    var q := QuoteFor(listItems, rows, s);
    if q.missingItems != [] {
      assert q.missingItems[0] in q.missingItems;
    }
  }

  // ---------------------------------------------------------------------------
  // `byStore`

  lemma {:induction false} QuotesNoDuplicates(listItems: seq<ListItem>, rows: seq<PriceRow>, order: seq<StoreLocationId>)
    requires forall s :: s in order ==> Info(rows, s).Some?
    requires Sorting.NoDuplicates(order)
    ensures Sorting.NoDuplicates(Quotes(listItems, rows, order))
  {
    var qs := Quotes(listItems, rows, order);
    forall i, j | 0 <= i < j < |qs| ensures qs[i] != qs[j] {
      assert qs[i].storeLocationId == order[i] && qs[j].storeLocationId == order[j];
    }
  }

  /** `byStore` holds the complete quote of each store location that has a row, and nothing else. */
  lemma ByStoreContents(listItems: seq<ListItem>, rows: seq<PriceRow>)
    ensures forall q :: q in ByStore(listItems, rows) ==>
      Info(rows, q.storeLocationId).Some? && q == QuoteFor(listItems, rows, q.storeLocationId)
    ensures forall s :: Info(rows, s).Some? ==> QuoteFor(listItems, rows, s) in ByStore(listItems, rows)
  {
    var order := StoreOrderUpTo(rows, |rows|);
    StoreOrderInfo(rows);
    TotalLeIsTotalPreorder();
    var qs := StoreQuotes(listItems, rows);
    var sorted := ByStore(listItems, rows);
    assert multiset(sorted) == multiset(qs);
    forall q | q in sorted
      ensures Info(rows, q.storeLocationId).Some? && q == QuoteFor(listItems, rows, q.storeLocationId)
    {
      assert q in multiset(qs);
      var k :| 0 <= k < |qs| && qs[k] == q;
    }
    forall s | Info(rows, s).Some? ensures QuoteFor(listItems, rows, s) in sorted {
      StoreOrderHas(rows, |rows|, s);
      var k :| 0 <= k < |order| && order[k] == s;
      assert qs[k] in multiset(sorted);
    }
  }

  /** No store location has two quotes in `byStore`. */
  lemma ByStoreDistinct(listItems: seq<ListItem>, rows: seq<PriceRow>)
    ensures forall i, j :: 0 <= i < j < |ByStore(listItems, rows)| ==>
      ByStore(listItems, rows)[i].storeLocationId != ByStore(listItems, rows)[j].storeLocationId
  {
    var order := StoreOrderUpTo(rows, |rows|);
    StoreOrderSpec(rows, |rows|);
    TotalLeIsTotalPreorder();
    var qs := StoreQuotes(listItems, rows);
    var sorted := ByStore(listItems, rows);
    QuotesNoDuplicates(listItems, rows, order);
    Sorting.PermutationNoDuplicates(qs, sorted);
    ByStoreContents(listItems, rows);
    forall i, j | 0 <= i < j < |sorted| ensures sorted[i].storeLocationId != sorted[j].storeLocationId {
      assert sorted[i] in sorted && sorted[j] in sorted;
    }
  }

  /** Quotes with equal totals keep the order in which their stores first appear in the rows. */
  lemma ByStoreStable(listItems: seq<ListItem>, rows: seq<PriceRow>, x: StoreQuote)
    ensures Sorting.Ties(ByStore(listItems, rows), x, TotalLe) == Sorting.Ties(StoreQuotes(listItems, rows), x, TotalLe)
  {
    TotalLeIsTotalPreorder();
    Sorting.SortByStable(StoreQuotes(listItems, rows), x, TotalLe);
  }

  // ---------------------------------------------------------------------------
  // `bestPrice`

  /** The entry for a product that has a price: its best price and store, and the list quantity. */
  lemma BestItemForFacts(listItems: seq<ListItem>, rows: seq<PriceRow>, p: ProductId)
    requires p in Picks(rows)
    ensures var b := BestItemFor(listItems, rows, p);
      && b.price == Picks(rows)[p].price
      && b.quantity == Quantity(listItems, p)
      && b.totalPrice == b.price * b.quantity
      && b.storeName == Info(rows, b.storeLocationId).value.storeName
  {
    var pick := Picks(rows)[p];
    PickHasItem(listItems, rows, p);
    var item := FirstItem(StoreItems(listItems, rows, pick.storeLocationId), p);
    StoreItemFacts(listItems, rows, pick.storeLocationId, item);
  }

  lemma {:induction false} BestItemsUpToFacts(productIds: seq<ProductId>, k: nat, listItems: seq<ListItem>,
                                               rows: seq<PriceRow>)
    requires k <= |productIds|
    ensures forall b :: b in BestItemsUpTo(productIds, k, listItems, rows) ==>
      && b.productId in productIds[..k]
      && b.productId in Picks(rows)
      && b.price == Picks(rows)[b.productId].price
      && b.storeLocationId == Picks(rows)[b.productId].storeLocationId
      && b.quantity == Quantity(listItems, b.productId)
      && b.totalPrice == b.price * b.quantity
      && b.storeName == Info(rows, b.storeLocationId).value.storeName
    ensures forall j :: 0 <= j < k && productIds[j] in Picks(rows) ==>
      BestItemFor(listItems, rows, productIds[j]) in BestItemsUpTo(productIds, k, listItems, rows)
  {
    if k > 0 {
      BestItemsUpToFacts(productIds, k - 1, listItems, rows);
      assert productIds[..k] == productIds[..k - 1] + [productIds[k - 1]];
      if productIds[k - 1] in Picks(rows) {
        BestItemForFacts(listItems, rows, productIds[k - 1]);
      }
    }
  }

  /**
   * `bestPrice.items` buys each list product that has a price at the store of
   * its best pick, at that price and for its list quantity, and leaves out the
   * products no row prices.
   */
  lemma BestItemsSpec(listItems: seq<ListItem>, rows: seq<PriceRow>)
    ensures forall b :: b in BestItems(listItems, rows) ==>
      && b.productId in ProductIds(listItems)
      && b.productId in Picks(rows)
      && b.price == Picks(rows)[b.productId].price
      && b.storeLocationId == Picks(rows)[b.productId].storeLocationId
      && b.quantity == Quantity(listItems, b.productId)
      && b.totalPrice == b.price * b.quantity
      && b.storeName == Info(rows, b.storeLocationId).value.storeName
    ensures forall p :: p in ProductIds(listItems) ==>
      ((exists b :: b in BestItems(listItems, rows) && b.productId == p) <==> HasPrice(rows, |rows|, p))
  {
    var productIds := ProductIds(listItems);
    BestItemsUpToFacts(productIds, |listItems|, listItems, rows);
    assert productIds[..|listItems|] == productIds;
    PicksDomain(rows, |rows|);
    forall p | p in productIds && HasPrice(rows, |rows|, p)
      ensures exists b :: b in BestItems(listItems, rows) && b.productId == p
    {
      var j :| 0 <= j < |productIds| && productIds[j] == p;
      assert BestItemFor(listItems, rows, p) in BestItems(listItems, rows);
    }
  }

  /**
   * The price of a best item is the lowest price any row gives its product,
   * and it is the price of the first such row: on a tie the earlier row wins.
   */
  lemma BestItemIsCheapest(listItems: seq<ListItem>, rows: seq<PriceRow>, b: BestItem)
    requires b in BestItems(listItems, rows)
    ensures forall j :: 0 <= j < |rows| && rows[j].productId == b.productId ==> b.price <= RowPrice(rows[j])
    ensures exists k :: (0 <= k < |rows| && rows[k].productId == b.productId
                         && rows[k].storeLocationId == b.storeLocationId && RowPrice(rows[k]) == b.price
                         && forall j :: 0 <= j < k && rows[j].productId == b.productId ==> b.price < RowPrice(rows[j]))
  {
    BestItemsSpec(listItems, rows);
    PicksSpec(rows, |rows|);
    var k :| 0 <= k < |rows| && PickedAt(rows, k, b.productId, Picks(rows)[b.productId]);
  }

  /**
   * `bestPrice.stores` names each store of a best item once, with the store
   * columns its quote was created with, and no other store.
   */
  lemma BestStoresSpec(items: seq<BestItem>, rows: seq<PriceRow>)
    requires forall j :: 0 <= j < |items| ==> Info(rows, items[j].storeLocationId).Some?
    ensures forall i, j :: 0 <= i < j < |BestStoresOf(items, rows)| ==>
      BestStoresOf(items, rows)[i].storeLocationId != BestStoresOf(items, rows)[j].storeLocationId
    ensures forall b :: b in items ==> HasStore(BestStoresOf(items, rows), b.storeLocationId)
    ensures forall st :: st in BestStoresOf(items, rows) ==>
      (exists b :: b in items && b.storeLocationId == st.storeLocationId)
      && Info(rows, st.storeLocationId) == Some(st.store)
  {
    BestStoresDistinct(items, rows);
    BestStoresMembers(items, rows);
  }

  lemma {:induction false} BestStoresDistinct(items: seq<BestItem>, rows: seq<PriceRow>)
    requires forall j :: 0 <= j < |items| ==> Info(rows, items[j].storeLocationId).Some?
    ensures forall i, j :: 0 <= i < j < |BestStoresOf(items, rows)| ==>
      BestStoresOf(items, rows)[i].storeLocationId != BestStoresOf(items, rows)[j].storeLocationId
  {
    if items != [] {
      var init := items[..|items| - 1];
      var last := items[|items| - 1];
      BestStoresDistinct(init, rows);
      var prev := BestStoresOf(init, rows);
      var stores := BestStoresOf(items, rows);
      if !HasStore(prev, last.storeLocationId) {
        assert stores == prev + [BestStore(last.storeLocationId, Info(rows, last.storeLocationId).value)];
        forall i, j | 0 <= i < j < |stores| ensures stores[i].storeLocationId != stores[j].storeLocationId {
          assert stores[i] == prev[i];
          if j == |prev| {
            assert stores[j].storeLocationId == last.storeLocationId;
            assert !(0 <= i < |prev| && prev[i].storeLocationId == last.storeLocationId);
          } else {
            assert stores[j] == prev[j];
          }
        }
      }
    }
  }

  lemma {:induction false} BestStoresMembers(items: seq<BestItem>, rows: seq<PriceRow>)
    requires forall j :: 0 <= j < |items| ==> Info(rows, items[j].storeLocationId).Some?
    ensures forall b :: b in items ==> HasStore(BestStoresOf(items, rows), b.storeLocationId)
    ensures forall st :: st in BestStoresOf(items, rows) ==>
      (exists b :: b in items && b.storeLocationId == st.storeLocationId)
      && Info(rows, st.storeLocationId) == Some(st.store)
  {
    if items != [] {
      var init := items[..|items| - 1];
      var last := items[|items| - 1];
      BestStoresMembers(init, rows);
      var prev := BestStoresOf(init, rows);
      var stores := BestStoresOf(items, rows);
      assert items == init + [last];
      forall b | b in items ensures HasStore(stores, b.storeLocationId) {
        if b in init {
          var k :| 0 <= k < |prev| && prev[k].storeLocationId == b.storeLocationId;
          assert stores[k] == prev[k];
        } else {
          assert b == last;
          if !HasStore(prev, last.storeLocationId) {
            assert stores[|prev|].storeLocationId == last.storeLocationId;
          }
        }
      }
      forall st | st in stores
        ensures (exists b :: b in items && b.storeLocationId == st.storeLocationId)
                && Info(rows, st.storeLocationId) == Some(st.store)
      {
        if st in prev {
          var b :| b in init && b.storeLocationId == st.storeLocationId;
          assert b in items;
        } else {
          assert last in items;
        }
      }
    }
  }

  // ---------------------------------------------------------------------------
  // The best distribution against a store that carries the whole list

  /** At most one row per product and store location, as `DISTINCT ON (product_id, store_location_id)` yields. */
  ghost predicate RowPairsDistinct(rows: seq<PriceRow>)
  {
    forall i, j :: 0 <= i < j < |rows| ==>
      rows[i].productId != rows[j].productId || rows[i].storeLocationId != rows[j].storeLocationId
  }

  /** The sum of best price times list quantity over the first `k` list products that have a price. */
  ghost function PickSum(productIds: seq<ProductId>, k: nat, listItems: seq<ListItem>, rows: seq<PriceRow>): int
    requires k <= |productIds|
  {
    if k == 0 then 0
    else
      var p := productIds[k - 1];
      PickSum(productIds, k - 1, listItems, rows)
        + (if p in Picks(rows) then Picks(rows)[p].price * Quantity(listItems, p) else 0)
  }

  lemma {:induction false} BestTotalIsPickSum(productIds: seq<ProductId>, k: nat, listItems: seq<ListItem>,
                                               rows: seq<PriceRow>)
    requires k <= |productIds|
    ensures BestTotal(BestItemsUpTo(productIds, k, listItems, rows)) == PickSum(productIds, k, listItems, rows)
  {
    if k > 0 {
      BestTotalIsPickSum(productIds, k - 1, listItems, rows);
      var p := productIds[k - 1];
      var prev := BestItemsUpTo(productIds, k - 1, listItems, rows);
      if p in Picks(rows) {
        BestItemForFacts(listItems, rows, p);
        assert BestItemsUpTo(productIds, k, listItems, rows) == prev + [BestItemFor(listItems, rows, p)];
        BestTotalAppend(prev, BestItemFor(listItems, rows, p));
      } else {
        assert BestItemsUpTo(productIds, k, listItems, rows) == prev;
      }
    }
  }

  lemma {:induction false} SumConcat(a: seq<StoreItem>, b: seq<StoreItem>)
    ensures Sum(a + b) == Sum(a) + Sum(b)
  {
    if b != [] {
      var init := b[..|b| - 1];
      SumConcat(a, init);
      assert a + b == (a + init) + [b[|b| - 1]];
      SumAppend(a + init, b[|b| - 1]);
      assert b == init + [b[|b| - 1]];
      SumAppend(init, b[|b| - 1]);
    } else {
      assert a + b == a;
    }
  }

  lemma SumRemove(items: seq<StoreItem>, i: nat)
    requires i < |items|
    ensures Sum(items) == Sum(items[..i] + items[i + 1..]) + items[i].totalPrice
  {
    var a, x, b := items[..i], items[i], items[i + 1..];
    var front := items[..i + 1];
    assert front == a + [x];
    assert items == front + b;
    SumConcat(front, b);
    SumAppend(a, x);
    SumConcat(a, b);
  }

  lemma MulMonotone(a: int, b: int, q: int)
    requires a <= b && 0 <= q
    ensures a * q <= b * q
  {
    assert b * q - a * q == (b - a) * q;
  }

  /** The items of different products, each at least the best price of its product. */
  ghost predicate ItemsAboveBest(items: seq<StoreItem>, listItems: seq<ListItem>, rows: seq<PriceRow>)
  {
    && (forall i, j :: 0 <= i < j < |items| ==> items[i].productId != items[j].productId)
    && (forall it :: it in items ==>
          && it.productId in Picks(rows)
          && Picks(rows)[it.productId].price <= it.price
          && it.quantity == Quantity(listItems, it.productId) && 0 <= it.quantity
          && it.totalPrice == it.price * it.quantity)
  }

  /** The sequence without its element `i`, element by element. */
  lemma RemoveAt(items: seq<StoreItem>, i: nat)
    requires i < |items|
    ensures |items[..i] + items[i + 1..]| == |items| - 1
    ensures forall a :: 0 <= a < i ==> (items[..i] + items[i + 1..])[a] == items[a]
    ensures forall a :: i < a < |items| ==> (items[..i] + items[i + 1..])[a - 1] == items[a]
  {
  }

  /** Taking out one item keeps the items above their best prices. */
  lemma RemoveKeepsAbove(items: seq<StoreItem>, i: nat, listItems: seq<ListItem>, rows: seq<PriceRow>)
    requires ItemsAboveBest(items, listItems, rows) && i < |items|
    ensures ItemsAboveBest(items[..i] + items[i + 1..], listItems, rows)
  {
    var rest := items[..i] + items[i + 1..];
    RemoveAt(items, i);
    forall a, b | 0 <= a < b < |rest| ensures rest[a].productId != rest[b].productId {
      var a' := if a < i then a else a + 1;
      var b' := if b < i then b else b + 1;
      assert rest[a] == items[a'] && rest[b] == items[b'] && a' < b';
    }
    forall it | it in rest ensures it in items {
      var a :| 0 <= a < |rest| && rest[a] == it;
      if a < i {
        assert items[a] == it;
      } else {
        assert items[a + 1] == it;
      }
    }
  }

  /** Taking out the item of the last product leaves items of the other products only. */
  lemma RemoveLastProducts(items: seq<StoreItem>, productIds: seq<ProductId>, k: nat, i: nat)
    requires 0 < k <= |productIds|
    requires forall a, b :: 0 <= a < b < |items| ==> items[a].productId != items[b].productId
    requires forall it :: it in items ==> it.productId in productIds[..k]
    requires i < |items| && items[i].productId == productIds[k - 1]
    ensures forall it :: it in items[..i] + items[i + 1..] ==> it.productId in productIds[..k - 1]
  {
    var rest := items[..i] + items[i + 1..];
    var pre := productIds[..k - 1];
    assert productIds[..k] == pre + [productIds[k - 1]];
    RemoveAt(items, i);
    forall it | it in rest ensures it.productId in pre {
      var a :| 0 <= a < |rest| && rest[a] == it;
      var a' := if a < i then a else a + 1;
      assert items[a'] == it && a' != i;
      assert it.productId in productIds[..k];
    }
  }

  /** Taking out the item of the last product keeps an item for each of the other products. */
  lemma RemoveLastCovers(items: seq<StoreItem>, productIds: seq<ProductId>, k: nat, i: nat)
    requires 0 < k <= |productIds| && Sorting.NoDuplicates(productIds)
    requires forall j :: 0 <= j < k ==> HasItem(items, productIds[j])
    requires i < |items| && items[i].productId == productIds[k - 1]
    ensures forall j :: 0 <= j < k - 1 ==> HasItem(items[..i] + items[i + 1..], productIds[j])
  {
    var rest := items[..i] + items[i + 1..];
    RemoveAt(items, i);
    forall j | 0 <= j < k - 1 ensures HasItem(rest, productIds[j]) {
      var a :| 0 <= a < |items| && items[a].productId == productIds[j];
      assert a != i;
      if a < i {
        assert rest[a] == items[a];
      } else {
        assert rest[a - 1] == items[a];
      }
    }
  }

  /** Items covering exactly the first `k` list products cost at least their best prices. */
  lemma {:induction false} CoverBound(items: seq<StoreItem>, productIds: seq<ProductId>, k: nat,
                                       listItems: seq<ListItem>, rows: seq<PriceRow>)
    requires k <= |productIds| && Sorting.NoDuplicates(productIds)
    requires ItemsAboveBest(items, listItems, rows)
    requires forall it :: it in items ==> it.productId in productIds[..k]
    requires forall j :: 0 <= j < k ==> HasItem(items, productIds[j])
    ensures PickSum(productIds, k, listItems, rows) <= Sum(items)
    decreases k
  {
    if k > 0 {
      var i, rest := TakeLast(items, productIds, k, listItems, rows);
      CoverBound(rest, productIds, k - 1, listItems, rows);
      CoverStep(items, i, rest, productIds, k, listItems, rows);
    }
  }

  /** The item of the `k`-th product, and the items of the first `k - 1` products without it. */
  lemma TakeLast(items: seq<StoreItem>, productIds: seq<ProductId>, k: nat, listItems: seq<ListItem>,
                 rows: seq<PriceRow>)
    returns (i: nat, rest: seq<StoreItem>)
    requires 0 < k <= |productIds| && Sorting.NoDuplicates(productIds)
    requires ItemsAboveBest(items, listItems, rows)
    requires forall it :: it in items ==> it.productId in productIds[..k]
    requires forall j :: 0 <= j < k ==> HasItem(items, productIds[j])
    ensures i < |items| && items[i].productId == productIds[k - 1] && rest == items[..i] + items[i + 1..]
    ensures ItemsAboveBest(rest, listItems, rows)
    ensures forall it :: it in rest ==> it.productId in productIds[..k - 1]
    ensures forall j :: 0 <= j < k - 1 ==> HasItem(rest, productIds[j])
  {
    var p := productIds[k - 1];
    assert HasItem(items, p);
    i :| 0 <= i < |items| && items[i].productId == p;
    rest := items[..i] + items[i + 1..];
    RemoveKeepsAbove(items, i, listItems, rows);
    RemoveLastProducts(items, productIds, k, i);
    RemoveLastCovers(items, productIds, k, i);
  }

  /** Adding the item of the `k`-th product back keeps the sum at least the best prices' sum. */
  lemma CoverStep(items: seq<StoreItem>, i: nat, rest: seq<StoreItem>, productIds: seq<ProductId>, k: nat,
                  listItems: seq<ListItem>, rows: seq<PriceRow>)
    requires ItemsAboveBest(items, listItems, rows)
    requires 0 < k <= |productIds| && i < |items| && items[i].productId == productIds[k - 1]
    requires rest == items[..i] + items[i + 1..]
    requires PickSum(productIds, k - 1, listItems, rows) <= Sum(rest)
    ensures PickSum(productIds, k, listItems, rows) <= Sum(items)
  {
    var p := productIds[k - 1];
    SumRemove(items, i);
    var it := items[i];
    assert it in items;
    var best, q := Picks(rows)[p].price, Quantity(listItems, p);
    assert best <= it.price && it.quantity == q && 0 <= q && it.totalPrice == it.price * q;
    MulMonotone(best, it.price, q);
  }

  /** With one row per product and store, a store's items are of different products. */
  lemma {:induction false} StoreItemsDistinct(listItems: seq<ListItem>, rows: seq<PriceRow>, n: nat, s: StoreLocationId)
    requires n <= |rows| && RowPairsDistinct(rows)
    ensures forall i, j :: 0 <= i < j < |StoreItemsUpTo(listItems, rows, n, s)| ==>
      StoreItemsUpTo(listItems, rows, n, s)[i].productId != StoreItemsUpTo(listItems, rows, n, s)[j].productId
  {
    if n > 0 {
      StoreItemsDistinct(listItems, rows, n - 1, s);
      var prev := StoreItemsUpTo(listItems, rows, n - 1, s);
      var items := StoreItemsUpTo(listItems, rows, n, s);
      if rows[n - 1].storeLocationId == s {
        assert items == prev + [ItemOf(listItems, rows[n - 1])];
        StoreItemsSpec(listItems, rows, n - 1, s);
        assert !Offers(rows, n - 1, s, rows[n - 1].productId);
        forall i, j | 0 <= i < j < |items| ensures items[i].productId != items[j].productId {
          assert items[i] == prev[i];
          if j < |prev| {
            assert items[j] == prev[j];
          }
        }
      } else {
        assert items == prev;
      }
    }
  }

  lemma QuantityNonNegative(listItems: seq<ListItem>, p: ProductId)
    requires forall k :: 0 <= k < |listItems| ==> listItems[k].quantity >= 0
    ensures Quantity(listItems, p) >= 0
  {
    if listItems != [] {
      QuantityNonNegative(listItems[1..], p);
    }
  }

  /** Under the query's guarantees, a store's items are of different list products, each at least its best price. */
  lemma StoreItemsAboveBest(listItems: seq<ListItem>, rows: seq<PriceRow>, s: StoreLocationId)
    requires forall k :: 0 <= k < |listItems| ==> listItems[k].quantity >= 0
    requires RowPairsDistinct(rows)
    requires forall j :: 0 <= j < |rows| ==> rows[j].productId in ProductIds(listItems)
    ensures ItemsAboveBest(StoreItems(listItems, rows, s), listItems, rows)
    ensures forall it :: it in StoreItems(listItems, rows, s) ==> it.productId in ProductIds(listItems)[..|listItems|]
  {
    var productIds := ProductIds(listItems);
    var items := StoreItems(listItems, rows, s);
    StoreItemsDistinct(listItems, rows, |rows|, s);
    PicksDomain(rows, |rows|);
    PicksBound(rows, |rows|);
    assert productIds[..|listItems|] == productIds;
    forall it | it in items
      ensures && it.productId in Picks(rows)
              && Picks(rows)[it.productId].price <= it.price
              && it.quantity == Quantity(listItems, it.productId) && 0 <= it.quantity
              && it.totalPrice == it.price * it.quantity
              && it.productId in productIds
    {
      StoreItemFacts(listItems, rows, s, it);
      var j :| 0 <= j < |rows| && rows[j].storeLocationId == s && rows[j].productId == it.productId
               && it.price == RowPrice(rows[j]);
      assert HasPrice(rows, |rows|, it.productId);
      QuantityNonNegative(listItems, it.productId);
    }
  }

  /**
   * The best distribution never costs more than buying the whole list at one
   * store that has a price for every list product, provided the list names
   * each product once with a non-negative quantity and the rows are what the
   * price query returns: one per product and store, for list products only.
   */
  lemma BestNotAboveCompleteStore(listItems: seq<ListItem>, rows: seq<PriceRow>, s: StoreLocationId)
    requires Sorting.NoDuplicates(ProductIds(listItems))
    requires forall k :: 0 <= k < |listItems| ==> listItems[k].quantity >= 0
    requires RowPairsDistinct(rows)
    requires forall j :: 0 <= j < |rows| ==> rows[j].productId in ProductIds(listItems)
    requires Info(rows, s).Some? && QuoteFor(listItems, rows, s).missingItems == []
    ensures BestTotal(BestItems(listItems, rows)) <= QuoteFor(listItems, rows, s).totalPrice
  {
    var productIds := ProductIds(listItems);
    var items := StoreItems(listItems, rows, s);
    StoreItemsAboveBest(listItems, rows, s);
    CompleteStore(listItems, rows, s);
    forall j | 0 <= j < |productIds| ensures HasItem(items, productIds[j]) {
      assert productIds[j] in productIds;
      StoreItemsSpec(listItems, rows, |rows|, s);
    }
    CoverBound(items, productIds, |productIds|, listItems, rows);
    BestTotalIsPickSum(productIds, |listItems|, listItems, rows);
  }

  /** The same bound, stated on the result: `bestPrice.totalPrice` is at most any complete quote in `byStore`. */
  lemma BestPriceNotAboveCompleteQuotes(listItems: seq<ListItem>, rows: seq<PriceRow>)
    requires listItems != []
    requires Sorting.NoDuplicates(ProductIds(listItems))
    requires forall k :: 0 <= k < |listItems| ==> listItems[k].quantity >= 0
    requires RowPairsDistinct(rows)
    requires forall j :: 0 <= j < |rows| ==> rows[j].productId in ProductIds(listItems)
    ensures PricesFor(listItems, rows).Priced?
    ensures forall q :: q in PricesFor(listItems, rows).byStore && q.missingItems == [] ==>
      PricesFor(listItems, rows).bestPrice.totalPrice <= q.totalPrice
  {
    ByStoreContents(listItems, rows);
    forall q | q in PricesFor(listItems, rows).byStore && q.missingItems == []
      ensures PricesFor(listItems, rows).bestPrice.totalPrice <= q.totalPrice
    {
      BestNotAboveCompleteStore(listItems, rows, q.storeLocationId);
    }
  }

  /**
   * Without distinct list products the bound fails: a product listed twice is
   * bought twice in `bestPrice` but priced once in its store's quote.
   */
  lemma DuplicateListProductCountedTwice()
    ensures var listItems := [ListItem(1, 1), ListItem(1, 1)];
      var rows := [PriceRow(1, 7, 500, None, "milk", StoreInfo("Corner", "", "", "", "", 1.0))];
      && Info(rows, 7).Some?
      && QuoteFor(listItems, rows, 7).missingItems == []
      && QuoteFor(listItems, rows, 7).totalPrice == 500
      && BestTotal(BestItems(listItems, rows)) == 1000
  {
    var listItems := [ListItem(1, 1), ListItem(1, 1)];
    var rows := [PriceRow(1, 7, 500, None, "milk", StoreInfo("Corner", "", "", "", "", 1.0))];
    var productIds := ProductIds(listItems);
    assert productIds == [1, 1];
    assert Picks(rows) == map[1 := BestPick(500, 7)];
    assert Info(rows, 7).Some?;
    assert Quantity(listItems, 1) == 1;
    assert RowPrice(rows[0]) == 500;
    var it := ItemOf(listItems, rows[0]);
    assert it.productId == 1 && it.totalPrice == 500;
    var items := StoreItems(listItems, rows, 7);
    assert items == [it];
    assert Sum(items) == Sum([]) + 500;
    assert HasItem(items, 1);
    assert MissingUpTo(productIds, 1, listItems, items) == [];
    assert MissingUpTo(productIds, 2, listItems, items) == [];
    BestItemForFacts(listItems, rows, 1);
    var b := BestItemFor(listItems, rows, 1);
    assert b.price == 500 && b.quantity == 1;
    assert BestItems(listItems, rows) == [b, b];
    assert BestTotal([b]) == BestTotal([]) + 500;
    assert [b, b][..1] == [b];
    assert BestTotal([b, b]) == BestTotal([b]) + 500;
  }
}
