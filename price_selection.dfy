/**
 * The price selection that the SQL queries of the prices model perform:
 * the latest record per (product, store location) pair (`DISTINCT ON ...
 * ORDER BY created_at DESC`), the latest prices of one product, and the
 * cheapest in-range latest price of one product (`getBestPriceForProduct`).
 */
module PriceSelection {
  import opened Wrappers
  import Sorting
  import opened Ids

  /** Decimal prices, scaled to integer cents. */
  type Cents = int

  /** A row of `product_prices`; `createdAt` is the insertion timestamp. */
  datatype PriceRecord = PriceRecord(
    id: nat,
    productId: ProductId,
    storeLocationId: StoreLocationId,
    price: Cents,
    salePrice: Option<Cents>,
    createdAt: int)

  /** `COALESCE(sale_price, price)`: the rule of the SQL queries. */
  function CoalescePrice(price: Cents, salePrice: Option<Cents>): Cents
  {
    if salePrice.Some? then salePrice.value else price
  }

  /** `salePrice || price`: the rule of the JavaScript aggregation, where a sale price of 0 is falsy. */
  function TruthyPrice(price: Cents, salePrice: Option<Cents>): Cents
  {
    if salePrice.Some? && salePrice.value != 0 then salePrice.value else price
  }

  /** The two rules agree except on a sale price of exactly 0. */
  lemma PriceRulesDisagreeOnlyOnZeroSale(price: Cents, salePrice: Option<Cents>)
    ensures TruthyPrice(price, salePrice) != CoalescePrice(price, salePrice)
        <==> salePrice == Some(0) && price != 0
  {
  }

  function Effective(r: PriceRecord): Cents
  {
    CoalescePrice(r.price, r.salePrice)
  }

  predicate SamePair(a: PriceRecord, b: PriceRecord)
  {
    a.productId == b.productId && a.storeLocationId == b.storeLocationId
  }

  /** No two records share a (product, store location) pair. */
  predicate PairsDistinct(rs: seq<PriceRecord>)
  {
    forall i, j :: 0 <= i < j < |rs| ==> !SamePair(rs[i], rs[j])
  }

  /**
   * Among the first `n` records, none of `records[k]`'s pair is newer, and no
   * equally new one comes before it.
   */
  predicate LatestWithin(records: seq<PriceRecord>, k: nat, n: nat)
    requires k < |records| && n <= |records|
  {
    forall j :: 0 <= j < n && SamePair(records[j], records[k]) ==>
      records[j].createdAt < records[k].createdAt
      || (records[j].createdAt == records[k].createdAt && k <= j)
  }

  /**
   * `records[k]` is the row `DISTINCT ON (product_id, store_location_id) ...
   * ORDER BY ..., created_at DESC` keeps for its pair. PostgreSQL leaves the
   * choice among equally new rows open; the model takes the first one.
   */
  predicate IsLatestAt(records: seq<PriceRecord>, k: nat)
    requires k < |records|
  {
    LatestWithin(records, k, |records|)
  }

  /** The kept rows among the first `n`, in table order. */
  function LatestUpTo(records: seq<PriceRecord>, n: nat): seq<PriceRecord>
    requires n <= |records|
  {
    if n == 0 then []
    else LatestUpTo(records, n - 1) + (if IsLatestAt(records, n - 1) then [records[n - 1]] else [])
  }

  /** The `latest_prices` selection: one row per (product, store location) pair. */
  function LatestPrices(records: seq<PriceRecord>): seq<PriceRecord>
  {
    LatestUpTo(records, |records|)
  }

  lemma {:induction false} LatestUpToMembers(records: seq<PriceRecord>, n: nat)
    requires n <= |records|
    ensures forall o :: o in LatestUpTo(records, n) ==>
      exists i :: 0 <= i < n && records[i] == o && IsLatestAt(records, i)
  {
    if n > 0 {
      LatestUpToMembers(records, n - 1);
    }
  }

  lemma {:induction false} LatestUpToIncludes(records: seq<PriceRecord>, n: nat, k: nat)
    requires k < n <= |records| && IsLatestAt(records, k)
    ensures records[k] in LatestUpTo(records, n)
  {
    if k < n - 1 {
      LatestUpToIncludes(records, n - 1, k);
    }
  }

  /** Two kept rows never share a pair. */
  lemma {:induction false} LatestUpToPairsDistinct(records: seq<PriceRecord>, n: nat)
    requires n <= |records|
    ensures PairsDistinct(LatestUpTo(records, n))
  {
    if n > 0 {
      LatestUpToPairsDistinct(records, n - 1);
      LatestUpToMembers(records, n - 1);
      if IsLatestAt(records, n - 1) {
        var prev := LatestUpTo(records, n - 1);
        forall o | o in prev ensures !SamePair(o, records[n - 1]) {
          var i :| 0 <= i < n - 1 && records[i] == o && IsLatestAt(records, i);
          if SamePair(o, records[n - 1]) {
            assert LatestWithin(records, i, |records|);
            assert LatestWithin(records, n - 1, |records|);
            assert SamePair(records[i], records[n - 1]) && SamePair(records[n - 1], records[i]);
            assert false;
          }
        }
        var r := prev + [records[n - 1]];
        forall i, j | 0 <= i < j < |r| ensures !SamePair(r[i], r[j]) {
          if j == |r| - 1 {
            assert r[i] in prev;
          }
        }
      }
    }
  }

  /** Some record of `t`'s pair among the first `n` is latest among them. */
  lemma {:induction false} ExistsLatestWithin(records: seq<PriceRecord>, t: PriceRecord, n: nat)
    requires n <= |records|
    requires exists k :: 0 <= k < n && SamePair(records[k], t)
    ensures exists k :: 0 <= k < n && SamePair(records[k], t) && LatestWithin(records, k, n)
  {
    var m := n - 1;
    if !exists k :: 0 <= k < m && SamePair(records[k], t) {
      assert SamePair(records[m], t);
      assert LatestWithin(records, m, n);
    } else {
      ExistsLatestWithin(records, t, m);
      var k :| 0 <= k < m && SamePair(records[k], t) && LatestWithin(records, k, m);
      if SamePair(records[m], t) && records[m].createdAt > records[k].createdAt {
        assert LatestWithin(records, m, n);
      } else {
        assert LatestWithin(records, k, n);
      }
    }
  }

  /**
   * The selection keeps exactly one row for every pair that has a record, and
   * that row is a record of the pair with the greatest `createdAt`.
   */
  lemma LatestPricesSpec(records: seq<PriceRecord>)
    ensures PairsDistinct(LatestPrices(records))
    ensures forall o :: o in LatestPrices(records) ==>
      o in records && forall r :: r in records && SamePair(r, o) ==> r.createdAt <= o.createdAt
    ensures forall r :: r in records ==> exists o :: o in LatestPrices(records) && SamePair(o, r)
  {
    var n := |records|;
    LatestUpToPairsDistinct(records, n);
    LatestUpToMembers(records, n);
    forall o | o in LatestPrices(records)
      ensures o in records && forall r :: r in records && SamePair(r, o) ==> r.createdAt <= o.createdAt
    {
      var i :| 0 <= i < n && records[i] == o && IsLatestAt(records, i);
      forall r | r in records && SamePair(r, o) ensures r.createdAt <= o.createdAt {
        var j :| 0 <= j < n && records[j] == r;
      }
    }
    forall r | r in records ensures exists o :: o in LatestPrices(records) && SamePair(o, r) {
      var j :| 0 <= j < n && records[j] == r;
      ExistsLatestWithin(records, r, n);
      var k :| 0 <= k < n && SamePair(records[k], r) && LatestWithin(records, k, n);
      LatestUpToIncludes(records, n, k);
    }
  }

  /** A store location lies within the radius: `distance < radius`, with distance opaque. */
  predicate InRange(distance: map<StoreLocationId, real>, radius: real, s: StoreLocationId)
  {
    s in distance && distance[s] < radius
  }

  /**
   * The rows of `rs` that are prices of `productId` at a store location that
   * joins (is a key of `distance`) and lies within `radius`.
   */
  function Candidates(rs: seq<PriceRecord>, productId: ProductId, distance: map<StoreLocationId, real>, radius: real)
    : (c: seq<PriceRecord>)
    ensures forall o :: o in c <==> o in rs && o.productId == productId && InRange(distance, radius, o.storeLocationId)
  {
    if rs == [] then []
    else
      var rest := Candidates(rs[1..], productId, distance, radius);
      assert forall o :: o in rs <==> o == rs[0] || o in rs[1..];
      if rs[0].productId == productId && InRange(distance, radius, rs[0].storeLocationId) then [rs[0]] + rest else rest
  }

  /**
   * `ORDER BY COALESCE(sale_price, price) ASC LIMIT 1`: a row with the least
   * effective price, or nothing when there are no rows. Ties are left open by
   * PostgreSQL; the model takes the first.
   */
  function Cheapest(cands: seq<PriceRecord>): (r: Option<PriceRecord>)
    ensures r.None? <==> cands == []
    ensures r.Some? ==> r.value in cands && forall c :: c in cands ==> Effective(r.value) <= Effective(c)
    ensures r.Some? ==>
      exists k :: 0 <= k < |cands| && cands[k] == r.value
        && forall j :: 0 <= j < k ==> Effective(cands[j]) > Effective(r.value)
  {
    if cands == [] then None
    else
      var rest := Cheapest(cands[1..]);
      assert forall c :: c in cands <==> c == cands[0] || c in cands[1..];
      if rest.None? || Effective(cands[0]) <= Effective(rest.value) then Some(cands[0])
      else
        var k :| 0 <= k < |cands[1..]| && cands[1..][k] == rest.value
          && forall j :: 0 <= j < k ==> Effective(cands[1..][j]) > Effective(rest.value);
        assert cands[k + 1] == rest.value;
        assert forall j :: 0 <= j < k + 1 ==> Effective(cands[j]) > Effective(rest.value) by {
          forall j | 0 <= j < k + 1 ensures Effective(cands[j]) > Effective(rest.value) {
            if j > 0 { assert cands[j] == cands[1..][j - 1]; }
          }
        }
        rest
  }

  /**
   * `getBestPriceForProduct(productId, latitude, longitude, radiusInKm)`: the
   * latest price of the product at every store location, restricted to the
   * locations within the radius, and the cheapest of those by
   * `COALESCE(sale_price, price)`; `null` (`None`) when there is none.
   */
  function BestPriceForProduct(records: seq<PriceRecord>, productId: ProductId,
                               distance: map<StoreLocationId, real>, radius: real): (r: Option<PriceRecord>)
    ensures r.None? <==>
      forall o :: o in LatestPrices(records) && o.productId == productId ==> !InRange(distance, radius, o.storeLocationId)
    ensures r.Some? ==>
      && r.value in LatestPrices(records)
      && r.value.productId == productId
      && InRange(distance, radius, r.value.storeLocationId)
      && forall o :: o in LatestPrices(records) && o.productId == productId && InRange(distance, radius, o.storeLocationId)
           ==> Effective(r.value) <= Effective(o)
  {
    Cheapest(Candidates(LatestPrices(records), productId, distance, radius))
  }

  /** The best price is not just some latest price: it is the product's newest record at its store. */
  lemma BestPriceIsNewest(records: seq<PriceRecord>, productId: ProductId,
                          distance: map<StoreLocationId, real>, radius: real)
    ensures var b := BestPriceForProduct(records, productId, distance, radius);
      b.Some? ==>
        && b.value in records
        && forall r :: r in records && SamePair(r, b.value) ==> r.createdAt <= b.value.createdAt
  {
    LatestPricesSpec(records);
  }

  /** The ordering of `getLatestPricesForProduct`: by `COALESCE(sale_price, price)`, ascending. */
  function CheaperOrEqual(a: PriceRecord, b: PriceRecord): bool
  {
    Effective(a) <= Effective(b)
  }

  lemma CheaperOrEqualIsTotalPreorder()
    ensures Sorting.IsTotalPreorder(CheaperOrEqual)
  {
  }

  /** The rows of `rs` that are prices of `productId` at a store location that joins. */
  function AtLocations(rs: seq<PriceRecord>, productId: ProductId, locations: set<StoreLocationId>)
    : (c: seq<PriceRecord>)
    ensures forall o :: o in c <==> o in rs && o.productId == productId && o.storeLocationId in locations
  {
    if rs == [] then []
    else
      var rest := AtLocations(rs[1..], productId, locations);
      assert forall o :: o in rs <==> o == rs[0] || o in rs[1..];
      if rs[0].productId == productId && rs[0].storeLocationId in locations then [rs[0]] + rest else rest
  }

  /**
   * `getLatestPricesForProduct(productId)`: the latest price of the product at
   * every store location that joins (`locations`), cheapest first. Rows of
   * equal price stay in table order.
   */
  function LatestPricesForProduct(records: seq<PriceRecord>, productId: ProductId, locations: set<StoreLocationId>)
    : (r: seq<PriceRecord>)
    ensures Sorting.Sorted(r, CheaperOrEqual)
    ensures forall o :: o in r <==> o in LatestPrices(records) && o.productId == productId && o.storeLocationId in locations
    ensures forall i, j :: 0 <= i < j < |r| ==> r[i].storeLocationId != r[j].storeLocationId
  {
    CheaperOrEqualIsTotalPreorder();
    var c := AtLocations(LatestPrices(records), productId, locations);
    Sorting.SortByMembers(c, CheaperOrEqual);
    var r := Sorting.SortBy(c, CheaperOrEqual);
    OneRowPerLocation(records, productId, locations, r);
    r
  }

  /** The latest prices of one product, in any order, name each store location once. */
  lemma OneRowPerLocation(records: seq<PriceRecord>, productId: ProductId, locations: set<StoreLocationId>,
                          r: seq<PriceRecord>)
    requires Sorting.IsTotalPreorder(CheaperOrEqual)
    requires r == Sorting.SortBy(AtLocations(LatestPrices(records), productId, locations), CheaperOrEqual)
    ensures forall i, j :: 0 <= i < j < |r| ==> r[i].storeLocationId != r[j].storeLocationId
  {
    var latest := LatestPrices(records);
    LatestUpToPairsDistinct(records, |records|);
    var c := AtLocations(latest, productId, locations);
    AtLocationsPairsDistinct(latest, productId, locations);
    PairsDistinctPermutation(c, r);
    Sorting.SortByMembers(c, CheaperOrEqual);
    forall i, j | 0 <= i < j < |r| ensures r[i].storeLocationId != r[j].storeLocationId {
      assert r[i] in c && r[j] in c;
      assert !SamePair(r[i], r[j]);
    }
  }

  /** Keeping some of the rows keeps their pairs distinct. */
  lemma {:induction false} AtLocationsPairsDistinct(rs: seq<PriceRecord>, productId: ProductId, locations: set<StoreLocationId>)
    requires PairsDistinct(rs)
    ensures PairsDistinct(AtLocations(rs, productId, locations))
  {
    if rs != [] {
      assert PairsDistinct(rs[1..]) by {
        forall i, j | 0 <= i < j < |rs[1..]| ensures !SamePair(rs[1..][i], rs[1..][j]) {
          assert rs[1..][i] == rs[i + 1] && rs[1..][j] == rs[j + 1];
        }
      }
      AtLocationsPairsDistinct(rs[1..], productId, locations);
      var rest := AtLocations(rs[1..], productId, locations);
      forall o | o in rest ensures !SamePair(rs[0], o) {
        var k :| 0 <= k < |rs[1..]| && rs[1..][k] == o;
        assert rs[k + 1] == o;
      }
    }
  }

  /** Reordering rows keeps their pairs distinct. */
  lemma PairsDistinctPermutation(a: seq<PriceRecord>, b: seq<PriceRecord>)
    requires PairsDistinct(a) && multiset(a) == multiset(b)
    ensures PairsDistinct(b)
  {
    assert Sorting.NoDuplicates(a);
    Sorting.PermutationNoDuplicates(a, b);
    forall i, j | 0 <= i < j < |b| ensures !SamePair(b[i], b[j]) {
      assert b[i] in multiset(a) && b[j] in multiset(a);
      var i' :| 0 <= i' < |a| && a[i'] == b[i];
      var j' :| 0 <= j' < |a| && a[j'] == b[j];
      assert i' != j';
    }
  }
}
