/**
 * The two pieces of logic in the product model that run in JavaScript: the
 * field merge of `updateProduct`, which keeps the stored value of every field
 * the caller leaves falsy, and the guard of `searchProducts`, which trims the
 * term and skips the query when nothing is left.
 */
module Products {
  import opened Wrappers
  import opened Ids

  /** A text column: `None` is SQL `NULL`. */
  type Text = Option<string>

  /** The six columns `updateProduct` rewrites. */
  datatype Product = Product(
    id: ProductId,
    name: Text,
    description: Text,
    category: Text,
    barcode: Text,
    imageUrl: Text,
    brand: Text)

  /** `productData`: `None` is a missing (`undefined`) or `null` property. */
  datatype ProductData = ProductData(
    name: Text,
    description: Text,
    category: Text,
    barcode: Text,
    imageUrl: Text,
    brand: Text)

  /** The same six properties all left out. */
  const NoChanges := ProductData(None, None, None, None, None, None)

  /** JavaScript truthiness of a string, `null` or `undefined`: only a non-empty string is truthy. */
  predicate Truthy(v: Text)
  {
    v.Some? && v.value != ""
  }

  /** `supplied || existing` */
  function Or(supplied: Text, existing: Text): (r: Text)
    ensures Truthy(supplied) ==> r == supplied
    ensures !Truthy(supplied) ==> r == existing
  {
    if Truthy(supplied) then supplied else existing
  }

  /** `updatedData`: each field from `productData` when truthy, from the stored product otherwise. */
  function Merge(existing: Product, data: ProductData): (r: Product)
    ensures r.id == existing.id
    ensures r.name == Or(data.name, existing.name) && r.description == Or(data.description, existing.description)
    ensures r.category == Or(data.category, existing.category) && r.barcode == Or(data.barcode, existing.barcode)
    ensures r.imageUrl == Or(data.imageUrl, existing.imageUrl) && r.brand == Or(data.brand, existing.brand)
  {
    Product(existing.id,
            Or(data.name, existing.name),
            Or(data.description, existing.description),
            Or(data.category, existing.category),
            Or(data.barcode, existing.barcode),
            Or(data.imageUrl, existing.imageUrl),
            Or(data.brand, existing.brand))
  }

  const ProductNotFound := "Product not found"

  /**
   * `updateProduct(productId, productData)` on the `products` table: the
   * failure when no row has the id, or the table with the merged row written
   * back, and that row.
   */
  function UpdateProduct(products: map<ProductId, Product>, productId: ProductId, data: ProductData)
    : (r: Result<(map<ProductId, Product>, Product), string>)
    requires forall id :: id in products ==> products[id].id == id
    ensures r.Failure? <==> productId !in products
    ensures r.Failure? ==> r.error == ProductNotFound
    ensures r.Success? ==>
      var (table, updated) := r.value;
      && table.Keys == products.Keys
      && table[productId] == updated
      && (forall id :: id in products && id != productId ==> table[id] == products[id])
      && (forall id :: id in table ==> table[id].id == id)
  {
    if productId !in products then Failure(ProductNotFound)
    else
      var updated := Merge(products[productId], data);
      Success((products[productId := updated], updated))
  }

  /** A field the update supplies truthily is written; any other field keeps its stored value. */
  lemma UpdateFields(products: map<ProductId, Product>, productId: ProductId, data: ProductData)
    requires forall id :: id in products ==> products[id].id == id
    requires productId in products
    ensures var r := UpdateProduct(products, productId, data);
      var stored := products[productId];
      && r.Success?
      && (Truthy(data.name) ==> r.value.1.name == data.name)
      && (!Truthy(data.name) ==> r.value.1.name == stored.name)
      && (Truthy(data.description) ==> r.value.1.description == data.description)
      && (!Truthy(data.description) ==> r.value.1.description == stored.description)
      && (Truthy(data.category) ==> r.value.1.category == data.category)
      && (!Truthy(data.category) ==> r.value.1.category == stored.category)
      && (Truthy(data.barcode) ==> r.value.1.barcode == data.barcode)
      && (!Truthy(data.barcode) ==> r.value.1.barcode == stored.barcode)
      && (Truthy(data.imageUrl) ==> r.value.1.imageUrl == data.imageUrl)
      && (!Truthy(data.imageUrl) ==> r.value.1.imageUrl == stored.imageUrl)
      && (Truthy(data.brand) ==> r.value.1.brand == data.brand)
      && (!Truthy(data.brand) ==> r.value.1.brand == stored.brand)
  {
  }

  /** An update whose six properties are all falsy (left out, `null` or `""`) changes nothing. */
  lemma FalsyUpdateChangesNothing(products: map<ProductId, Product>, productId: ProductId, data: ProductData)
    requires forall id :: id in products ==> products[id].id == id
    requires productId in products
    requires !Truthy(data.name) && !Truthy(data.description) && !Truthy(data.category)
    requires !Truthy(data.barcode) && !Truthy(data.imageUrl) && !Truthy(data.brand)
    ensures UpdateProduct(products, productId, data) == Success((products, products[productId]))
  {
    assert products[productId := products[productId]] == products;
  }

  lemma EmptyUpdateChangesNothing(products: map<ProductId, Product>, productId: ProductId)
    requires forall id :: id in products ==> products[id].id == id
    requires productId in products
    ensures UpdateProduct(products, productId, NoChanges) == Success((products, products[productId]))
  {
    FalsyUpdateChangesNothing(products, productId, NoChanges);
  }

  lemma MergeIdempotent(p: Product, data: ProductData)
    ensures Merge(Merge(p, data), data) == Merge(p, data)
  {
  }

  /** Applying the same update twice leaves the table and the row as applying it once. */
  lemma UpdateIdempotent(products: map<ProductId, Product>, productId: ProductId, data: ProductData)
    requires forall id :: id in products ==> products[id].id == id
    ensures var once := UpdateProduct(products, productId, data);
      once.Success? ==> UpdateProduct(once.value.0, productId, data) == once
  {
    var once := UpdateProduct(products, productId, data);
    if once.Success? {
      var (table, updated) := once.value;
      MergeIdempotent(products[productId], data);
      assert table[productId := Merge(updated, data)] == table;
    }
  }

  // ---------------------------------------------------------------------------
  // `searchProducts`

  /** The characters `String.prototype.trim` removes: ECMAScript WhiteSpace and LineTerminator. */
  predicate IsTrimmed(c: char)
  {
    || c == '\t' || c == '\n' || c == '\U{B}' || c == '\U{C}' || c == '\r' || c == ' '
    || c == '\U{A0}' || c == '\U{1680}' || ('\U{2000}' <= c <= '\U{200A}')
    || c == '\U{2028}' || c == '\U{2029}' || c == '\U{202F}' || c == '\U{205F}'
    || c == '\U{3000}' || c == '\U{FEFF}'
  }

  function TrimStart(s: string): (r: string)
    ensures |r| <= |s| && r == s[|s| - |r|..]
    ensures forall k :: 0 <= k < |s| - |r| ==> IsTrimmed(s[k])
    ensures r == [] || !IsTrimmed(r[0])
  {
    if s != [] && IsTrimmed(s[0]) then
      var r := TrimStart(s[1..]);
      assert s[1..][|s[1..]| - |r|..] == s[|s| - |r|..];
      r
    else s
  }

  function TrimEnd(s: string): (r: string)
    ensures |r| <= |s| && r == s[..|r|]
    ensures forall k :: |r| <= k < |s| ==> IsTrimmed(s[k])
    ensures r == [] || !IsTrimmed(r[|r| - 1])
  {
    if s != [] && IsTrimmed(s[|s| - 1]) then
      var r := TrimEnd(s[..|s| - 1]);
      assert s[..|s| - 1][..|r|] == s[..|r|];
      r
    else s
  }

  /** `searchTerm.trim()` */
  function Trim(s: string): string
  {
    TrimEnd(TrimStart(s))
  }

  /** `s[i..j]` is `s` with only trimmable characters cut off before `i` and from `j` on. */
  ghost predicate CutTo(s: string, i: int, j: int)
  {
    && 0 <= i <= j <= |s|
    && (forall k :: 0 <= k < i ==> IsTrimmed(s[k]))
    && (forall k :: j <= k < |s| ==> IsTrimmed(s[k]))
  }

  /** `Trim` removes exactly the leading and trailing trimmable characters and keeps the rest as it is. */
  lemma TrimSpec(s: string)
    ensures exists i, j :: CutTo(s, i, j) && Trim(s) == s[i..j]
    ensures Trim(s) == [] || (!IsTrimmed(Trim(s)[0]) && !IsTrimmed(Trim(s)[|Trim(s)| - 1]))
  {
    var i, j := TrimCut(s);
    assert CutTo(s, i, j) && Trim(s) == s[i..j];
  }

  /** Where `Trim` cuts: after the leading run that `TrimStart` drops, and before the trailing run of `TrimEnd`. */
  lemma TrimCut(s: string) returns (i: int, j: int)
    ensures CutTo(s, i, j) && Trim(s) == s[i..j]
    ensures Trim(s) == [] || (!IsTrimmed(Trim(s)[0]) && !IsTrimmed(Trim(s)[|Trim(s)| - 1]))
  {
    var t := TrimStart(s);
    var r := TrimEnd(t);
    i := |s| - |t|;
    j := i + |r|;
    assert r == s[i..j];
    forall k | j <= k < |s| ensures IsTrimmed(s[k]) {
      assert s[k] == t[k - i];
    }
    if r != [] {
      assert r[0] == t[0];
    }
  }

  lemma TrimEmptyIffAllTrimmed(s: string)
    ensures Trim(s) == [] <==> forall k :: 0 <= k < |s| ==> IsTrimmed(s[k])
  {
    TrimSpec(s);
    var t := TrimStart(s);
    assert t == [] || t[0] == s[|s| - |t|];
  }

  /** What `searchProducts` does with its term: return `[]` at once, or query with this `ILIKE` pattern. */
  datatype SearchPlan = NoQuery | Query(pattern: string)

  function PlanSearch(searchTerm: string): (r: SearchPlan)
    ensures r.NoQuery? <==> forall k :: 0 <= k < |searchTerm| ==> IsTrimmed(searchTerm[k])
    ensures r.Query? ==> r.pattern == "%" + Trim(searchTerm) + "%" && Trim(searchTerm) != []
  {
    TrimEmptyIffAllTrimmed(searchTerm);
    var trimmedTerm := Trim(searchTerm);
    if trimmedTerm == [] then NoQuery else Query("%" + trimmedTerm + "%")
  }

  lemma PlanSearchExamples()
    ensures PlanSearch("") == NoQuery
    ensures PlanSearch(" \t") == NoQuery
    ensures PlanSearch(" a ") == Query("%a%")
  {
    PlanSearchBlank();
    PlanSearchPadded();
  }

  lemma PlanSearchBlank()
    ensures PlanSearch(" \t") == NoQuery
  {
    assert IsTrimmed(" \t"[0]) && IsTrimmed(" \t"[1]);
  }

  lemma PlanSearchPadded()
    ensures PlanSearch(" a ") == Query("%a%")
  {
    assert " a "[1..] == "a " && "a "[..1] == "a";
    assert TrimStart(" a ") == "a ";
    assert TrimEnd("a ") == "a";
  }


}
