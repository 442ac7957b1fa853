/**
 * The catalog's request handlers: the checks each one makes, in order,
 * before it writes to the store, and the writes themselves.
 */
module CosmeticsHandlers {
  import opened Wrappers
  import opened Models
  import opened CosmeticsModels
  import opened CosmeticsSql
  import SortBy

  /** Why a handler refuses a request. */
  datatype CatalogError =
    | Sql(error: SqlError)              // a query's own failure, passed on by `?`
    | EmptyBrands                       // "Empty brands."
    | Validation(message: string)       // a `validate` failure
    | CreateBrandsFailed
    | DeleteBrandFailed(id: nat)
    | ProductNotExist(id: nat)
    | UpdateProductFailed(id: nat)
    | DeleteProductFailed(id: nat)

  /** What a successful handler answers. */
  datatype Reply = Created | NoContent | Ok | CreatedId(id: nat)

  // ------------------------------------------------------ batch brand creation

  /** Every entry of the batch passes `NewBrand::validate`. */
  predicate AllNamed(brands: seq<NewBrand>) {
    forall k :: 0 <= k < |brands| ==> ValidateNewBrand(brands[k]).Success?
  }

  /**
   * The brands `create_brands` builds from the batch: the k-th entry (from 0)
   * gets sequence `m + k + 1`, id 0 and is not hot.
   */
  function SequencedBrands(brands: seq<NewBrand>, m: int): (r: seq<Brand>)
    ensures |r| == |brands|
    ensures forall k :: 0 <= k < |brands| ==> r[k] == Brand(0, brands[k].name, m + k + 1, false)
  {
    if brands == [] then [] else SequencedBrands(brands[..|brands| - 1], m) + [Brand(0, brands[|brands| - 1].name, m + |brands|, false)]
  }

  /** The sequences handed out strictly increase, so the batch is already in sequence order. */
  lemma SequencedBrandsIncreasing(brands: seq<NewBrand>, m: int)
    ensures SortBy.StrictlyIncreasing(SequencedBrands(brands, m), BrandSequenceKey)
    ensures SortBy.SortedBy(SequencedBrands(brands, m), BrandSequenceKey)
    ensures SortBy.Sort(SequencedBrands(brands, m), BrandSequenceKey) == SequencedBrands(brands, m)
  {
    var s := SequencedBrands(brands, m);
    assert forall i, j :: 0 <= i < j < |s| ==> BrandSequenceKey(s[i]) < BrandSequenceKey(s[j]);
    SortBy.SortOfSorted(s, BrandSequenceKey);
  }

  /**
   * The rows a successful batch appends to the brand table: the batch numbered
   * from the current maximum sequence (src/handlers/cosmetics.rs:32-44), then
   * inserted by `create_brands` (src/sql/cosmetics.rs:60-80).
   */
  function CreatedBrandRows(rows: seq<BrandRow>, brands: seq<NewBrand>, nextId: nat, operator: string): seq<BrandRow> {
    NewBrandRows(SequencedBrands(brands, GetMaxBrandSequence(rows)), nextId, operator)
  }

  /** `for b in brands.iter() { b.validate()?; }`: the first entry's failure, if any. */
  method ValidateAll(brands: seq<NewBrand>) returns (r: Result<Unit, string>)
    ensures r.Success? <==> AllNamed(brands)
    ensures r.Failure? ==> r.error == EMPTY_BRAND_NAME
  {
    var k := 0;
    while k < |brands|
      invariant 0 <= k <= |brands|
      invariant forall j :: 0 <= j < k ==> ValidateNewBrand(brands[j]).Success?
    {
      var v := ValidateNewBrand(brands[k]);
      if v.Failure? {
        return Failure(v.error);
      }
      k := k + 1;
    }
    return Success(Unit);
  }

  /** The `map` closure that bumps `max_sequence` once per entry. */
  method AssignSequences(brands: seq<NewBrand>, maxSequence: int) returns (newBrands: seq<Brand>)
    ensures newBrands == SequencedBrands(brands, maxSequence)
  {
    var m := maxSequence;
    newBrands := [];
    var i := 0;
    while i < |brands|
      invariant 0 <= i <= |brands|
      invariant m == maxSequence + i
      invariant newBrands == SequencedBrands(brands[..i], maxSequence)
    {
      assert brands[..i + 1][..i] == brands[..i];
      m := m + 1;
      newBrands := newBrands + [Brand(0, brands[i].name, m, false)];
      i := i + 1;
    }
    assert brands[..i] == brands;
  }

  /**
   * `create_brands`: refuses an empty batch, then a batch with an unnamed
   * entry, then a batch naming an active brand; otherwise appends one active
   * row per entry, in submission order, with sequences above every active
   * brand's.
   */
  method CreateBrands(db: CatalogStore, brands: seq<NewBrand>, operator: string) returns (r: Result<Reply, CatalogError>)
    requires db.Valid()
    modifies db.brand
    ensures db.Valid()
    ensures brands == [] ==> r == Failure(EmptyBrands)
    ensures brands != [] && !AllNamed(brands) ==> r == Failure(Validation(EMPTY_BRAND_NAME))
    ensures brands != [] && AllNamed(brands) && IsBrandNamesValid(old(db.brand.rows), brands).Failure? ==>
      r == Failure(Sql(IsBrandNamesValid(old(db.brand.rows), brands).error))
    ensures r.Failure? ==> db.brand.rows == old(db.brand.rows) && db.brand.nextId == old(db.brand.nextId)
    ensures r.Success? <==> brands != [] && AllNamed(brands) && IsBrandNamesValid(old(db.brand.rows), brands).Success?
    ensures r.Success? ==> (r.value == Created &&
      db.brand.rows == old(db.brand.rows) + CreatedBrandRows(old(db.brand.rows), brands, old(db.brand.nextId), operator) &&
      db.brand.nextId == old(db.brand.nextId) + |brands|)
  {
    if brands == [] {
      return Failure(EmptyBrands);
    }
    var valid := ValidateAll(brands);
    if valid.Failure? {
      return Failure(Validation(valid.error));
    }
    var check := IsBrandNamesValid(db.brand.rows, brands);
    if check.Failure? {
      return Failure(Sql(check.error));
    }
    var maxSequence := GetMaxBrandSequence(db.brand.rows);
    var newBrands := AssignSequences(brands, maxSequence);
    SequencedBrandsIncreasing(brands, maxSequence);
    var created := db.brand.CreateBrands(newBrands, operator);
    match created
    case Failure(e) =>
      r := Failure(Sql(e));
    case Success(ok) =>
      r := if ok then Success(Created) else Failure(CreateBrandsFailed);
  }

  /** Every new row's sequence lies above every sequence an active brand had. */
  lemma CreatedSequencesAboveActive(rows: seq<BrandRow>, brands: seq<NewBrand>, nextId: nat, operator: string)
    ensures forall i, k :: 0 <= i < |rows| && IsActive(rows[i].status) && 0 <= k < |brands| ==>
      rows[i].sequence < CreatedBrandRows(rows, brands, nextId, operator)[k].sequence
  {
  }

  /** No two active brands share a name. */
  ghost predicate ActiveNamesUnique(rows: seq<BrandRow>) {
    forall i, j :: 0 <= i < j < |rows| && IsActive(rows[i].status) && IsActive(rows[j].status) ==> rows[i].name != rows[j].name
  }

  /** No two active brands share a sequence. */
  ghost predicate ActiveSequencesUnique(rows: seq<BrandRow>) {
    forall i, j :: 0 <= i < j < |rows| && IsActive(rows[i].status) && IsActive(rows[j].status) ==> rows[i].sequence != rows[j].sequence
  }

  /** No two entries of the batch share a name. */
  predicate DistinctNames(brands: seq<NewBrand>) {
    forall k, l :: 0 <= k < l < |brands| ==> brands[k].name != brands[l].name
  }

  /**
   * A batch that passes the name check keeps active names unique, provided
   * its own entries differ from each other; the handler does not check that.
   */
  lemma CreateKeepsNamesUnique(rows: seq<BrandRow>, brands: seq<NewBrand>, nextId: nat, operator: string)
    requires ActiveNamesUnique(rows)
    requires IsBrandNamesValid(rows, brands).Success?
    requires DistinctNames(brands)
    ensures ActiveNamesUnique(rows + CreatedBrandRows(rows, brands, nextId, operator))
  {
    var added := CreatedBrandRows(rows, brands, nextId, operator);
    var all := rows + added;
    forall i, j | 0 <= i < j < |all| && IsActive(all[i].status) && IsActive(all[j].status)
      ensures all[i].name != all[j].name
    {
      if j >= |rows| {
        var l := j - |rows|;
        assert all[j] == added[l] && added[l].name == brands[l].name;
        if i >= |rows| {
          assert all[i] == added[i - |rows|] && added[i - |rows|].name == brands[i - |rows|].name;
        } else {
          assert all[i] == rows[i];
        }
      } else {
        assert all[i] == rows[i] && all[j] == rows[j];
      }
    }
  }

  /** A batch always keeps active sequences unique: the new ones are above all and distinct. */
  lemma CreateKeepsSequencesUnique(rows: seq<BrandRow>, brands: seq<NewBrand>, nextId: nat, operator: string)
    requires ActiveSequencesUnique(rows)
    ensures ActiveSequencesUnique(rows + CreatedBrandRows(rows, brands, nextId, operator))
  {
    var added := CreatedBrandRows(rows, brands, nextId, operator);
    var all := rows + added;
    var m := GetMaxBrandSequence(rows);
    forall i, j | 0 <= i < j < |all| && IsActive(all[i].status) && IsActive(all[j].status)
      ensures all[i].sequence != all[j].sequence
    {
      if j >= |rows| {
        assert all[j] == added[j - |rows|] && added[j - |rows|].sequence == m + (j - |rows|) + 1;
        if i >= |rows| {
          assert all[i] == added[i - |rows|] && added[i - |rows|].sequence == m + (i - |rows|) + 1;
        } else {
          assert all[i] == rows[i] && rows[i].sequence <= m;
        }
      } else {
        assert all[i] == rows[i] && all[j] == rows[j];
      }
    }
  }

  /**
   * The handler accepts a batch that repeats a name, so two active brands
   * can end up with the same name: the property above needs its requirement.
   */
  lemma RepeatedNameInBatchAccepted()
    ensures IsBrandNamesValid([], [NewBrand("Aster"), NewBrand("Aster")]).Success?
    ensures AllNamed([NewBrand("Aster"), NewBrand("Aster")])
    ensures !ActiveNamesUnique(CreatedBrandRows([], [NewBrand("Aster"), NewBrand("Aster")], 1, "admin"))
  {
    var added := CreatedBrandRows([], [NewBrand("Aster"), NewBrand("Aster")], 1, "admin");
    assert IsActive(added[0].status) && IsActive(added[1].status) && added[0].name == added[1].name;
  }

  /** Retiring the only active brand of a name frees that name for a new batch. */
  lemma DeletedNameReusable(rows: seq<BrandRow>, id: nat, operator: string, name: string)
    requires forall i :: 0 <= i < |rows| && IsActive(rows[i].status) && rows[i].name == name ==> rows[i].id == id
    ensures IsBrandNamesValid(SoftDeleteBrandRows(rows, id, operator), [NewBrand(name)]).Success?
  {
    var r := SoftDeleteBrandRows(rows, id, operator);
    forall i | 0 <= i < |r| && IsActive(r[i].status) ensures r[i].name != name {
      if rows[i].id != id {
        assert r[i] == rows[i];
      }
    }
  }

  // ------------------------------------------------------------ reordering

  function Ids(bss: seq<BrandSequence>): (ids: seq<nat>)
    ensures |ids| == |bss| && forall k :: 0 <= k < |bss| ==> ids[k] == bss[k].id
  {
    seq(|bss|, k requires 0 <= k < |bss| => bss[k].id)
  }

  /** The rows after one `update_brand_sequence` per entry, in list order. */
  function ApplySequences(rows: seq<BrandRow>, bss: seq<BrandSequence>, operator: string): (r: seq<BrandRow>)
    ensures |r| == |rows|
    ensures forall i :: 0 <= i < |rows| && rows[i].id !in Ids(bss) ==> r[i] == rows[i]
    ensures forall i :: 0 <= i < |rows| ==>
      r[i].(sequence := rows[i].sequence, modifier := rows[i].modifier) == rows[i]
  {
    if bss == [] then rows
    else SetSequenceRows(ApplySequences(rows, bss[..|bss| - 1], operator), bss[|bss| - 1], operator)
  }

  /**
   * With no id repeated, each listed brand ends with its submitted sequence
   * (and the operator as modifier), and every other row is untouched.
   */
  lemma {:induction false} ApplySequencesEffect(rows: seq<BrandRow>, bss: seq<BrandSequence>, operator: string)
    requires Distinct(Ids(bss))
    ensures forall i :: 0 <= i < |rows| && rows[i].id !in Ids(bss) ==> ApplySequences(rows, bss, operator)[i] == rows[i]
    ensures forall i, k :: 0 <= i < |rows| && 0 <= k < |bss| && rows[i].id == bss[k].id ==>
      ApplySequences(rows, bss, operator)[i] == rows[i].(sequence := bss[k].sequence, modifier := Some(operator))
  {
    if bss != [] {
      var n := |bss| - 1;
      var front := bss[..n];
      assert Ids(front) == Ids(bss)[..n];
      assert Distinct(Ids(front));
      ApplySequencesEffect(rows, front, operator);
      var mid := ApplySequences(rows, front, operator);
      var r := ApplySequences(rows, bss, operator);
      assert r == SetSequenceRows(mid, bss[n], operator);
      forall i | 0 <= i < |rows| && rows[i].id !in Ids(bss) ensures r[i] == rows[i] {
        assert rows[i].id !in Ids(front) && rows[i].id != bss[n].id;
        assert mid[i] == rows[i];
      }
      forall i, k | 0 <= i < |rows| && 0 <= k < |bss| && rows[i].id == bss[k].id
        ensures r[i] == rows[i].(sequence := bss[k].sequence, modifier := Some(operator))
      {
        if k == n {
          assert mid[i] == rows[i];
        } else {
          assert front[k] == bss[k];
          assert Ids(bss)[k] != Ids(bss)[n];
        }
      }
    }
  }

  /**
   * `update_brands_sequence`: a one-entry request changes nothing; any other
   * request must name distinct active brands only, and then sets each
   * listed brand's sequence in turn.
   */
  method UpdateBrandsSequence(db: CatalogStore, bss: seq<BrandSequence>, operator: string) returns (r: Result<Reply, CatalogError>)
    requires db.Valid()
    modifies db.brand
    ensures db.Valid() && db.brand.nextId == old(db.brand.nextId)
    ensures |bss| == 1 ==> r == Success(Ok) && db.brand.rows == old(db.brand.rows)
    ensures |bss| != 1 && IsBrandIdsValid(old(db.brand.rows), Ids(bss)).Failure? ==>
      r == Failure(Sql(IsBrandIdsValid(old(db.brand.rows), Ids(bss)).error)) && db.brand.rows == old(db.brand.rows)
    ensures |bss| != 1 && IsBrandIdsValid(old(db.brand.rows), Ids(bss)).Success? ==>
      r == Success(Ok) && db.brand.rows == ApplySequences(old(db.brand.rows), bss, operator)
  {
    if |bss| == 1 {
      return Success(Ok);
    }
    var ids := Ids(bss);
    var check := IsBrandIdsValid(db.brand.rows, ids);
    if check.Failure? {
      return Failure(Sql(check.error));
    }
    ghost var start := db.brand.rows;
    var i := 0;
    while i < |bss|
      invariant 0 <= i <= |bss|
      invariant db.Valid() && db.brand.nextId == old(db.brand.nextId)
      invariant db.brand.rows == ApplySequences(start, bss[..i], operator)
    {
      assert bss[..i + 1][..i] == bss[..i];
      var _ := db.brand.UpdateBrandSequence(bss[i], operator);
      i := i + 1;
    }
    assert bss[..i] == bss;
    r := Success(Ok);
  }

  /** A successful reorder gives each listed brand its sequence and leaves the unlisted ones as they were. */
  lemma ReorderEffect(rows: seq<BrandRow>, bss: seq<BrandSequence>, operator: string)
    requires SortBy.StrictlyIncreasing(rows, BrandRowId)
    requires IsBrandIdsValid(rows, Ids(bss)).Success?
    ensures forall k :: 0 <= k < |bss| ==> bss[k].id in ActiveBrandIds(rows)
    ensures forall i :: 0 <= i < |rows| && rows[i].id !in Ids(bss) ==> ApplySequences(rows, bss, operator)[i] == rows[i]
    ensures forall i, k :: 0 <= i < |rows| && 0 <= k < |bss| && rows[i].id == bss[k].id ==>
      ApplySequences(rows, bss, operator)[i] == rows[i].(sequence := bss[k].sequence, modifier := Some(operator))
  {
    IsBrandIdsValidIff(rows, Ids(bss));
    ApplySequencesEffect(rows, bss, operator);
  }

  // ------------------------------------------------------------- deletions

  /** A soft delete of an id no row has changes nothing. */
  lemma SoftDeleteMissingBrand(rows: seq<BrandRow>, id: nat, operator: string)
    requires !HasBrandId(rows, id)
    ensures SoftDeleteBrandRows(rows, id, operator) == rows
  {
  }

  /** `delete_brand`: retires the brand; fails when no row has the id. */
  method DeleteBrand(db: CatalogStore, id: nat, operator: string) returns (r: Result<Reply, CatalogError>)
    requires db.Valid()
    modifies db.brand
    ensures db.Valid() && db.brand.nextId == old(db.brand.nextId)
    ensures db.brand.rows == SoftDeleteBrandRows(old(db.brand.rows), id, operator)
    ensures r == if HasBrandId(old(db.brand.rows), id) then Success(NoContent) else Failure(DeleteBrandFailed(id))
  {
    var ok := db.brand.DeleteBrand(id, operator);
    if ok {
      return Success(NoContent);
    }
    return Failure(DeleteBrandFailed(id));
  }

  // -------------------------------------------------------------- products

  /** `create_product`: refuses an unnamed product, otherwise appends it under its own `brand_id`. */
  method CreateProduct(db: CatalogStore, p: NewProduct, operator: string) returns (r: Result<Reply, CatalogError>)
    requires db.Valid()
    modifies db.product
    ensures db.Valid()
    ensures p.name == [] ==> (r == Failure(Validation(EMPTY_PRODUCT_NAME)) &&
      db.product.rows == old(db.product.rows) && db.product.nextId == old(db.product.nextId))
    ensures p.name != [] ==> (r == Success(CreatedId(old(db.product.nextId))) &&
      db.product.rows == old(db.product.rows) + [NewProductRow(old(db.product.nextId), p, p.brandId, operator)] &&
      db.product.nextId == old(db.product.nextId) + 1)
  {
    var v := ValidateNewProduct(p);
    if v.Failure? {
      return Failure(Validation(v.error));
    }
    var id := db.product.CreateProduct(p, p.brandId, operator);
    r := Success(CreatedId(id));
  }

  /** `update_product`: the product must be active; then every submitted column is written. */
  method UpdateProduct(db: CatalogStore, id: nat, p: NewProduct, operator: string) returns (r: Result<Reply, CatalogError>)
    requires db.Valid()
    modifies db.product
    ensures db.Valid() && db.product.nextId == old(db.product.nextId)
    ensures !IsProductValid(old(db.product.rows), id) ==>
      r == Failure(ProductNotExist(id)) && db.product.rows == old(db.product.rows)
    ensures IsProductValid(old(db.product.rows), id) ==>
      r == Success(Ok) && db.product.rows == UpdateProductRows(old(db.product.rows), id, p, operator)
  {
    if !IsProductValid(db.product.rows, id) {
      return Failure(ProductNotExist(id));
    }
    var ok := db.product.UpdateProduct(id, p, operator);
    r := if ok then Success(Ok) else Failure(UpdateProductFailed(id));
  }

  /** `delete_product`: retires the product; fails when no row has the id. */
  method DeleteProduct(db: CatalogStore, id: nat, operator: string) returns (r: Result<Reply, CatalogError>)
    requires db.Valid()
    modifies db.product
    ensures db.Valid() && db.product.nextId == old(db.product.nextId)
    ensures db.product.rows == SoftDeleteProductRows(old(db.product.rows), id, operator)
    ensures r == if HasProductId(old(db.product.rows), id) then Success(NoContent) else Failure(DeleteProductFailed(id))
  {
    var ok := db.product.DeleteProduct(id, operator);
    if ok {
      return Success(NoContent);
    }
    return Failure(DeleteProductFailed(id));
  }

  // -------------------------------------------------------------- hot list

  /** `add_hot_product`: retires the whole hot list, then appends the new ids, if any. */
  method AddHotProduct(db: CatalogStore, ids: seq<nat>, operator: string) returns (r: Result<Reply, CatalogError>)
    requires db.Valid()
    modifies db.hotProduct
    ensures db.Valid() && r == Success(Ok)
    ensures db.hotProduct.rows == InvalidateHotRows(old(db.hotProduct.rows), operator) + NewHotRows(ids, old(db.hotProduct.nextId), operator)
    ensures db.hotProduct.nextId == old(db.hotProduct.nextId) + |ids|
    ensures GetHotProducts(db.hotProduct.rows) == HotProductsOf(ids)
  {
    var _ := db.hotProduct.DeleteHotProducts(operator);
    ghost var cleared := db.hotProduct.rows;
    if ids != [] {
      var _ := db.hotProduct.CreateHotProducts(ids, operator);
    }
    assert NewHotRows([], old(db.hotProduct.nextId), operator) == [];
    HotListReplaced(old(db.hotProduct.rows), ids, old(db.hotProduct.nextId), operator);
    r := Success(Ok);
  }

  /** Invalidating then appending leaves exactly the new ids, in order, on the hot list. */
  lemma HotListReplaced(rows: seq<HotProductRow>, ids: seq<nat>, firstId: nat, operator: string)
    ensures GetHotProducts(InvalidateHotRows(rows, operator) + NewHotRows(ids, firstId, operator)) == HotProductsOf(ids)
  {
    GetHotProductsAppend(InvalidateHotRows(rows, operator), NewHotRows(ids, firstId, operator));
    InvalidatedHotListEmpty(rows, operator);
    NewHotRowsRead(ids, firstId, operator);
  }
}
