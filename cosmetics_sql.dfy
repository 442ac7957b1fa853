/**
 * The catalog tables `brand`, `product` and `hot_product` and the queries the
 * backend runs on them. Every table is kept in ascending id order (ids come
 * from an AUTO_INCREMENT counter), rows are never removed, and a row is
 * retired by setting its `status` code to `Invalid`'s. Queries are functions
 * of the rows; statements that write are methods of the table classes.
 */
module CosmeticsSql {
  import opened Wrappers
  import opened Models
  import opened CosmeticsModels
  import SortBy

  datatype BrandRow = BrandRow(
    id: nat, name: string, sequence: int, status: int,
    creator: string, modifier: Option<string>)

  datatype ProductRow = ProductRow(
    id: nat, name: string, alias: string, title: string, subtitle: string,
    brandId: nat, sellPrice: Decimal, imgUrl: string, status: int,
    extra: ProductExtra, creator: string, modifier: Option<string>)

  datatype HotProductRow = HotProductRow(
    id: nat, productId: nat, status: int, creator: string, modifier: Option<string>)

  /** Failures of the queries that the core can provoke. */
  datatype SqlError =
    | QuerySyntax                       // a statement built from an empty list: `IN ()`, or `VALUES` with no row
    | BrandNamesExist(names: set<string>)
    | BrandIdsNotMatch(ids: seq<nat>)
    | BrandNameNotFound(name: string)

  function BrandRowId(r: BrandRow): int { r.id }
  function BrandRowSequence(r: BrandRow): int { r.sequence }
  function BrandIdKey(b: Brand): int { b.id }
  function BrandSequenceKey(b: Brand): int { b.sequence }
  function ProductRowId(r: ProductRow): int { r.id }
  function HotRowId(r: HotProductRow): int { r.id }

  // ---------------------------------------------------------------- brands

  /** The largest sequence among active rows, `None` when no row is active. */
  function MaxActiveSequence(rows: seq<BrandRow>): (r: Option<int>)
    ensures r.None? <==> forall i :: 0 <= i < |rows| ==> !IsActive(rows[i].status)
    ensures r.Some? ==> exists i :: 0 <= i < |rows| && IsActive(rows[i].status) && rows[i].sequence == r.value
    ensures r.Some? ==> forall i :: 0 <= i < |rows| && IsActive(rows[i].status) ==> rows[i].sequence <= r.value
  {
    if rows == [] then
      None
    else
      var rest := MaxActiveSequence(rows[1..]);
      assert forall i :: 1 <= i < |rows| ==> rows[i] == rows[1..][i - 1];
      if !IsActive(rows[0].status) then rest
      else if rest.Some? && rows[0].sequence <= rest.value then rest
      else Some(rows[0].sequence)
  }

  /** `get_max_brand_sequence`: `COALESCE(MAX(sequence), 0)` over the active brands. */
  function GetMaxBrandSequence(rows: seq<BrandRow>): (m: int)
    ensures forall i :: 0 <= i < |rows| && IsActive(rows[i].status) ==> rows[i].sequence <= m
    ensures (exists i :: 0 <= i < |rows| && IsActive(rows[i].status)) ==>
      exists i :: 0 <= i < |rows| && IsActive(rows[i].status) && rows[i].sequence == m
    ensures (forall i :: 0 <= i < |rows| ==> !IsActive(rows[i].status)) ==> m == 0
  {
    MaxActiveSequence(rows).GetOr(0)
  }

  function BrandNames(brands: seq<NewBrand>): (names: seq<string>)
    ensures |names| == |brands|
    ensures forall k :: 0 <= k < |brands| ==> names[k] == brands[k].name
    ensures forall k :: 0 <= k < |brands| ==> brands[k].name in names
  {
    seq(|brands|, k requires 0 <= k < |brands| => brands[k].name)
  }

  /** The `SELECT DISTINCT name ... WHERE name IN (names) AND status = 0` result. */
  function ActiveNameClashes(rows: seq<BrandRow>, names: seq<string>): (c: set<string>)
    ensures forall n :: n in c <==> n in names && exists i :: 0 <= i < |rows| && IsActive(rows[i].status) && rows[i].name == n
  {
    set i | 0 <= i < |rows| && IsActive(rows[i].status) && rows[i].name in names :: rows[i].name
  }

  /**
   * `is_brand_names_valid`: fails, naming the clashes, when a submitted name
   * is the name of an active brand; retired brands never clash.
   */
  function IsBrandNamesValid(rows: seq<BrandRow>, brands: seq<NewBrand>): (r: Result<bool, SqlError>)
    ensures r.Success? ==> r.value
    ensures r.Success? <==> (brands != [] &&
      forall k, i :: 0 <= k < |brands| && 0 <= i < |rows| && IsActive(rows[i].status) ==> rows[i].name != brands[k].name)
    ensures brands == [] ==> r == Failure(QuerySyntax)
    ensures brands != [] && r.Failure? ==> r.error.BrandNamesExist? && r.error.names != {}
    ensures brands != [] && r.Failure? ==> r.error == BrandNamesExist(ActiveNameClashes(rows, BrandNames(brands)))
  {
    if brands == [] then
      Failure(QuerySyntax)
    else
      var clashes := ActiveNameClashes(rows, BrandNames(brands));
      if clashes != {} then Failure(BrandNamesExist(clashes)) else Success(true)
  }

  /** The ids of the active brands. */
  function ActiveBrandIds(rows: seq<BrandRow>): (s: set<nat>)
    ensures forall x :: x in s <==> exists i :: 0 <= i < |rows| && IsActive(rows[i].status) && rows[i].id == x
  {
    if rows == [] then
      {}
    else
      var rest := ActiveBrandIds(rows[1..]);
      assert forall i :: 1 <= i < |rows| ==> rows[i] == rows[1..][i - 1];
      (if IsActive(rows[0].status) then {rows[0].id} else {}) + rest
  }

  /**
   * How many rows `SELECT id FROM brand WHERE id IN (ids) AND status = 0`
   * returns (src/sql/cosmetics.rs:155-160); `IsBrandIdsValid` compares it with
   * the number of submitted ids.
   */
  function MatchingActiveRows(rows: seq<BrandRow>, ids: seq<nat>): nat {
    if rows == [] then 0
    else (if IsActive(rows[0].status) && rows[0].id in ids then 1 else 0) + MatchingActiveRows(rows[1..], ids)
  }

  /** `is_brand_ids_valid`: the query must return one row per submitted id. */
  function IsBrandIdsValid(rows: seq<BrandRow>, ids: seq<nat>): (r: Result<bool, SqlError>)
    ensures r.Success? ==> r.value
    ensures ids == [] ==> r == Failure(QuerySyntax)
    ensures ids != [] && r.Failure? ==> r.error == BrandIdsNotMatch(ids)
  {
    if ids == [] then Failure(QuerySyntax)
    else if MatchingActiveRows(rows, ids) != |ids| then Failure(BrandIdsNotMatch(ids))
    else Success(true)
  }

  predicate Distinct(ids: seq<nat>) {
    forall i, j :: 0 <= i < j < |ids| ==> ids[i] != ids[j]
  }

  function IdSet(ids: seq<nat>): (s: set<nat>)
    ensures forall x :: x in s <==> x in ids
  {
    if ids == [] then {} else {ids[0]} + IdSet(ids[1..])
  }

  /** A sequence is repetition-free exactly when its head is not repeated and its tail is repetition-free. */
  lemma DistinctCons(ids: seq<nat>)
    requires ids != []
    ensures Distinct(ids) <==> ids[0] !in ids[1..] && Distinct(ids[1..])
  {
    var rest := ids[1..];
    if Distinct(ids) {
      forall i, j | 0 <= i < j < |rest| ensures rest[i] != rest[j] {
        assert rest[i] == ids[i + 1] && rest[j] == ids[j + 1];
      }
      forall j | 0 <= j < |rest| ensures rest[j] != ids[0] {
        assert rest[j] == ids[j + 1];
      }
    }
    if ids[0] !in rest && Distinct(rest) {
      forall i, j | 0 <= i < j < |ids| ensures ids[i] != ids[j] {
        if i == 0 {
          assert ids[j] == rest[j - 1];
        } else {
          assert ids[i] == rest[i - 1] && ids[j] == rest[j - 1];
        }
      }
    }
  }

  /** The set of submitted ids is as large as the list exactly when no id repeats. */
  lemma {:induction false} IdSetCard(ids: seq<nat>)
    ensures |IdSet(ids)| <= |ids|
    ensures |IdSet(ids)| == |ids| <==> Distinct(ids)
  {
    if ids != [] {
      var rest := ids[1..];
      IdSetCard(rest);
      DistinctCons(ids);
      assert IdSet(ids) == {ids[0]} + IdSet(rest);
      if ids[0] in rest {
        assert IdSet(ids) == IdSet(rest);
      } else {
        assert |IdSet(ids)| == 1 + |IdSet(rest)|;
      }
    }
  }

  /** Intersecting with `a` keeps all of `b` exactly when `b` lies within `a`. */
  lemma IntersectionCard(a: set<nat>, b: set<nat>)
    ensures |a * b| <= |b|
    ensures |a * b| == |b| <==> b <= a
  {
    SubsetCard(a * b, b);
    if b <= a {
      assert a * b == b;
    } else {
      var x :| x in b && x !in a;
      SubsetCard(a * b, b - {x});
    }
  }

  lemma {:induction false} SubsetCard(x: set<nat>, y: set<nat>)
    requires x <= y
    ensures |x| <= |y|
  {
    if x != {} {
      var e :| e in x;
      SubsetCard(x - {e}, y - {e});
    }
  }

  lemma DisjointUnionCard(a: set<nat>, b: set<nat>, c: set<nat>)
    requires a * b == {}
    ensures |(a + b) * c| == |a * c| + |b * c|
  {
    assert (a + b) * c == (a * c) + (b * c);
    assert (a * c) * (b * c) == {};
  }

  /** In an id-ordered table the first row's id comes back nowhere later, and the rest stays ordered. */
  lemma HeadIdNotRepeated(rows: seq<BrandRow>)
    requires rows != [] && SortBy.StrictlyIncreasing(rows, BrandRowId)
    ensures SortBy.StrictlyIncreasing(rows[1..], BrandRowId)
    ensures rows[0].id !in ActiveBrandIds(rows[1..])
  {
    var rest := rows[1..];
    assert rows == [rows[0]] + rest;
    SortBy.StrictlyIncreasingCons(rows[0], rest, BrandRowId);
    forall i | 0 <= i < |rest| ensures rest[i].id != rows[0].id {
      assert rest[i] in rest;
    }
  }

  lemma {:induction false} MatchingActiveRowsCard(rows: seq<BrandRow>, ids: seq<nat>)
    requires SortBy.StrictlyIncreasing(rows, BrandRowId)
    ensures MatchingActiveRows(rows, ids) == |ActiveBrandIds(rows) * IdSet(ids)|
  {
    if rows != [] {
      var rest := rows[1..];
      HeadIdNotRepeated(rows);
      MatchingActiveRowsCard(rest, ids);
      var others := ActiveBrandIds(rest);
      var head: set<nat> := if IsActive(rows[0].status) then {rows[0].id} else {};
      assert ActiveBrandIds(rows) == head + others;
      DisjointUnionCard(head, others, IdSet(ids));
      assert |head * IdSet(ids)| == if IsActive(rows[0].status) && rows[0].id in ids then 1 else 0 by {
        if IsActive(rows[0].status) && rows[0].id in ids {
          assert head * IdSet(ids) == {rows[0].id};
        } else {
          assert head * IdSet(ids) == {};
        }
      }
    }
  }

  /**
   * The id check passes exactly when the list is non-empty, has no repeated
   * id, and names only active brands: an unknown, retired or repeated id
   * makes the counts differ.
   */
  lemma IsBrandIdsValidIff(rows: seq<BrandRow>, ids: seq<nat>)
    requires SortBy.StrictlyIncreasing(rows, BrandRowId)
    ensures IsBrandIdsValid(rows, ids).Success? <==>
      ids != [] && Distinct(ids) && forall k :: 0 <= k < |ids| ==> ids[k] in ActiveBrandIds(rows)
  {
    MatchingActiveRowsCard(rows, ids);
    IdSetCard(ids);
    IntersectionCard(ActiveBrandIds(rows), IdSet(ids));
    if IdSet(ids) <= ActiveBrandIds(rows) {
      assert forall k :: 0 <= k < |ids| ==> ids[k] in IdSet(ids);
    }
    if forall k :: 0 <= k < |ids| ==> ids[k] in ActiveBrandIds(rows) {
      forall x | x in IdSet(ids) ensures x in ActiveBrandIds(rows) {
        var k :| 0 <= k < |ids| && ids[k] == x;
      }
    }
  }

  /** The active rows, in table order. */
  function ActiveBrandRows(rows: seq<BrandRow>): (r: seq<BrandRow>)
    ensures |r| <= |rows|
    ensures forall x :: x in r <==> x in rows && IsActive(x.status)
  {
    if rows == [] then []
    else
      assert forall x :: x in rows <==> x == rows[0] || x in rows[1..];
      (if IsActive(rows[0].status) then [rows[0]] else []) + ActiveBrandRows(rows[1..])
  }

  lemma {:induction false} ActiveBrandRowsOrdered(rows: seq<BrandRow>)
    requires SortBy.StrictlyIncreasing(rows, BrandRowId)
    ensures SortBy.StrictlyIncreasing(ActiveBrandRows(rows), BrandRowId)
  {
    if rows != [] {
      var rest := ActiveBrandRows(rows[1..]);
      assert rows == [rows[0]] + rows[1..];
      SortBy.StrictlyIncreasingCons(rows[0], rows[1..], BrandRowId);
      ActiveBrandRowsOrdered(rows[1..]);
      forall y | y in rest ensures BrandRowId(rows[0]) < BrandRowId(y) {
        assert y in rows[1..];
      }
      if IsActive(rows[0].status) {
        SortBy.StrictlyIncreasingCons(rows[0], rest, BrandRowId);
        assert ActiveBrandRows(rows) == [rows[0]] + rest;
      }
    }
  }

  /** How a brand row is listed. */
  function BrandOf(r: BrandRow): Brand {
    Brand(r.id, r.name, r.sequence, false)
  }

  /** The listing of a sequence of rows. */
  function BrandsOf(rs: seq<BrandRow>): (r: seq<Brand>)
    ensures |r| == |rs|
    ensures forall k :: 0 <= k < |rs| ==> r[k] == BrandOf(rs[k])
    ensures forall b :: b in r <==> exists x :: x in rs && b == BrandOf(x)
  {
    if rs == [] then [] else [BrandOf(rs[0])] + BrandsOf(rs[1..])
  }

  /** The active rows in `ORDER BY sequence, id` order: a stable sort by sequence of the id-ordered table. */
  function SortedActiveBrandRows(rows: seq<BrandRow>): (r: seq<BrandRow>)
    ensures |r| == |ActiveBrandRows(rows)|
    ensures forall x :: x in r <==> x in rows && IsActive(x.status)
  {
    var active := ActiveBrandRows(rows);
    var sorted := SortBy.Sort(active, BrandRowSequence);
    assert forall x :: x in sorted <==> x in multiset(active);
    sorted
  }

  /** `get_all_brands`: every active brand, nothing else, ordered by sequence and then id. */
  function GetAllBrands(rows: seq<BrandRow>): (r: seq<Brand>)
    ensures |r| == |ActiveBrandRows(rows)|
    ensures forall b :: b in r <==> exists x :: x in rows && IsActive(x.status) && b == BrandOf(x)
  {
    BrandsOf(SortedActiveBrandRows(rows))
  }

  /** In a table kept in id order, the listing is strictly ordered by (sequence, id) and no brand is marked hot. */
  lemma GetAllBrandsOrdered(rows: seq<BrandRow>)
    requires SortBy.StrictlyIncreasing(rows, BrandRowId)
    ensures SortBy.LexSorted(GetAllBrands(rows), BrandSequenceKey, BrandIdKey)
    ensures forall b :: b in GetAllBrands(rows) ==> !b.isHot
  {
    ActiveBrandRowsOrdered(rows);
    SortBy.SortIsStable(ActiveBrandRows(rows), BrandRowSequence, BrandRowId);
  }

  /** `get_brands`: one page of the full listing, at most MAX_ROWS long and MAX_ROWS by default. */
  function GetBrands(rows: seq<BrandRow>, paging: Paging): (r: seq<Brand>)
    ensures |r| <= Limit(paging, MAX_ROWS) <= MAX_ROWS
    ensures |r| == PageLength(|GetAllBrands(rows)|, paging, MAX_ROWS)
    ensures forall k :: 0 <= k < |r| ==>
      Offset(paging) + k < |GetAllBrands(rows)| && r[k] == GetAllBrands(rows)[Offset(paging) + k]
  {
    Page(GetAllBrands(rows), paging, MAX_ROWS)
  }

  /** `get_brand_id`: the id of an active brand with that name. */
  function GetBrandId(rows: seq<BrandRow>, name: string): (r: Result<nat, SqlError>)
    ensures r.Failure? <==> forall i :: 0 <= i < |rows| && IsActive(rows[i].status) ==> rows[i].name != name
    ensures r.Failure? ==> r.error == BrandNameNotFound(name)
    ensures r.Success? ==> exists i :: 0 <= i < |rows| && IsActive(rows[i].status) && rows[i].name == name && rows[i].id == r.value
  {
    if rows == [] then
      Failure(BrandNameNotFound(name))
    else if IsActive(rows[0].status) && rows[0].name == name then
      Success(rows[0].id)
    else
      var rest := GetBrandId(rows[1..], name);
      assert forall i :: 1 <= i < |rows| ==> rows[i] == rows[1..][i - 1];
      rest
  }

  /** Whether a row with this id exists, whatever its status: `rows_affected() > 0` of an update by id. */
  predicate HasBrandId(rows: seq<BrandRow>, id: nat) {
    exists i :: 0 <= i < |rows| && rows[i].id == id
  }

  /** The rows after `UPDATE brand SET status = 1, modifier = operator WHERE id = id`. */
  function SoftDeleteBrandRows(rows: seq<BrandRow>, id: nat, operator: string): (r: seq<BrandRow>)
    ensures |r| == |rows|
    ensures forall i :: 0 <= i < |rows| && rows[i].id != id ==> r[i] == rows[i]
    ensures forall i :: 0 <= i < |rows| && rows[i].id == id ==>
      r[i].status == CommonStatus.Invalid.Code() && r[i].modifier == Some(operator) &&
      r[i].(status := rows[i].status, modifier := rows[i].modifier) == rows[i]
  {
    seq(|rows|, i requires 0 <= i < |rows| =>
      if rows[i].id == id then rows[i].(status := CommonStatus.Invalid.Code(), modifier := Some(operator)) else rows[i])
  }

  /** The rows after `UPDATE brand SET sequence = bs.sequence, modifier = operator WHERE id = bs.id`. */
  function SetSequenceRows(rows: seq<BrandRow>, bs: BrandSequence, operator: string): (r: seq<BrandRow>)
    ensures |r| == |rows|
    ensures forall i :: 0 <= i < |rows| && rows[i].id != bs.id ==> r[i] == rows[i]
    ensures forall i :: 0 <= i < |rows| && rows[i].id == bs.id ==>
      r[i].sequence == bs.sequence && r[i].modifier == Some(operator) &&
      r[i].(sequence := rows[i].sequence, modifier := rows[i].modifier) == rows[i]
  {
    seq(|rows|, i requires 0 <= i < |rows| =>
      if rows[i].id == bs.id then rows[i].(sequence := bs.sequence, modifier := Some(operator)) else rows[i])
  }

  /** The rows a batch insert appends: consecutive ids from `firstId`, active, created by `operator`. */
  function NewBrandRows(brands: seq<Brand>, firstId: nat, operator: string): (r: seq<BrandRow>)
    ensures |r| == |brands|
    ensures forall k :: 0 <= k < |brands| ==>
      r[k].id == firstId + k && r[k].name == brands[k].name && r[k].sequence == brands[k].sequence &&
      IsActive(r[k].status) && r[k].creator == operator && r[k].modifier.None?
  {
    seq(|brands|, k requires 0 <= k < |brands| =>
      BrandRow(firstId + k, brands[k].name, brands[k].sequence, CommonStatus.Valid.Code(), operator, None))
  }

  // -------------------------------------------------------------- products

  /** `is_product_valid`: some active product has this id. */
  function IsProductValid(rows: seq<ProductRow>, id: nat): (b: bool)
    ensures b <==> exists i :: 0 <= i < |rows| && rows[i].id == id && IsActive(rows[i].status)
  {
    if rows == [] then false
    else
      assert forall i :: 1 <= i < |rows| ==> rows[i] == rows[1..][i - 1];
      (rows[0].id == id && IsActive(rows[0].status)) || IsProductValid(rows[1..], id)
  }

  predicate HasProductId(rows: seq<ProductRow>, id: nat) {
    exists i :: 0 <= i < |rows| && rows[i].id == id
  }

  /** The row `create_product` inserts. */
  function NewProductRow(id: nat, p: NewProduct, brandId: nat, operator: string): ProductRow {
    ProductRow(id, p.name, p.alias, p.title, p.subtitle, brandId, p.sellPrice, p.imgUrl,
               p.status, p.extra, operator, None)
  }

  /** The rows after `update_product`: the matching rows take every submitted column, including `status`. */
  function UpdateProductRows(rows: seq<ProductRow>, id: nat, p: NewProduct, operator: string): (r: seq<ProductRow>)
    ensures |r| == |rows|
    ensures forall i :: 0 <= i < |rows| && rows[i].id != id ==> r[i] == rows[i]
    ensures forall i :: 0 <= i < |rows| && rows[i].id == id ==>
      r[i] == NewProductRow(id, p, p.brandId, rows[i].creator).(modifier := Some(operator))
  {
    seq(|rows|, i requires 0 <= i < |rows| =>
      if rows[i].id == id then NewProductRow(id, p, p.brandId, rows[i].creator).(modifier := Some(operator))
      else rows[i])
  }

  /** The rows after `UPDATE product SET status = 1, modifier = operator WHERE id = id`. */
  function SoftDeleteProductRows(rows: seq<ProductRow>, id: nat, operator: string): (r: seq<ProductRow>)
    ensures |r| == |rows|
    ensures forall i :: 0 <= i < |rows| && rows[i].id != id ==> r[i] == rows[i]
    ensures forall i :: 0 <= i < |rows| && rows[i].id == id ==>
      r[i].status == CommonStatus.Invalid.Code() && r[i].modifier == Some(operator) &&
      r[i].(status := rows[i].status, modifier := rows[i].modifier) == rows[i]
  {
    seq(|rows|, i requires 0 <= i < |rows| =>
      if rows[i].id == id then rows[i].(status := CommonStatus.Invalid.Code(), modifier := Some(operator)) else rows[i])
  }

  /** After a soft delete the product no longer passes `is_product_valid`; other products keep their verdict. */
  lemma SoftDeleteProductInvalidates(rows: seq<ProductRow>, id: nat, operator: string, other: nat)
    requires other != id
    ensures !IsProductValid(SoftDeleteProductRows(rows, id, operator), id)
    ensures IsProductValid(SoftDeleteProductRows(rows, id, operator), other) == IsProductValid(rows, other)
  {
    var r := SoftDeleteProductRows(rows, id, operator);
    if IsProductValid(rows, other) {
      var i :| 0 <= i < |rows| && rows[i].id == other && IsActive(rows[i].status);
      assert r[i] == rows[i];
    }
    if IsProductValid(r, other) {
      var i :| 0 <= i < |r| && r[i].id == other && IsActive(r[i].status);
      assert r[i] == rows[i];
    }
  }

  /** How a product is listed on its brand's page. */
  function BrandItemOf(p: ProductRow): BrandItem {
    BrandItem(p.id, p.name, p.title, p.subtitle, p.imgUrl)
  }

  /** The active products of one brand, in id order. */
  function ActiveProductsOfBrand(rows: seq<ProductRow>, brandId: nat): (r: seq<ProductRow>)
    ensures |r| <= |rows|
    ensures forall x :: x in r <==> x in rows && IsActive(x.status) && x.brandId == brandId
  {
    if rows == [] then []
    else
      assert forall x :: x in rows <==> x == rows[0] || x in rows[1..];
      (if IsActive(rows[0].status) && rows[0].brandId == brandId then [rows[0]] else [])
        + ActiveProductsOfBrand(rows[1..], brandId)
  }

  lemma {:induction false} ActiveProductsOfBrandOrdered(rows: seq<ProductRow>, brandId: nat)
    requires SortBy.StrictlyIncreasing(rows, ProductRowId)
    ensures SortBy.StrictlyIncreasing(ActiveProductsOfBrand(rows, brandId), ProductRowId)
  {
    if rows != [] {
      var rest := ActiveProductsOfBrand(rows[1..], brandId);
      assert rows == [rows[0]] + rows[1..];
      SortBy.StrictlyIncreasingCons(rows[0], rows[1..], ProductRowId);
      ActiveProductsOfBrandOrdered(rows[1..], brandId);
      forall y | y in rest ensures ProductRowId(rows[0]) < ProductRowId(y) {
        assert y in rows[1..];
      }
      if IsActive(rows[0].status) && rows[0].brandId == brandId {
        SortBy.StrictlyIncreasingCons(rows[0], rest, ProductRowId);
        assert ActiveProductsOfBrand(rows, brandId) == [rows[0]] + rest;
      }
    }
  }

  /** How a run of product rows is listed on a brand's page. */
  function BrandItemsOf(ps: seq<ProductRow>): (r: seq<BrandItem>)
    ensures |r| == |ps|
    ensures forall k :: 0 <= k < |ps| ==> r[k] == BrandItemOf(ps[k])
    ensures forall item :: item in r <==> exists x :: x in ps && item == BrandItemOf(x)
  {
    if ps == [] then [] else [BrandItemOf(ps[0])] + BrandItemsOf(ps[1..])
  }

  /** `get_brand_detail`: a page (MIN_ROWS by default, never above MAX_ROWS) of the brand's active products. */
  function GetBrandDetail(rows: seq<ProductRow>, brandId: nat, paging: Paging): (r: seq<BrandItem>)
    ensures |r| <= Limit(paging, MIN_ROWS) <= MAX_ROWS
    ensures paging.limit.None? ==> |r| <= MIN_ROWS
    ensures |r| == PageLength(|ActiveProductsOfBrand(rows, brandId)|, paging, MIN_ROWS)
    ensures forall k :: 0 <= k < |r| ==> (Offset(paging) + k < |ActiveProductsOfBrand(rows, brandId)| &&
      r[k] == BrandItemOf(ActiveProductsOfBrand(rows, brandId)[Offset(paging) + k]))
    ensures forall item :: item in r ==> exists x :: x in rows && IsActive(x.status) && x.brandId == brandId && item == BrandItemOf(x)
  {
    var items := BrandItemsOf(ActiveProductsOfBrand(rows, brandId));
    var page := Page(items, paging, MIN_ROWS);
    assert forall item :: item in page ==> item in items;
    page
  }

  function BrandItemId(b: BrandItem): int { b.id }

  lemma BrandItemsOfOrdered(ps: seq<ProductRow>)
    requires SortBy.StrictlyIncreasing(ps, ProductRowId)
    ensures SortBy.StrictlyIncreasing(BrandItemsOf(ps), BrandItemId)
  {
    var items := BrandItemsOf(ps);
    forall i, j | 0 <= i < j < |items| ensures BrandItemId(items[i]) < BrandItemId(items[j]) {
      assert ProductRowId(ps[i]) < ProductRowId(ps[j]);
    }
  }

  /** In an id-ordered table the brand's page is in ascending product id order. */
  lemma GetBrandDetailOrdered(rows: seq<ProductRow>, brandId: nat, paging: Paging)
    requires SortBy.StrictlyIncreasing(rows, ProductRowId)
    ensures SortBy.StrictlyIncreasing(GetBrandDetail(rows, brandId, paging), BrandItemId)
  {
    ActiveProductsOfBrandOrdered(rows, brandId);
    BrandItemsOfOrdered(ActiveProductsOfBrand(rows, brandId));
    PageOrdered(BrandItemsOf(ActiveProductsOfBrand(rows, brandId)), paging, MIN_ROWS, BrandItemId);
  }

  /** The brand a product joins with: `JOIN brand b ON p.brand_id = b.id`, whatever the brand's status. */
  function BrandNameOf(brands: seq<BrandRow>, id: nat): (r: Option<string>)
    ensures r.None? <==> !HasBrandId(brands, id)
    ensures r.Some? ==> exists i :: 0 <= i < |brands| && brands[i].id == id && brands[i].name == r.value
  {
    if brands == [] then None
    else if brands[0].id == id then Some(brands[0].name)
    else
      assert forall i :: 1 <= i < |brands| ==> brands[i] == brands[1..][i - 1];
      BrandNameOf(brands[1..], id)
  }

  function ProductItemOf(p: ProductRow, brandName: string): ProductItem {
    ProductItem(p.id, p.name, p.alias, p.title, p.subtitle, p.brandId, brandName, p.sellPrice, p.imgUrl)
  }

  /** The joined product list in id order; a product whose brand row is missing drops out of the join. */
  function JoinedProducts(products: seq<ProductRow>, brands: seq<BrandRow>): (r: seq<ProductItem>)
    ensures |r| <= |products|
    ensures forall i :: 0 <= i < |products| && HasBrandId(brands, products[i].brandId) ==>
      ProductItemOf(products[i], BrandNameOf(brands, products[i].brandId).value) in r
    ensures forall item :: item in r ==>
      exists i :: 0 <= i < |products| && BrandNameOf(brands, products[i].brandId) == Some(item.brandName) && item == ProductItemOf(products[i], item.brandName)
  {
    if products == [] then []
    else
      var p := products[0];
      var rest := JoinedProducts(products[1..], brands);
      assert forall i :: 1 <= i < |products| ==> products[i] == products[1..][i - 1];
      match BrandNameOf(brands, p.brandId)
      case None => rest
      case Some(name) => [ProductItemOf(p, name)] + rest
  }

  function ProductItemId(p: ProductItem): int { p.id }

  /** `ORDER BY p.id`: over an id-ordered product table the joined list is in ascending product id order. */
  lemma {:induction false} JoinedProductsOrdered(products: seq<ProductRow>, brands: seq<BrandRow>)
    requires SortBy.StrictlyIncreasing(products, ProductRowId)
    ensures SortBy.StrictlyIncreasing(JoinedProducts(products, brands), ProductItemId)
  {
    if products != [] {
      var p, rest := products[0], products[1..];
      assert products == [p] + rest;
      SortBy.StrictlyIncreasingCons(p, rest, ProductRowId);
      JoinedProductsOrdered(rest, brands);
      var tail := JoinedProducts(rest, brands);
      forall item | item in tail ensures ProductItemId(item) > p.id {
        var i :| 0 <= i < |rest| && BrandNameOf(brands, rest[i].brandId) == Some(item.brandName) && item == ProductItemOf(rest[i], item.brandName);
        assert rest[i] in rest;
      }
      match BrandNameOf(brands, p.brandId)
      case None =>
      case Some(name) =>
        SortBy.StrictlyIncreasingCons(ProductItemOf(p, name), tail, ProductItemId);
    }
  }

  /** `get_all_products`: a page of the joined list; active and retired products alike. */
  function GetAllProducts(products: seq<ProductRow>, brands: seq<BrandRow>, paging: Paging): (r: seq<ProductItem>)
    ensures |r| <= Limit(paging, MAX_ROWS) <= MAX_ROWS
    ensures |r| == PageLength(|JoinedProducts(products, brands)|, paging, MAX_ROWS)
    ensures forall k :: 0 <= k < |r| ==>
      Offset(paging) + k < |JoinedProducts(products, brands)| && r[k] == JoinedProducts(products, brands)[Offset(paging) + k]
  {
    Page(JoinedProducts(products, brands), paging, MAX_ROWS)
  }

  /** The product list ignores status: retiring a product leaves the list exactly as it was. */
  lemma {:induction false} JoinedProductsIgnoreSoftDelete(products: seq<ProductRow>, brands: seq<BrandRow>, id: nat, operator: string)
    ensures JoinedProducts(SoftDeleteProductRows(products, id, operator), brands) == JoinedProducts(products, brands)
  {
    if products != [] {
      var after := SoftDeleteProductRows(products, id, operator);
      assert after[1..] == SoftDeleteProductRows(products[1..], id, operator);
      JoinedProductsIgnoreSoftDelete(products[1..], brands, id, operator);
      assert after[0].brandId == products[0].brandId;
    }
  }

  /** `get_product`: the first product with the id whose brand row exists. */
  function GetProduct(products: seq<ProductRow>, brands: seq<BrandRow>, id: nat): (r: Option<ProductItem>)
    ensures r.Some? ==> r.value.id == id && r.value in JoinedProducts(products, brands)
    ensures r.None? ==> forall i :: 0 <= i < |products| && products[i].id == id ==> !HasBrandId(brands, products[i].brandId)
  {
    if products == [] then None
    else
      var rest := GetProduct(products[1..], brands, id);
      assert forall i :: 1 <= i < |products| ==> products[i] == products[1..][i - 1];
      if products[0].id == id && BrandNameOf(brands, products[0].brandId).Some? then
        Some(ProductItemOf(products[0], BrandNameOf(brands, products[0].brandId).value))
      else
        rest
  }

  // ----------------------------------------------------------- hot products

  /** `get_hot_products`: the product ids of the active entries, in insertion (id) order. */
  function GetHotProducts(rows: seq<HotProductRow>): (r: seq<HotProduct>)
    ensures |r| <= |rows|
    ensures forall h :: h in r ==> exists i :: 0 <= i < |rows| && IsActive(rows[i].status) && rows[i].productId == h.productId
    ensures forall i :: 0 <= i < |rows| && IsActive(rows[i].status) ==> HotProduct(rows[i].productId) in r
  {
    if rows == [] then []
    else
      assert forall i :: 1 <= i < |rows| ==> rows[i] == rows[1..][i - 1];
      (if IsActive(rows[0].status) then [HotProduct(rows[0].productId)] else []) + GetHotProducts(rows[1..])
  }

  /**
   * `ORDER BY id` over a table kept in id order: of two active entries, the
   * earlier one's product is listed before the later one's.
   */
  lemma GetHotProductsInOrder(rows: seq<HotProductRow>, i: nat, j: nat)
    requires i < j < |rows| && IsActive(rows[i].status) && IsActive(rows[j].status)
    ensures exists k, l :: (0 <= k < l < |GetHotProducts(rows)| &&
      GetHotProducts(rows)[k] == HotProduct(rows[i].productId) && GetHotProducts(rows)[l] == HotProduct(rows[j].productId))
  {
    var front, back := rows[..j], rows[j..];
    assert rows == front + back;
    GetHotProductsAppend(front, back);
    assert front[i] == rows[i];
    var rf := GetHotProducts(front);
    var k :| 0 <= k < |rf| && rf[k] == HotProduct(rows[i].productId);
    assert back[0] == rows[j];
    assert GetHotProducts(back)[0] == HotProduct(rows[j].productId);
    assert GetHotProducts(rows)[k] == rf[k] && GetHotProducts(rows)[|rf|] == GetHotProducts(back)[0];
  }

  lemma {:induction false} GetHotProductsAppend(a: seq<HotProductRow>, b: seq<HotProductRow>)
    ensures GetHotProducts(a + b) == GetHotProducts(a) + GetHotProducts(b)
  {
    if a == [] {
      assert a + b == b;
    } else {
      assert (a + b)[0] == a[0];
      assert (a + b)[1..] == a[1..] + b;
      GetHotProductsAppend(a[1..], b);
    }
  }

  /** The rows after `UPDATE hot_product SET status = 1, modifier = operator WHERE status != 1`. */
  function InvalidateHotRows(rows: seq<HotProductRow>, operator: string): (r: seq<HotProductRow>)
    ensures |r| == |rows|
    ensures forall i :: 0 <= i < |rows| ==> r[i].status == CommonStatus.Invalid.Code() && !IsActive(r[i].status)
    ensures forall i :: 0 <= i < |rows| && rows[i].status == CommonStatus.Invalid.Code() ==> r[i] == rows[i]
    ensures forall i :: 0 <= i < |rows| && rows[i].status != CommonStatus.Invalid.Code() ==>
      r[i].modifier == Some(operator) && r[i].(status := rows[i].status, modifier := rows[i].modifier) == rows[i]
  {
    seq(|rows|, i requires 0 <= i < |rows| =>
      if rows[i].status != CommonStatus.Invalid.Code() then rows[i].(status := CommonStatus.Invalid.Code(), modifier := Some(operator)) else rows[i])
  }

  /** After invalidation no entry is active, so the hot list reads empty. */
  lemma {:induction false} InvalidatedHotListEmpty(rows: seq<HotProductRow>, operator: string)
    ensures GetHotProducts(InvalidateHotRows(rows, operator)) == []
  {
    if rows != [] {
      var r := InvalidateHotRows(rows, operator);
      assert r[1..] == InvalidateHotRows(rows[1..], operator);
      InvalidatedHotListEmpty(rows[1..], operator);
    }
  }

  /** The entries `create_hot_products` appends: one active entry per id, in list order. */
  function NewHotRows(ids: seq<nat>, firstId: nat, operator: string): (r: seq<HotProductRow>)
    ensures |r| == |ids|
    ensures forall k :: 0 <= k < |ids| ==>
      r[k].id == firstId + k && r[k].productId == ids[k] && IsActive(r[k].status) &&
      r[k].creator == operator && r[k].modifier.None?
  {
    seq(|ids|, k requires 0 <= k < |ids| => HotProductRow(firstId + k, ids[k], CommonStatus.Valid.Code(), operator, None))
  }

  function HotProductsOf(ids: seq<nat>): (r: seq<HotProduct>)
    ensures |r| == |ids| && forall k :: 0 <= k < |ids| ==> r[k].productId == ids[k]
  {
    seq(|ids|, k requires 0 <= k < |ids| => HotProduct(ids[k]))
  }

  /** Freshly appended entries read back as exactly the submitted ids, in order. */
  lemma {:induction false} NewHotRowsRead(ids: seq<nat>, firstId: nat, operator: string)
    ensures GetHotProducts(NewHotRows(ids, firstId, operator)) == HotProductsOf(ids)
  {
    if ids != [] {
      var r := NewHotRows(ids, firstId, operator);
      assert r[1..] == NewHotRows(ids[1..], firstId + 1, operator);
      NewHotRowsRead(ids[1..], firstId + 1, operator);
      assert HotProductsOf(ids) == [HotProduct(ids[0])] + HotProductsOf(ids[1..]);
    }
  }

  // ------------------------------------------------------------ the tables

  /** Ids strictly increase along the table and stay below the next id to hand out. */
  ghost predicate BrandTableOrdered(rows: seq<BrandRow>, nextId: nat) {
    SortBy.StrictlyIncreasing(rows, BrandRowId) && forall i :: 0 <= i < |rows| ==> rows[i].id < nextId
  }

  /** Appending a row that takes the next id keeps the table ordered. */
  lemma AppendBrandRowOrdered(rows: seq<BrandRow>, nextId: nat, row: BrandRow)
    requires BrandTableOrdered(rows, nextId) && row.id == nextId
    ensures BrandTableOrdered(rows + [row], nextId + 1)
  {
    var all := rows + [row];
    forall i, j | 0 <= i < j < |all| ensures BrandRowId(all[i]) < BrandRowId(all[j]) {
      if j < |rows| {
        assert all[i] == rows[i] && all[j] == rows[j];
      }
    }
  }

  /** The rows for one more brand of a batch extend the rows for the brands before it. */
  lemma NewBrandRowsSnoc(brands: seq<Brand>, i: nat, firstId: nat, operator: string)
    requires i < |brands|
    ensures NewBrandRows(brands[..i + 1], firstId, operator) ==
      NewBrandRows(brands[..i], firstId, operator) +
      [BrandRow(firstId + i, brands[i].name, brands[i].sequence, CommonStatus.Valid.Code(), operator, None)]
  {
  }

  class BrandTable {
    var rows: seq<BrandRow>
    /** The AUTO_INCREMENT counter. */
    var nextId: nat

    ghost predicate Valid()
      reads this
    {
      1 <= nextId && BrandTableOrdered(rows, nextId)
    }

    constructor ()
      ensures Valid() && rows == [] && nextId == 1
    {
      rows := [];
      nextId := 1;
    }

    /**
     * `create_brands`: sorts the batch by sequence and inserts one active row
     * per brand in that order; an empty batch is a malformed statement.
     */
    method CreateBrands(brands: seq<Brand>, operator: string) returns (r: Result<bool, SqlError>)
      requires Valid()
      modifies this
      ensures Valid()
      ensures brands == [] ==> r == Failure(QuerySyntax) && rows == old(rows) && nextId == old(nextId)
      ensures brands != [] ==> (r == Success(true) && nextId == old(nextId) + |brands| &&
        rows == old(rows) + NewBrandRows(SortBy.Sort(brands, BrandSequenceKey), old(nextId), operator))
    {
      if brands == [] {
        return Failure(QuerySyntax);
      }
      var sorted := SortBy.Sort(brands, BrandSequenceKey);
      var firstId := nextId;
      var i := 0;
      while i < |sorted|
        invariant 0 <= i <= |sorted|
        invariant nextId == firstId + i
        invariant rows == old(rows) + NewBrandRows(sorted[..i], firstId, operator)
        invariant Valid()
      {
        var row := BrandRow(nextId, sorted[i].name, sorted[i].sequence, CommonStatus.Valid.Code(), operator, None);
        NewBrandRowsSnoc(sorted, i, firstId, operator);
        AppendBrandRowOrdered(rows, nextId, row);
        rows := rows + [row];
        nextId := nextId + 1;
        i := i + 1;
      }
      assert sorted[..i] == sorted;
      r := Success(firstId > 0);
    }

    /** `update_brand_sequence`: reports whether a row has the id, active or not. */
    method UpdateBrandSequence(bs: BrandSequence, operator: string) returns (ok: bool)
      requires Valid()
      modifies this
      ensures Valid() && nextId == old(nextId)
      ensures rows == SetSequenceRows(old(rows), bs, operator)
      ensures ok == HasBrandId(old(rows), bs.id)
    {
      ok := HasBrandId(rows, bs.id);
      rows := SetSequenceRows(rows, bs, operator);
    }

    /** `delete_brand`: retires the row with the id; reports whether one exists. */
    method DeleteBrand(id: nat, operator: string) returns (ok: bool)
      requires Valid()
      modifies this
      ensures Valid() && nextId == old(nextId)
      ensures rows == SoftDeleteBrandRows(old(rows), id, operator)
      ensures ok == HasBrandId(old(rows), id)
    {
      ok := HasBrandId(rows, id);
      rows := SoftDeleteBrandRows(rows, id, operator);
    }
  }

  ghost predicate ProductTableOrdered(rows: seq<ProductRow>, nextId: nat) {
    SortBy.StrictlyIncreasing(rows, ProductRowId) && forall i :: 0 <= i < |rows| ==> rows[i].id < nextId
  }

  class ProductTable {
    var rows: seq<ProductRow>
    var nextId: nat

    ghost predicate Valid()
      reads this
    {
      1 <= nextId && ProductTableOrdered(rows, nextId)
    }

    constructor ()
      ensures Valid() && rows == [] && nextId == 1
    {
      rows := [];
      nextId := 1;
    }

    /** `create_product`: appends one row under `brandId` and returns its new id. */
    method CreateProduct(p: NewProduct, brandId: nat, operator: string) returns (id: nat)
      requires Valid()
      modifies this
      ensures Valid()
      ensures id == old(nextId) && nextId == old(nextId) + 1
      ensures rows == old(rows) + [NewProductRow(id, p, brandId, operator)]
    {
      id := nextId;
      rows := rows + [NewProductRow(id, p, brandId, operator)];
      nextId := nextId + 1;
    }

    /** `update_product`: overwrites the row with the id; reports whether one exists. */
    method UpdateProduct(id: nat, p: NewProduct, operator: string) returns (ok: bool)
      requires Valid()
      modifies this
      ensures Valid() && nextId == old(nextId)
      ensures rows == UpdateProductRows(old(rows), id, p, operator)
      ensures ok == HasProductId(old(rows), id)
    {
      ok := HasProductId(rows, id);
      rows := UpdateProductRows(rows, id, p, operator);
    }

    /** `delete_product`: retires the row with the id; reports whether one exists. */
    method DeleteProduct(id: nat, operator: string) returns (ok: bool)
      requires Valid()
      modifies this
      ensures Valid() && nextId == old(nextId)
      ensures rows == SoftDeleteProductRows(old(rows), id, operator)
      ensures ok == HasProductId(old(rows), id)
    {
      ok := HasProductId(rows, id);
      rows := SoftDeleteProductRows(rows, id, operator);
    }
  }

  ghost predicate HotTableOrdered(rows: seq<HotProductRow>, nextId: nat) {
    SortBy.StrictlyIncreasing(rows, HotRowId) && forall i :: 0 <= i < |rows| ==> rows[i].id < nextId
  }

  class HotProductTable {
    var rows: seq<HotProductRow>
    var nextId: nat

    ghost predicate Valid()
      reads this
    {
      1 <= nextId && HotTableOrdered(rows, nextId)
    }

    constructor ()
      ensures Valid() && rows == [] && nextId == 1
    {
      rows := [];
      nextId := 1;
    }

    /** `delete_hot_products`: retires every entry not already retired, and always reports success. */
    method DeleteHotProducts(operator: string) returns (ok: bool)
      requires Valid()
      modifies this
      ensures Valid() && nextId == old(nextId)
      ensures rows == InvalidateHotRows(old(rows), operator)
      ensures ok
    {
      rows := InvalidateHotRows(rows, operator);
      ok := true;
    }

    /** `create_hot_products`: appends one entry per id, in list order; an empty list is a malformed statement. */
    method CreateHotProducts(ids: seq<nat>, operator: string) returns (r: Result<bool, SqlError>)
      requires Valid()
      modifies this
      ensures Valid()
      ensures ids == [] ==> r == Failure(QuerySyntax) && rows == old(rows) && nextId == old(nextId)
      ensures ids != [] ==> (r == Success(true) && nextId == old(nextId) + |ids| &&
        rows == old(rows) + NewHotRows(ids, old(nextId), operator))
    {
      if ids == [] {
        return Failure(QuerySyntax);
      }
      var firstId := nextId;
      var i := 0;
      while i < |ids|
        invariant 0 <= i <= |ids|
        invariant nextId == firstId + i
        invariant rows == old(rows) + NewHotRows(ids[..i], firstId, operator)
        invariant Valid()
      {
        assert NewHotRows(ids[..i + 1], firstId, operator) ==
          NewHotRows(ids[..i], firstId, operator) + [HotProductRow(nextId, ids[i], CommonStatus.Valid.Code(), operator, None)];
        rows := rows + [HotProductRow(nextId, ids[i], CommonStatus.Valid.Code(), operator, None)];
        nextId := nextId + 1;
        i := i + 1;
      }
      assert ids[..i] == ids;
      r := Success(firstId > 0);
    }
  }

  /** The three tables of the catalog database. */
  class CatalogStore {
    const brand: BrandTable
    const product: ProductTable
    const hotProduct: HotProductTable

    ghost predicate Valid()
      reads brand, product, hotProduct
    {
      brand.Valid() && product.Valid() && hotProduct.Valid()
    }

    constructor ()
      ensures Valid() && fresh(brand) && fresh(product) && fresh(hotProduct)
      ensures brand.rows == [] && product.rows == [] && hotProduct.rows == []
    {
      brand := new BrandTable();
      product := new ProductTable();
      hotProduct := new HotProductTable();
    }
  }
}
