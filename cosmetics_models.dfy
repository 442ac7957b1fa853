/** The catalog's request and reply records, and the validation of new brands and products. */
module CosmeticsModels {
  import opened Wrappers
  import RustText

  /** A `Decimal` price; no rule of the catalog looks inside it. */
  datatype Decimal = Decimal(text: string)

  /** A brand as listed, and as built for a batch insert (`id` 0, not hot). */
  datatype Brand = Brand(id: nat, name: string, sequence: int, isHot: bool)

  /** One entry of a batch brand creation. */
  datatype NewBrand = NewBrand(name: string)

  /** One entry of a reorder request: the brand and its new display position. */
  datatype BrandSequence = BrandSequence(id: nat, sequence: int)

  /** A product as listed on a brand's page. */
  datatype BrandItem = BrandItem(id: nat, name: string, title: string, subtitle: string, imgUrl: string)

  /** A product joined with the name of its brand. */
  datatype ProductItem = ProductItem(
    id: nat, name: string, alias: string, title: string, subtitle: string,
    brandId: nat, brandName: string, sellPrice: Decimal, imgUrl: string)

  /** Product columns that are stored and returned but never inspected. */
  datatype ProductExtra = ProductExtra(
    spec: string, kind: string, importPrice: Decimal, sequence: int,
    jdId: string, jdUrl: string, comment: string)

  /** The fields of a product create or update request; `status` is the raw code written to the row. */
  datatype NewProduct = NewProduct(
    name: string, alias: string, title: string, subtitle: string,
    brandId: nat, brandName: string, sellPrice: Decimal, imgUrl: string,
    status: int, extra: ProductExtra)

  /** One entry of the hot list. */
  datatype HotProduct = HotProduct(productId: nat)

  const EMPTY_BRAND_NAME: string := "Brand name can't be empty."
  const EMPTY_PRODUCT_NAME: string := "Product name can't be empty."

  /** `NewBrand::validate`: only a name of zero bytes is refused; blanks are a valid name. */
  function ValidateNewBrand(b: NewBrand): (r: Result<Unit, string>)
    ensures r.Failure? <==> b.name == []
    ensures r.Failure? ==> r.error == EMPTY_BRAND_NAME
  {
    if RustText.Utf8Length(b.name) == 0 then Failure(EMPTY_BRAND_NAME) else Success(Unit)
  }

  /** `NewProduct::validate`: only a name of zero bytes is refused. */
  function ValidateNewProduct(p: NewProduct): (r: Result<Unit, string>)
    ensures r.Failure? <==> p.name == []
    ensures r.Failure? ==> r.error == EMPTY_PRODUCT_NAME
  {
    if RustText.Utf8Length(p.name) == 0 then Failure(EMPTY_PRODUCT_NAME) else Success(Unit)
  }

  /** Validation looks at the name only: title, brand, price and picture never change the verdict. */
  lemma ValidateNewProductNameOnly(p: NewProduct, q: NewProduct)
    requires p.name == q.name
    ensures ValidateNewProduct(p) == ValidateNewProduct(q)
  {
  }
}
