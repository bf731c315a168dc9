/** The `Product` model: one row of the products table, the derived price
    figures, the stock and status checks with their query scopes, the
    `primaryImage` relation, and mass assignment restricted to `$fillable`.
    Money columns (`decimal:2`) are integer cents; percentages are exact reals. */
module Products {
  import opened Common
  import opened ProductImages

  datatype Product = Product(
    id: ProductId,
    title: string,
    description: Option<string>,
    status: string,
    regularPrice: int,
    compareAtPrice: Option<int>,
    costPerItem: Option<int>,
    stockQuantity: int,
    sku: Option<string>)

  /** The products table, keyed by primary key. */
  type ProductTable = map<ProductId, Product>

  /** `getProfit()`: null without a cost per item (a `decimal:2` value is a
      non-empty string, so any stored cost, 0.00 included, counts as set);
      otherwise the regular price less the cost. */
  function Profit(p: Product): (r: Option<int>)
    ensures r.Some? <==> p.costPerItem.Some?
    ensures r.Some? ==> r.value + p.costPerItem.value == p.regularPrice
    ensures r.Some? && p.costPerItem.value >= 0 ==> r.value <= p.regularPrice
  {
    match p.costPerItem
    case None => None
    case Some(cost) => Some(p.regularPrice - cost)
  }

  /** `getMarginPercentage()`: the profit as a percentage of the regular price,
      null without a cost or when the regular price is not positive. */
  function MarginPercentage(p: Product): (r: Option<real>)
    ensures r.Some? <==> p.costPerItem.Some? && p.regularPrice > 0
    ensures r.Some? ==> r.value * (p.regularPrice as real) == (Profit(p).value as real) * 100.0
    ensures r.Some? && p.costPerItem.value >= 0 ==> r.value <= 100.0
  {
    if p.costPerItem.Some? && p.regularPrice > 0 then
      var profit := Profit(p).value;
      Some((profit as real) / (p.regularPrice as real) * 100.0)
    else None
  }

  /** `getDiscountPercentage()`: how far the regular price is below the
      compare-at price, as a percentage of the compare-at price; null unless
      the compare-at price is set and above the regular price. Stored regular
      prices are never negative (a compare-at price of 0.00 above a negative
      regular price would divide by zero). */
  function DiscountPercentage(p: Product): (r: Option<real>)
    requires p.regularPrice >= 0
    ensures r.Some? <==> p.compareAtPrice.Some? && p.compareAtPrice.value > p.regularPrice
    ensures r.Some? ==> 0.0 < r.value <= 100.0
  {
    if p.compareAtPrice.Some? && p.compareAtPrice.value > p.regularPrice then
      var compare := p.compareAtPrice.value;
      Some(((compare - p.regularPrice) as real) / (compare as real) * 100.0)
    else None
  }

  /** `inStock()` */
  predicate InStock(p: Product)
  {
    p.stockQuantity > 0
  }

  /** `isActive()` */
  predicate IsActive(p: Product)
  {
    p.status == "active"
  }

  /** `scopeActive`: the rows whose status is active, in query order. */
  function ScopeActive(rows: seq<Product>): (r: seq<Product>)
    ensures forall p :: p in r <==> p in rows && IsActive(p)
    ensures multiset(r) <= multiset(rows)
  {
    Where(rows, IsActive)
  }

  /** `scopeInStock`: the rows with stock above zero, in query order. */
  function ScopeInStock(rows: seq<Product>): (r: seq<Product>)
    ensures forall p :: p in r <==> p in rows && InStock(p)
    ensures multiset(r) <= multiset(rows)
  {
    Where(rows, InStock)
  }

  /** `primaryImage` (hasOne where is_primary): the first image row of the
      product whose flag is set, if any. */
  function PrimaryImage(p: Product, images: seq<ProductImage>): (r: Option<ProductImage>)
    ensures r.Some? ==> r.value in images && r.value.productId == p.id && r.value.isPrimary
    ensures r.None? ==> forall x :: x in images ==> !(x.productId == p.id && x.isPrimary)
  {
    var own := Where(images, (x: ProductImage) => x.productId == p.id && x.isPrimary);
    if own == [] then None else Some(own[0])
  }

  /** Under the primary-image rule the relation is determined: it is the one
      primary row of the product. */
  lemma PrimaryImageIsTheOne(p: Product, images: seq<ProductImage>, i: nat)
    requires AtMostOnePrimary(images)
    requires i < |images| && images[i].productId == p.id && images[i].isPrimary
    ensures PrimaryImage(p, images) == Some(images[i])
  {
    assert images[i] in images;
    var r := PrimaryImage(p, images).value;
    var j :| 0 <= j < |images| && images[j] == r;
  }

  /** The validated request array of the product forms: the eight fillable
      columns plus the `categories` key. */
  datatype ProductInput = ProductInput(
    title: string,
    description: Option<string>,
    status: string,
    regularPrice: int,
    compareAtPrice: Option<int>,
    costPerItem: Option<int>,
    stockQuantity: int,
    sku: Option<string>,
    categories: seq<CategoryId>)

  /** The row `Product::create` starts from before mass assignment. */
  function NewProduct(id: ProductId): Product
  {
    Product(id, "", None, "", 0, None, None, 0, None)
  }

  /** Mass assignment restricted to `$fillable`: title, description, status,
      regular_price, compare_at_price, cost_per_item, stock_quantity, sku.
      Every fillable key is present in the validated array, so each of those
      columns takes the request's value; the id is not fillable. */
  function Fill(p: Product, a: ProductInput): (r: Product)
    ensures r.id == p.id
  {
    Product(p.id, a.title, a.description, a.status, a.regularPrice, a.compareAtPrice,
            a.costPerItem, a.stockQuantity, a.sku)
  }

  /** The `categories` key is not fillable: it changes no column. */
  lemma FillIgnoresCategories(p: Product, a: ProductInput, cs: seq<CategoryId>)
    ensures Fill(p, a.(categories := cs)) == Fill(p, a)
  {
  }

  /** A row the product forms can produce: a known status, non-negative money
      and stock, a compare-at price that is unset, zero, or above the regular
      price, a title that is not blank, and title and SKU within 255
      characters. */
  ghost predicate WellFormed(p: Product)
  {
    (p.status == "active" || p.status == "draft") &&
    !IsBlank(p.title) && |p.title| <= 255 &&
    p.regularPrice >= 0 && p.stockQuantity >= 0 &&
    (p.costPerItem.Some? ==> p.costPerItem.value >= 0) &&
    (p.compareAtPrice.Some? ==> p.compareAtPrice.value == 0 || p.compareAtPrice.value > p.regularPrice) &&
    (Filled(p.sku) ==> |p.sku.value| <= 255)
  }

  /** On a row the forms can produce, the discount is shown exactly when a
      non-zero compare-at price is set. */
  lemma DiscountShownIffCompareAtSet(p: Product)
    requires WellFormed(p)
    ensures DiscountPercentage(p).Some? <==> p.compareAtPrice.Some? && p.compareAtPrice.value != 0
  {
  }
}
