/** The checks the product controller applies before it writes: the
    validation rules of `store` and `update` (including SKU uniqueness and the
    category rules), the compare-at price check, and the category membership
    changes (`attach` on store, `sync` on update). */
module ProductRules {
  import opened Common
  import opened Products

  /** The product↔category pivot table as a relation. */
  type Memberships = set<(ProductId, CategoryId)>

  /** No two products hold the same SKU that is not blank (the rule is
      enforced only by the validator, which never checks a blank SKU; the
      column has no unique index). */
  ghost predicate SkuUnique(products: ProductTable)
  {
    forall a, b :: a in products && b in products && Filled(products[a].sku) && products[a].sku == products[b].sku ==> a == b
  }

  /** `unique:products,sku[,ignore]`: some product other than `ignore` holds `sku`. */
  predicate SkuTaken(products: ProductTable, sku: string, ignore: Option<ProductId>)
  {
    exists id :: id in products && products[id].sku == Some(sku) && ignore != Some(id)
  }

  /** The fields a product form can fail on as a whole (the per-entry
      `categories.*` errors aside). */
  const FormFields: set<Field> := {Title, Status, RegularPrice, CompareAtPrice, CostPerItem, StockQuantity, Sku, Categories}

  /** The rule on field `f` of the product form fails. */
  predicate RuleFails(a: ProductInput, products: ProductTable, ignore: Option<ProductId>, f: Field)
  {
    match f
    case Title => IsBlank(a.title) || |a.title| > 255
    case Status => a.status != "active" && a.status != "draft"
    case RegularPrice => a.regularPrice < 0
    case CompareAtPrice => a.compareAtPrice.Some? && a.compareAtPrice.value < 0
    case CostPerItem => a.costPerItem.Some? && a.costPerItem.value < 0
    case StockQuantity => a.stockQuantity < 0
    case Sku => Filled(a.sku) && (|a.sku.value| > 255 || SkuTaken(products, a.sku.value, ignore))
    case Categories => |a.categories| == 0
    case _ => false
  }

  /** The form fields whose rule fails. */
  function FormErrors(a: ProductInput, products: ProductTable, ignore: Option<ProductId>): (errs: set<Field>)
    ensures forall f :: f in errs <==> f in FormFields && RuleFails(a, products, ignore, f)
  {
    set f | f in FormFields && RuleFails(a, products, ignore, f)
  }

  /** `categories.*` => `exists:categories,id`: one error per listed id that
      names no category. */
  function ItemErrors(ids: seq<CategoryId>, known: set<CategoryId>): (errs: set<Field>)
    ensures forall f :: f in errs ==> f.CategoryItem?
    ensures forall k: nat :: CategoryItem(k) in errs <==> k < |ids| && ids[k] !in known
  {
    var items := set k | 0 <= k < |ids| && ids[k] !in known :: CategoryItem(k);
    assert forall k :: 0 <= k < |ids| && ids[k] !in known ==> CategoryItem(k) in items;
    items
  }

  /** The fields `$request->validate(...)` reports for a product form; `ignore`
      is None on `store` and the product's own id on `update`. */
  function ProductErrors(a: ProductInput, products: ProductTable, known: set<CategoryId>, ignore: Option<ProductId>): (errs: set<Field>)
    ensures Title in errs <==> IsBlank(a.title) || |a.title| > 255
    ensures Status in errs <==> a.status != "active" && a.status != "draft"
    ensures RegularPrice in errs <==> a.regularPrice < 0
    ensures CompareAtPrice in errs <==> a.compareAtPrice.Some? && a.compareAtPrice.value < 0
    ensures CostPerItem in errs <==> a.costPerItem.Some? && a.costPerItem.value < 0
    ensures StockQuantity in errs <==> a.stockQuantity < 0
    ensures Sku in errs <==> Filled(a.sku) && (|a.sku.value| > 255 || SkuTaken(products, a.sku.value, ignore))
    ensures Categories in errs <==> |a.categories| == 0
    ensures forall k: nat :: CategoryItem(k) in errs <==> k < |a.categories| && a.categories[k] !in known
    ensures forall f :: f in errs ==> f in FormFields || f.CategoryItem?
  {
    FormErrors(a, products, ignore) + ItemErrors(a.categories, known)
  }

  /** A product form is accepted exactly when every rule holds: the title is
      not blank and has at most 255 characters, the status is `active` or `draft`, no price, cost
      or stock is negative, a SKU that is not blank has at most 255 characters and is held
      by no other product, and at least one category is listed, every one of
      them existing. */
  lemma ProductAcceptedIff(a: ProductInput, products: ProductTable, known: set<CategoryId>, ignore: Option<ProductId>)
    ensures ProductErrors(a, products, known, ignore) == {} <==>
      !IsBlank(a.title) && |a.title| <= 255 && (a.status == "active" || a.status == "draft") && a.regularPrice >= 0 &&
      (a.compareAtPrice.Some? ==> a.compareAtPrice.value >= 0) && (a.costPerItem.Some? ==> a.costPerItem.value >= 0) &&
      a.stockQuantity >= 0 && (Filled(a.sku) ==> |a.sku.value| <= 255 && !SkuTaken(products, a.sku.value, ignore)) &&
      |a.categories| > 0 && (forall k :: 0 <= k < |a.categories| ==> a.categories[k] in known)
  {
    var errs := ProductErrors(a, products, known, ignore);
    if errs != {} {
      var f :| f in errs;
      if f.CategoryItem? {
        assert CategoryItem(f.index) in errs;
      }
    }
  }

  /** The extra check after validation: a compare-at price that is set,
      non-zero, and not above the regular price is refused. */
  predicate CompareAtRejected(a: ProductInput)
  {
    a.compareAtPrice.Some? && a.compareAtPrice.value != 0 && a.compareAtPrice.value <= a.regularPrice
  }

  /** `store` refuses a SKU that is not blank and that any product holds. */
  lemma StoreRejectsHeldSku(a: ProductInput, products: ProductTable, known: set<CategoryId>, id: ProductId)
    requires id in products && Filled(a.sku) && products[id].sku == a.sku
    ensures Sku in ProductErrors(a, products, known, None)
  {
  }

  /** `update` refuses a SKU that is not blank and is held by a different
      product. */
  lemma UpdateRejectsOthersSku(a: ProductInput, products: ProductTable, known: set<CategoryId>, self: ProductId, other: ProductId)
    requires other in products && other != self && Filled(a.sku) && products[other].sku == a.sku
    ensures Sku in ProductErrors(a, products, known, Some(self))
  {
  }

  /** A blank SKU, such as the empty string an untouched SKU field sends, is
      never flagged: `max` and `unique` do not run on it, so any number of
      products may be saved without a SKU. */
  lemma BlankSkuNeverFlagged(a: ProductInput, products: ProductTable, known: set<CategoryId>, ignore: Option<ProductId>)
    requires a.sku.Some? && IsBlank(a.sku.value)
    ensures Sku !in ProductErrors(a, products, known, ignore)
  {
  }

  /** `update` accepts the product's own SKU: on a catalog where SKUs are
      unique and within 255 characters, re-submitting it raises no SKU error. */
  lemma UpdateAcceptsOwnSku(a: ProductInput, products: ProductTable, known: set<CategoryId>, self: ProductId)
    requires SkuUnique(products) && self in products && WellFormed(products[self])
    requires a.sku.Some? && a.sku == products[self].sku
    ensures Sku !in ProductErrors(a, products, known, Some(self))
  {
    if Filled(a.sku) {
      forall id | id in products && products[id].sku == a.sku
        ensures id == self
      {
      }
    }
  }

  /** A request that passes validation and the compare-at check writes a
      well-formed row, and writing it at `self` keeps SKUs unique. */
  lemma AcceptedInputKeepsRules(a: ProductInput, products: ProductTable, known: set<CategoryId>, self: ProductId, ignore: Option<ProductId>)
    requires SkuUnique(products)
    requires ignore.Some? ==> ignore.value == self
    requires ignore.None? ==> self !in products
    requires ProductErrors(a, products, known, ignore) == {} && !CompareAtRejected(a)
    ensures WellFormed(Fill(NewProduct(self), a))
    ensures SkuUnique(products[self := Fill(NewProduct(self), a)])
  {
    var row := Fill(NewProduct(self), a);
    var next := products[self := row];
    assert Title !in ProductErrors(a, products, known, ignore);
    assert Status !in ProductErrors(a, products, known, ignore);
    assert RegularPrice !in ProductErrors(a, products, known, ignore);
    assert CompareAtPrice !in ProductErrors(a, products, known, ignore);
    assert CostPerItem !in ProductErrors(a, products, known, ignore);
    assert StockQuantity !in ProductErrors(a, products, known, ignore);
    assert Sku !in ProductErrors(a, products, known, ignore);
    assert forall id :: id in products && id != self && Filled(a.sku) ==> products[id].sku != a.sku;
  }

  /** The categories a product belongs to. */
  function CategoriesOf(m: Memberships, pid: ProductId): set<CategoryId>
  {
    set pr | pr in m && pr.0 == pid :: pr.1
  }

  /** `attach(ids)` on a new product: one pivot row per listed category. */
  function Attach(pid: ProductId, ids: seq<CategoryId>): (r: Memberships)
    ensures CategoriesOf(r, pid) == set c | c in ids
    ensures forall pr :: pr in r ==> pr.0 == pid && pr.1 in ids
  {
    var r := set c | c in ids :: (pid, c);
    assert forall c :: c in ids ==> (pid, c) in r;
    r
  }

  /** `sync(ids)`: detach the product's categories that are not in `ids`,
      attach those of `ids` it does not have, leave the rest alone. */
  function Sync(m: Memberships, pid: ProductId, ids: set<CategoryId>): Memberships
  {
    var current := CategoriesOf(m, pid);
    var detach := set c | c in current && c !in ids :: (pid, c);
    var attach := set c | c in ids && c !in current :: (pid, c);
    (m - detach) + attach
  }

  /** After `sync`, the product's categories are exactly the supplied set and
      every other product's pivot rows are as they were. */
  lemma SyncReplaces(m: Memberships, pid: ProductId, ids: set<CategoryId>)
    ensures CategoriesOf(Sync(m, pid, ids), pid) == ids
    ensures forall pr: (ProductId, CategoryId) :: pr.0 != pid ==> (pr in Sync(m, pid, ids) <==> pr in m)
  {
    var r := Sync(m, pid, ids);
    forall c | c in ids ensures c in CategoriesOf(r, pid) {
      if (pid, c) !in m {
        assert c !in CategoriesOf(m, pid);
      }
      assert (pid, c) in r;
    }
    forall c | c in CategoriesOf(r, pid) ensures c in ids {
      var pr :| pr in r && pr.0 == pid && pr.1 == c;
      if pr in m {
        assert c in CategoriesOf(m, pid);
      }
    }
  }

  /** Syncing the same set twice gives the same pivot rows as syncing once. */
  lemma SyncIdempotent(m: Memberships, pid: ProductId, ids: set<CategoryId>)
    ensures Sync(Sync(m, pid, ids), pid, ids) == Sync(m, pid, ids)
  {
    var once := Sync(m, pid, ids);
    SyncReplaces(m, pid, ids);
    assert CategoriesOf(once, pid) == ids;
  }
}
