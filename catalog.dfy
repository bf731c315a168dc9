/** The admin controller actions over one catalog: the product, category and
    image tables, the product↔category pivot, and the files on the public
    disk. Each action is atomic; where the storage collaborator put an upload
    is given to the action as a parameter. */
module Admin {
  import opened Common
  import Categories
  import opened CategoryRules
  import Products
  import opened ProductImages
  import opened ProductRules

  /** How an action answers. */
  datatype Outcome =
    | Done(message: string)          // redirect with a `success` flash
    | Refused(message: string)       // redirect with an `error` flash
    | Invalid(errors: set<Field>)    // back to the form with validation errors
    | NotFound                       // a 404 from route-model binding or `abort(404)`

  /** Product rows sit under their own id below the next auto-increment value,
      are rows the product forms can produce, and hold distinct SKUs. */
  ghost predicate ProductsValid(products: Products.ProductTable, nextProductId: nat)
  {
    (forall id :: id in products ==> products[id].id == id && id < nextProductId) &&
    (forall id :: id in products ==> Products.WellFormed(products[id])) &&
    SkuUnique(products)
  }

  /** Category rows sit under their own id below the next auto-increment
      value, and every parent names a row. */
  ghost predicate CategoriesValid(categories: Categories.CategoryTable, nextCategoryId: nat)
  {
    Categories.Keyed(categories) && Bounded(categories, nextCategoryId) && Categories.ParentsResolve(categories)
  }

  /** Image ids are distinct and below the next auto-increment value, every
      image names a product id already handed out, and the primary-image rule
      holds. */
  ghost predicate ImagesValid(images: seq<ProductImage>, nextImageId: nat, nextProductId: nat)
  {
    DistinctIds(images) && AtMostOnePrimary(images) &&
    forall i :: 0 <= i < |images| ==> images[i].id < nextImageId && images[i].productId < nextProductId
  }

  /** Pivot rows name product ids already handed out, and a pivot row of a
      product that still exists names an existing category. */
  ghost predicate MembershipsValid(m: Memberships, products: Products.ProductTable,
                                   categories: Categories.CategoryTable, nextProductId: nat)
  {
    forall pr: (ProductId, CategoryId) :: pr in m ==> pr.0 < nextProductId && (pr.0 in products ==> pr.1 in categories)
  }

  /** The four invariants of a catalog state together. */
  ghost predicate StateValid(products: Products.ProductTable, categories: Categories.CategoryTable,
                             images: seq<ProductImage>, m: Memberships,
                             nextProductId: nat, nextCategoryId: nat, nextImageId: nat)
  {
    ProductsValid(products, nextProductId) &&
    CategoriesValid(categories, nextCategoryId) &&
    ImagesValid(images, nextImageId, nextProductId) &&
    MembershipsValid(m, products, categories, nextProductId)
  }

  /** An accepted `store` keeps the invariants: the new row is well formed
      with an unused SKU, the new image rows obey the primary-image rule, and
      the attached categories exist. */
  lemma StoreProductKeepsValid(products: Products.ProductTable, categories: Categories.CategoryTable,
                               images: seq<ProductImage>, m: Memberships,
                               nextProductId: nat, nextCategoryId: nat, nextImageId: nat,
                               a: Products.ProductInput, outcomes: seq<Option<Path>>)
    requires StateValid(products, categories, images, m, nextProductId, nextCategoryId, nextImageId)
    requires ProductErrors(a, products, categories.Keys, None) == {} && !CompareAtRejected(a)
    ensures StateValid(products[nextProductId := Products.Fill(Products.NewProduct(nextProductId), a)],
                       categories,
                       images + StoredRows(nextProductId, outcomes, nextImageId),
                       m + Attach(nextProductId, a.categories),
                       nextProductId + 1, nextCategoryId,
                       nextImageId + |StoredRows(nextProductId, outcomes, nextImageId)|)
  {
    var pid := nextProductId;
    AcceptedInputKeepsRules(a, products, categories.Keys, pid, None);
    StoreKeepsRule(images, pid, outcomes, nextImageId);
    StoredRowsShape(pid, outcomes, nextImageId);
    var s := StoredRows(pid, outcomes, nextImageId);
    var r := images + s;
    assert forall j :: |images| <= j < |r| ==> r[j] == s[j - |images|];
  }

  /** An accepted `update` keeps the invariants. */
  lemma UpdateProductKeepsValid(products: Products.ProductTable, categories: Categories.CategoryTable,
                                images: seq<ProductImage>, m: Memberships,
                                nextProductId: nat, nextCategoryId: nat, nextImageId: nat,
                                pid: ProductId, a: Products.ProductInput)
    requires StateValid(products, categories, images, m, nextProductId, nextCategoryId, nextImageId)
    requires pid in products
    requires ProductErrors(a, products, categories.Keys, Some(pid)) == {} && !CompareAtRejected(a)
    ensures StateValid(products[pid := Products.Fill(products[pid], a)], categories, images,
                       Sync(m, pid, set c | c in a.categories),
                       nextProductId, nextCategoryId, nextImageId)
  {
    AcceptedInputKeepsRules(a, products, categories.Keys, pid, Some(pid));
    var ids := set c | c in a.categories;
    SyncReplaces(m, pid, ids);
    forall c | c in ids ensures c in categories {
      var k :| 0 <= k < |a.categories| && a.categories[k] == c;
    }
    var r := Sync(m, pid, ids);
    forall pr: (ProductId, CategoryId) | pr in r && pr.0 == pid ensures pr.1 in categories {
      assert pr.1 in CategoriesOf(r, pid);
    }
  }

  /** Deleting a product row keeps the invariants. */
  lemma DestroyProductKeepsValid(products: Products.ProductTable, categories: Categories.CategoryTable,
                                 images: seq<ProductImage>, m: Memberships,
                                 nextProductId: nat, nextCategoryId: nat, nextImageId: nat,
                                 pid: ProductId)
    requires StateValid(products, categories, images, m, nextProductId, nextCategoryId, nextImageId)
    ensures StateValid(products - {pid}, categories, images, m, nextProductId, nextCategoryId, nextImageId)
  {
  }

  /** An accepted `uploadImages` keeps the invariants. */
  lemma UploadImagesKeepsValid(products: Products.ProductTable, categories: Categories.CategoryTable,
                               images: seq<ProductImage>, m: Memberships,
                               nextProductId: nat, nextCategoryId: nat, nextImageId: nat,
                               pid: ProductId, paths: seq<Path>)
    requires StateValid(products, categories, images, m, nextProductId, nextCategoryId, nextImageId)
    requires pid in products
    ensures StateValid(products, categories,
                       images + AppendedRows(pid, paths, LastOrder(images, pid), nextImageId),
                       m, nextProductId, nextCategoryId, nextImageId + |paths|)
  {
    AppendKeepsRule(images, pid, paths, nextImageId);
  }

  /** Removing an image row keeps the invariants. */
  lemma RemoveImageKeepsValid(products: Products.ProductTable, categories: Categories.CategoryTable,
                              images: seq<ProductImage>, m: Memberships,
                              nextProductId: nat, nextCategoryId: nat, nextImageId: nat,
                              k: nat)
    requires StateValid(products, categories, images, m, nextProductId, nextCategoryId, nextImageId)
    requires k < |images|
    ensures StateValid(products, categories, RemoveAt(images, k), m, nextProductId, nextCategoryId, nextImageId)
  {
    RemoveAtKeepsRule(images, k);
  }

  /** `$category->products()->count() > 0`: the pivot joined with the products table. */
  predicate HasProducts(m: Memberships, products: Products.ProductTable, cid: CategoryId)
  {
    exists pr :: pr in m && pr.1 == cid && pr.0 in products
  }

  /** `$category->children()->count() > 0`. */
  predicate HasChildren(categories: Categories.CategoryTable, cid: CategoryId)
  {
    exists id :: id in categories && categories[id].parentId == Some(cid)
  }

  /** A category that has children has a child row in the `children` relation. */
  lemma HasChildrenIffChildRow(categories: Categories.CategoryTable, cid: CategoryId)
    requires Categories.Keyed(categories) && cid in categories
    ensures HasChildren(categories, cid) <==> Categories.Children(categories, categories[cid]) != {}
  {
    if HasChildren(categories, cid) {
      var id :| id in categories && categories[id].parentId == Some(cid);
      assert categories[id] in Categories.Children(categories, categories[cid]);
    }
  }

  /** A category cannot be deleted while it is its own parent: it then
      counts as having a subcategory. */
  lemma SelfParentBlocksDelete(categories: Categories.CategoryTable, cid: CategoryId)
    requires cid in categories && categories[cid].parentId == Some(cid)
    ensures HasChildren(categories, cid)
  {
  }

  /** `$product->images()->count() > 0` after the deletion holds exactly
      when `orderBy('display_order')->first()` finds a row to promote. */
  lemma RowsLeftIffFirstFound(rows: seq<ProductImage>, pid: ProductId)
    ensures ImagesOf(rows, pid) != [] <==> FirstByDisplayOrder(rows, pid).Some?
  {
    if ImagesOf(rows, pid) != [] {
      assert ImagesOf(rows, pid)[0] in rows;
    } else {
      assert forall i :: 0 <= i < |rows| ==> rows[i] in rows;
    }
  }

  /** The upload loop of `store`: for each upload that was stored, create
      the next image row (display order = upload position, primary exactly at
      position 0) and record the file; skip the uploads that failed. */
  method StoreUploads(rows: seq<ProductImage>, files: set<Path>, pid: ProductId,
                      outcomes: seq<Option<Path>>, firstId: ImageId)
    returns (rows': seq<ProductImage>, files': set<Path>, nextId: ImageId)
    ensures rows' == rows + StoredRows(pid, outcomes, firstId)
    ensures files' == files + StoredPaths(outcomes)
    ensures nextId == firstId + |StoredRows(pid, outcomes, firstId)|
  {
    rows', files', nextId := rows, files, firstId;
    for k := 0 to |outcomes|
      invariant rows' == rows + StoredRows(pid, outcomes[..k], firstId)
      invariant nextId == firstId + |StoredRows(pid, outcomes[..k], firstId)|
      invariant files' == files + StoredPaths(outcomes[..k])
    {
      assert outcomes[..k + 1][..k] == outcomes[..k];
      StoredPathsSnoc(outcomes[..k + 1]);
      match outcomes[k] {
        case None =>
        case Some(path) =>
          rows' := rows' + [ProductImage(nextId, pid, path, k, k == 0)];
          files' := files' + {path};
          nextId := nextId + 1;
      }
    }
    assert outcomes[..|outcomes|] == outcomes;
  }

  /** The loop of `uploadImages`: the k-th stored file becomes a row with
      display order `lastOrder + k + 1` that is not primary. */
  method AppendUploads(rows: seq<ProductImage>, files: set<Path>, pid: ProductId,
                       paths: seq<Path>, lastOrder: int, firstId: ImageId)
    returns (rows': seq<ProductImage>, files': set<Path>)
    ensures rows' == rows + AppendedRows(pid, paths, lastOrder, firstId)
    ensures files' == files + (set p | p in paths)
  {
    rows', files' := rows, files;
    for k := 0 to |paths|
      invariant rows' == rows + AppendedRows(pid, paths[..k], lastOrder, firstId)
      invariant files' == files + (set p | p in paths[..k])
    {
      assert paths[..k + 1] == paths[..k] + [paths[k]];
      rows' := rows' + [ProductImage(firstId + k, pid, paths[k], lastOrder + k + 1, false)];
      files' := files' + {paths[k]};
    }
    assert paths[..|paths|] == paths;
  }

  /** The loop of `destroy` over the product's images: delete each file. */
  method DeleteFiles(files: set<Path>, rows: seq<ProductImage>) returns (remaining: set<Path>)
    ensures remaining == files - PathsOf(rows)
  {
    remaining := files;
    for i := 0 to |rows|
      invariant remaining == files - PathsOf(rows[..i])
    {
      assert rows[..i + 1] == rows[..i] + [rows[i]];
      PathsOfSnoc(rows[..i], rows[i]);
      remaining := remaining - {rows[i].imagePath};
    }
    assert rows[..|rows|] == rows;
  }

  class Catalog {
    var products: Products.ProductTable
    var categories: Categories.CategoryTable
    var images: seq<ProductImage>
    var memberships: Memberships
    var files: set<Path>
    var nextProductId: nat
    var nextCategoryId: nat
    var nextImageId: nat

    ghost predicate Valid()
      reads this
    {
      StateValid(products, categories, images, memberships, nextProductId, nextCategoryId, nextImageId)
    }

    /** An empty catalog with an empty public disk. */
    constructor ()
      ensures Valid()
      ensures products == map[] && categories == map[] && images == [] && memberships == {} && files == {}
    {
      products := map[];
      categories := map[];
      images := [];
      memberships := {};
      files := {};
      nextProductId := 1;
      nextCategoryId := 1;
      nextImageId := 1;
    }

    // -------------------------------------------------------------------------
    // ProductImage::makePrimary

    /** `makePrimary` on row `k`: the bulk update clears the flag on the other
        rows of the product, then the row itself is saved as primary. */
    method MakePrimary(k: nat)
      requires Valid() && k < |images|
      modifies this
      ensures Valid()
      ensures images == MakePrimaryRows(old(images), old(images)[k])
      ensures products == old(products) && categories == old(categories) && memberships == old(memberships)
      ensures files == old(files) && nextProductId == old(nextProductId)
      ensures nextCategoryId == old(nextCategoryId) && nextImageId == old(nextImageId)
    {
      var target := images[k];
      var rows := images;
      var i := 0;
      while i < |rows|
        invariant 0 <= i <= |rows| == |images|
        invariant forall j :: 0 <= j < i ==>
          rows[j] == if images[j].productId == target.productId && images[j].id != target.id
                     then images[j].(isPrimary := false) else images[j]
        invariant forall j :: i <= j < |rows| ==> rows[j] == images[j]
      {
        if rows[i].productId == target.productId && rows[i].id != target.id {
          rows := rows[i := rows[i].(isPrimary := false)];
        }
        i := i + 1;
      }
      rows := rows[k := rows[k].(isPrimary := true)];
      assert rows == MakePrimaryRows(images, target);
      MakePrimaryKeepsRule(images, k);
      images := rows;
    }

    // -------------------------------------------------------------------------
    // ProductController

    /** `store`: validate, apply the compare-at check, create the row, attach
        the categories, then store the uploads one by one. `outcomes[k]` is
        where the k-th upload was stored, or None when storing it threw and the
        loop skipped it. */
    method StoreProduct(a: Products.ProductInput, outcomes: seq<Option<Path>>) returns (o: Outcome)
      requires Valid()
      modifies this
      ensures Valid()
      ensures ProductErrors(a, old(products), old(categories).Keys, None) != {} ==>
        o == Invalid(ProductErrors(a, old(products), old(categories).Keys, None)) && unchanged(this)
      ensures ProductErrors(a, old(products), old(categories).Keys, None) == {} && CompareAtRejected(a) ==>
        o == Invalid({CompareAtPrice}) && unchanged(this)
      ensures ProductErrors(a, old(products), old(categories).Keys, None) == {} && !CompareAtRejected(a) ==>
        o == Done("Product created successfully.") &&
        products == old(products)[old(nextProductId) := Products.Fill(Products.NewProduct(old(nextProductId)), a)] &&
        memberships == old(memberships) + Attach(old(nextProductId), a.categories) &&
        images == old(images) + StoredRows(old(nextProductId), outcomes, old(nextImageId)) &&
        files == old(files) + StoredPaths(outcomes) &&
        categories == old(categories) &&
        nextProductId == old(nextProductId) + 1 && nextCategoryId == old(nextCategoryId) &&
        nextImageId == old(nextImageId) + |StoredRows(old(nextProductId), outcomes, old(nextImageId))|
    {
      var errs := ProductErrors(a, products, categories.Keys, None);
      if errs != {} {
        return Invalid(errs);
      }
      if CompareAtRejected(a) {
        return Invalid({CompareAtPrice});
      }
      var pid := nextProductId;
      var firstId := nextImageId;
      StoreProductKeepsValid(products, categories, images, memberships, pid, nextCategoryId, firstId, a, outcomes);
      products := products[pid := Products.Fill(Products.NewProduct(pid), a)];
      nextProductId := pid + 1;
      memberships := memberships + Attach(pid, a.categories);

      var rows, stored, nextId := StoreUploads(images, files, pid, outcomes, firstId);
      images := rows;
      files := stored;
      nextImageId := nextId;
      return Done("Product created successfully.");
    }

    /** `update`: validate (the product's own SKU is ignored), apply the
        compare-at check, write the fillable columns and sync the categories. */
    method UpdateProduct(pid: ProductId, a: Products.ProductInput) returns (o: Outcome)
      requires Valid()
      modifies this
      ensures Valid()
      ensures pid !in old(products) ==> o == NotFound && unchanged(this)
      ensures pid in old(products) && ProductErrors(a, old(products), old(categories).Keys, Some(pid)) != {} ==>
        o == Invalid(ProductErrors(a, old(products), old(categories).Keys, Some(pid))) && unchanged(this)
      ensures pid in old(products) && ProductErrors(a, old(products), old(categories).Keys, Some(pid)) == {} && CompareAtRejected(a) ==>
        o == Invalid({CompareAtPrice}) && unchanged(this)
      ensures pid in old(products) && ProductErrors(a, old(products), old(categories).Keys, Some(pid)) == {} && !CompareAtRejected(a) ==>
        o == Done("Product updated successfully.") &&
        products == old(products)[pid := Products.Fill(old(products)[pid], a)] &&
        memberships == Sync(old(memberships), pid, set c | c in a.categories) &&
        images == old(images) && files == old(files) && categories == old(categories) &&
        nextProductId == old(nextProductId) && nextCategoryId == old(nextCategoryId) && nextImageId == old(nextImageId)
    {
      if pid !in products {
        return NotFound;
      }
      var errs := ProductErrors(a, products, categories.Keys, Some(pid));
      if errs != {} {
        return Invalid(errs);
      }
      if CompareAtRejected(a) {
        return Invalid({CompareAtPrice});
      }
      AcceptedInputKeepsRules(a, products, categories.Keys, pid, Some(pid));
      var ids := set c | c in a.categories;
      SyncReplaces(memberships, pid, ids);
      assert forall c :: c in ids ==> c in categories by {
        forall c | c in ids ensures c in categories {
          var k :| 0 <= k < |a.categories| && a.categories[k] == c;
        }
      }
      products := products[pid := Products.Fill(products[pid], a)];
      memberships := Sync(memberships, pid, ids);
      return Done("Product updated successfully.");
    }

    /** `destroy`: delete the file of every image of the product, then the
        product row. Image and pivot rows are left in place. */
    method DestroyProduct(pid: ProductId) returns (o: Outcome)
      requires Valid()
      modifies this
      ensures Valid()
      ensures pid !in old(products) ==> o == NotFound && unchanged(this)
      ensures pid in old(products) ==>
        o == Done("Product deleted successfully.") &&
        products == old(products) - {pid} &&
        files == old(files) - PathsOf(ImagesOf(old(images), pid)) &&
        images == old(images) && memberships == old(memberships) && categories == old(categories) &&
        nextProductId == old(nextProductId) && nextCategoryId == old(nextCategoryId) && nextImageId == old(nextImageId)
      ensures pid in old(products) ==>
        forall i :: 0 <= i < |images| && images[i].productId == pid ==> images[i].imagePath !in files
    {
      if pid !in products {
        return NotFound;
      }
      DestroyProductKeepsValid(products, categories, images, memberships, nextProductId, nextCategoryId, nextImageId, pid);
      var own := ImagesOf(images, pid);
      var remaining := DeleteFiles(files, own);
      forall i | 0 <= i < |images| && images[i].productId == pid
        ensures images[i].imagePath in PathsOf(own)
      {
        assert images[i] in own;
        var j :| 0 <= j < |own| && own[j] == images[i];
      }
      files := remaining;
      products := products - {pid};
      return Done("Product deleted successfully.");
    }

    /** `uploadImages`: `paths[k]` is where the k-th file was stored. The new
        rows continue after the product's highest display order (or from 0)
        and none of them is primary. */
    method UploadImages(pid: ProductId, paths: seq<Path>) returns (o: Outcome)
      requires Valid()
      modifies this
      ensures Valid()
      ensures pid !in old(products) ==> o == NotFound && unchanged(this)
      ensures pid in old(products) && paths == [] ==> o == Invalid({Images}) && unchanged(this)
      ensures pid in old(products) && paths != [] ==>
        o == Done("Images uploaded successfully.") &&
        images == old(images) + AppendedRows(pid, paths, LastOrder(old(images), pid), old(nextImageId)) &&
        files == old(files) + (set p | p in paths) &&
        nextImageId == old(nextImageId) + |paths| &&
        products == old(products) && memberships == old(memberships) && categories == old(categories) &&
        nextProductId == old(nextProductId) && nextCategoryId == old(nextCategoryId)
    {
      if pid !in products {
        return NotFound;
      }
      if paths == [] {
        return Invalid({Images});
      }
      var lastOrder := LastOrder(images, pid);
      var firstId := nextImageId;
      UploadImagesKeepsValid(products, categories, images, memberships, nextProductId, nextCategoryId, firstId, pid, paths);
      var rows, stored := AppendUploads(images, files, pid, paths, lastOrder, firstId);
      images := rows;
      files := stored;
      nextImageId := firstId + |paths|;
      return Done("Images uploaded successfully.");
    }

    /** The image row `imageId` when it exists and belongs to product `pid`. */
    function OwnedImage(pid: ProductId, imageId: ImageId): (k: Option<nat>)
      reads this
      ensures k.Some? <==> pid in products && IndexOfId(images, imageId).Some? &&
                           images[IndexOfId(images, imageId).value].productId == pid
      ensures k.Some? ==> k.value < |images| && images[k.value].id == imageId && images[k.value].productId == pid
    {
      if pid !in products then None
      else
        match IndexOfId(images, imageId)
        case None => None
        case Some(k) => if images[k].productId == pid then Some(k) else None
    }

    /** `deleteImage`: delete the file and the row; if the row was primary and
        the product has rows left, promote the first of them by display order. */
    method DeleteImage(pid: ProductId, imageId: ImageId) returns (o: Outcome)
      requires Valid()
      modifies this
      ensures Valid()
      ensures old(OwnedImage(pid, imageId)).None? ==> o == NotFound && unchanged(this)
      ensures old(OwnedImage(pid, imageId)).Some? ==>
        o == Done("Image deleted successfully.") &&
        images == AfterDeleteImage(old(images), old(OwnedImage(pid, imageId)).value) &&
        files == old(files) - {old(images)[old(OwnedImage(pid, imageId)).value].imagePath} &&
        products == old(products) && memberships == old(memberships) && categories == old(categories) &&
        nextProductId == old(nextProductId) && nextCategoryId == old(nextCategoryId) && nextImageId == old(nextImageId)
    {
      var owned := OwnedImage(pid, imageId);
      if owned.None? {
        return NotFound;
      }
      var k := owned.value;
      var image := images[k];
      var rest := RemoveAt(images, k);
      RemoveImageKeepsValid(products, categories, images, memberships, nextProductId, nextCategoryId, nextImageId, k);
      files := files - {image.imagePath};
      images := rest;
      RowsLeftIffFirstFound(rest, pid);
      if image.isPrimary && ImagesOf(rest, pid) != [] {
        var first := FirstByDisplayOrder(rest, pid);
        MakePrimary(first.value);
      }
      return Done("Image deleted successfully.");
    }

    /** `setPrimaryImage`: `makePrimary` on the product's own image. */
    method SetPrimaryImage(pid: ProductId, imageId: ImageId) returns (o: Outcome)
      requires Valid()
      modifies this
      ensures Valid()
      ensures old(OwnedImage(pid, imageId)).None? ==> o == NotFound && unchanged(this)
      ensures old(OwnedImage(pid, imageId)).Some? ==>
        o == Done("Primary image updated successfully.") &&
        images == MakePrimaryRows(old(images), old(images)[old(OwnedImage(pid, imageId)).value]) &&
        products == old(products) && memberships == old(memberships) && categories == old(categories) &&
        files == old(files) &&
        nextProductId == old(nextProductId) && nextCategoryId == old(nextCategoryId) && nextImageId == old(nextImageId)
    {
      var owned := OwnedImage(pid, imageId);
      if owned.None? {
        return NotFound;
      }
      MakePrimary(owned.value);
      return Done("Primary image updated successfully.");
    }

    // -------------------------------------------------------------------------
    // CategoryController

    /** `store`: validate, normalise the parent, record the stored image path
        when a file was uploaded (`stored` is where it went), create the row. */
    method StoreCategory(a: CategoryInput, stored: Path) returns (o: Outcome)
      requires Valid()
      modifies this
      ensures Valid()
      ensures CategoryErrors(a, old(categories)) != {} ==>
        o == Invalid(CategoryErrors(a, old(categories))) && unchanged(this)
      ensures CategoryErrors(a, old(categories)) == {} ==>
        o == Done("Category created successfully.") &&
        categories == old(categories)[old(nextCategoryId) :=
          Categories.Fill(Categories.NewCategory(old(nextCategoryId)), ValidatedAttributes(a, stored))] &&
        files == old(files) + (if a.image.Some? then {stored} else {}) &&
        nextCategoryId == old(nextCategoryId) + 1 &&
        products == old(products) && images == old(images) && memberships == old(memberships) &&
        nextProductId == old(nextProductId) && nextImageId == old(nextImageId)
    {
      var errs := CategoryErrors(a, categories);
      if errs != {} {
        return Invalid(errs);
      }
      AcceptedInputIsSound(a, categories, Categories.NewCategory(nextCategoryId), stored);
      var attrs := ValidatedAttributes(a, stored);
      if a.image.Some? {
        files := files + {stored};
      }
      var id := nextCategoryId;
      categories := categories[id := Categories.Fill(Categories.NewCategory(id), attrs)];
      nextCategoryId := id + 1;
      return Done("Category created successfully.");
    }

    /** `update`: validate, normalise the parent; with a new file, delete the
        old one (when the column is set) and record the new path; write. */
    method UpdateCategory(id: CategoryId, a: CategoryInput, stored: Path) returns (o: Outcome)
      requires Valid()
      modifies this
      ensures Valid()
      ensures id !in old(categories) ==> o == NotFound && unchanged(this)
      ensures id in old(categories) && CategoryErrors(a, old(categories)) != {} ==>
        o == Invalid(CategoryErrors(a, old(categories))) && unchanged(this)
      ensures id in old(categories) && CategoryErrors(a, old(categories)) == {} ==>
        o == Done("Category updated successfully.") &&
        categories == old(categories)[id := Categories.Fill(old(categories)[id], ValidatedAttributes(a, stored))] &&
        files == (if a.image.None? then old(files)
                  else if Truthy(old(categories)[id].imagePath) then (old(files) - {old(categories)[id].imagePath.value}) + {stored}
                  else old(files) + {stored}) &&
        products == old(products) && images == old(images) && memberships == old(memberships) &&
        nextProductId == old(nextProductId) && nextCategoryId == old(nextCategoryId) && nextImageId == old(nextImageId)
    {
      if id !in categories {
        return NotFound;
      }
      var errs := CategoryErrors(a, categories);
      if errs != {} {
        return Invalid(errs);
      }
      AcceptedInputIsSound(a, categories, categories[id], stored);
      var attrs := ValidatedAttributes(a, stored);
      if a.image.Some? {
        var current := categories[id].imagePath;
        if Truthy(current) {
          files := files - {current.value};
        }
        files := files + {stored};
      }
      categories := categories[id := Categories.Fill(categories[id], attrs)];
      return Done("Category updated successfully.");
    }

    /** `destroy`: refused while any existing product is in the category, then
        while any category names it as parent; otherwise the image file (when
        the column is set) and the row are deleted. */
    method DestroyCategory(id: CategoryId) returns (o: Outcome)
      requires Valid()
      modifies this
      ensures Valid()
      ensures id !in old(categories) ==> o == NotFound && unchanged(this)
      ensures id in old(categories) && HasProducts(old(memberships), old(products), id) ==>
        o == Refused("Cannot delete category with products.") && unchanged(this)
      ensures id in old(categories) && !HasProducts(old(memberships), old(products), id) && HasChildren(old(categories), id) ==>
        o == Refused("Cannot delete category with subcategories.") && unchanged(this)
      ensures id in old(categories) && !HasProducts(old(memberships), old(products), id) && !HasChildren(old(categories), id) ==>
        o == Done("Category deleted successfully.") &&
        categories == old(categories) - {id} &&
        files == (if Truthy(old(categories)[id].imagePath) then old(files) - {old(categories)[id].imagePath.value} else old(files)) &&
        products == old(products) && images == old(images) && memberships == old(memberships) &&
        nextProductId == old(nextProductId) && nextCategoryId == old(nextCategoryId) && nextImageId == old(nextImageId)
    {
      if id !in categories {
        return NotFound;
      }
      if HasProducts(memberships, products, id) {
        return Refused("Cannot delete category with products.");
      }
      if HasChildren(categories, id) {
        return Refused("Cannot delete category with subcategories.");
      }
      var path := categories[id].imagePath;
      if Truthy(path) {
        files := files - {path.value};
      }
      categories := categories - {id};
      return Done("Category deleted successfully.");
    }
  }
}
