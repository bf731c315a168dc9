# BookStore catalog administration: a Dafny model

This project models the integrity logic behind the BookStore admin back end (Laravel). It covers:
- the product, category and product-image tables;
- the product↔category pivot;
- the files on the public storage disk.

It models every controller action that writes to that state, the model helpers those actions rely on, and the read-only queries that shape what the admin forms offer.

The central invariant is the **primary-image rule**: no product ever has more than one image whose `is_primary` flag is set. `ProductImage::makePrimary` establishes it, and every image action of the product controller must preserve it.

Layout, one module per file:

| file | module | models |
|---|---|---|
| `common.dfy` | `Common` | `Option`, row keys, stored paths, the form fields validation errors are keyed by, PHP truthiness of a path, the `where` filter |
| `categories.dfy` | `Categories` | `app/Models/Category.php`: the row, `parent`, `children`, `isMainCategory`, `isPromotional`, mass assignment |
| `category_rules.dfy` | `CategoryRules` | the computing parts of `CategoryController`: validation, the `'none'` parent rewrite, the listing order of `index`, the parent candidates of `create`/`edit` |
| `product_images.dfy` | `ProductImages` | `app/Models/ProductImage.php` and the image table as the image actions see it: `makePrimary`, `scopePrimary`, and the rows `store`, `uploadImages` and `deleteImage` create or leave |
| `products.dfy` | `Products` | `app/Models/Product.php`: price getters, stock and status checks and scopes, `primaryImage`, mass assignment |
| `product_rules.dfy` | `ProductRules` | the computing parts of `ProductController`: validation (SKU uniqueness, categories), the compare-at check, `attach` and `sync` on the pivot |
| `catalog.dfy` | `Admin` | class `Catalog`: the controller actions as methods over one catalog state, with the invariant `Valid()` they all preserve |

Representation choices:
- **Money** (`decimal:2` columns) is integer cents. Margin and discount percentages are exact `real`s.
- **Tables.** Products and categories are maps keyed by id. The image table is a sequence of rows in id order. The pivot is a set of pairs.
- **Validation errors.** A validation failure carries the set of failing fields, because Laravel reports every failing rule, not only the first.
- **Uploads.** Where the storage collaborator put each upload is a parameter of the action:
  - `store` takes one outcome per upload, or `None` when storing that upload threw.
  - `uploadImages` takes the stored paths.
  - The category actions take the path the new image went to.
- **Auto-increment ids** are counters of the `Catalog`.

### Quirks of the code the model reproduces

- **Failed first upload.** `store` makes the upload at index 0 primary (`'is_primary' => $index === 0`), and a failed upload is caught, logged and skipped (`ProductController.php:138-159`). If upload 0 fails, the new product has no primary image, even when later uploads succeed. `ProductImages.StoredRowsFirstUpload` states both cases.
- **The `'none'` parent sentinel.** The rewrite under the comment `// Handle "none" value for parent_id` (`CategoryController.php:59-62`) runs only after `exists:categories,id` has accepted the value. No category has the id `'none'`, so a form carrying it is refused and the rewrite never fires. This is `CategoryRules.SentinelRejected`.
- **Self-parenting.** The server check on `parent_id` in `update` is only `exists` (`CategoryController.php:100`), so a category can be stored as its own parent (`CategoryRules.UpdateAllowsSelfParent`). While it is its own parent it is its own child, so the subcategory guard of `destroy` refuses it (`Categories.SelfParentIsOwnChild`, `Admin.SelfParentBlocksDelete`). A later update naming another parent, or none, lifts this.
- **Product delete.** `destroy` deletes the image files, then the product row (`ProductController.php:259-264`). Whether the image and pivot rows follow depends on foreign-key cascades, which are not part of this model, so the model leaves those rows in place.

## Model

| member | source | states |
|---|---|---|
| `Categories.Parent` | app/Models/Category.php:28-31 | the parent is the row whose id is `parent_id` whenever that row exists; absent when `parent_id` is null |
| `Categories.Children` | app/Models/Category.php:36-39 | the children are the rows whose `parent_id` is the category's id |
| `Categories.IsMainCategory` | app/Models/Category.php:52-55 | a category is a main category exactly when its `parent_id` is null |
| `Categories.ChildIffParent` | app/Models/Category.php:36-39 | `d` is among the children of `c` exactly when `c` is the parent of `d` |
| `Categories.MainIffNoParent` | app/Models/Category.php:52-55 | when every parent id resolves, a category is a main category exactly when it has no parent row |
| `Categories.SelfParentIsOwnChild` | app/Models/Category.php:36-39 | a category stored as its own parent is among its own children |
| `Categories.Fill` | app/Models/Category.php:16-23 | mass assignment keeps the id and changes `image_path` only when the attributes carry one |
| `Categories.FillIgnoresImageKey` | app/Models/Category.php:16-23 | the uploaded `image` value never reaches a column |
| `CategoryRules.CategoryErrors` | app/Http/Controllers/Admin/CategoryController.php:50-57 | the name is flagged exactly when it is blank (empty after trimming whitespace, as `required` treats it) or over 255 characters; the display order exactly when it is negative; the parent exactly when it names no row; nothing else is flagged |
| `CategoryRules.ParentExists` | app/Http/Controllers/Admin/CategoryController.php:54 | `exists:categories,id` on a given parent: it names a row; an absent parent passes and the `'none'` sentinel names no row |
| `CategoryRules.NormaliseParent` | app/Http/Controllers/Admin/CategoryController.php:60-62 | the stored parent is set exactly when a category id was given, and is that id; the sentinel and an absent value both give null |
| `CategoryRules.ValidatedAttributes` | app/Http/Controllers/Admin/CategoryController.php:59-66 | the parent is normalised; `image_path` is present exactly when a file was uploaded, and is where it was stored |
| `CategoryRules.SentinelRejected` | app/Http/Controllers/Admin/CategoryController.php:54-62 | a `'none'` parent always fails validation, so the rewrite never fires |
| `CategoryRules.AcceptedInputIsSound` | app/Http/Controllers/Admin/CategoryController.php:96-108 | an accepted form has no sentinel and yields a row with a non-blank name of at most 255 characters, a non-negative order, and a parent that is null or exists |
| `CategoryRules.UpdateAllowsSelfParent` | app/Http/Controllers/Admin/CategoryController.php:100 | an otherwise valid update naming the category itself as parent is accepted and stored |
| `CategoryRules.NameLeqTotal` | app/Http/Controllers/Admin/CategoryController.php:22 | any two names are comparable in name order |
| `CategoryRules.NameLeqTransitive` | app/Http/Controllers/Admin/CategoryController.php:22 | name order is transitive |
| `CategoryRules.Precedes` | app/Http/Controllers/Admin/CategoryController.php:21-22 | a row may be listed before another when its display order is lower, or equal with a name no later in name order |
| `CategoryRules.Insert` | app/Http/Controllers/Admin/CategoryController.php:20-23 | inserting into a sorted listing keeps it sorted and adds exactly that row |
| `CategoryRules.SortForListing` | app/Http/Controllers/Admin/CategoryController.php:20-23 | the result is sorted by display order, then name, and is a permutation of the input |
| `CategoryRules.RowsBelow` | app/Http/Controllers/Admin/CategoryController.php:20 | the scan returns only table rows, every row with a smaller id, and in a keyed table strictly increasing ids |
| `CategoryRules.Listing` | app/Http/Controllers/Admin/CategoryController.php:20-23 | `index` lists exactly the categories of the table, each once, sorted by display order then name |
| `CategoryRules.CreateCandidates` | app/Http/Controllers/Admin/CategoryController.php:35-38 | the create form offers exactly the categories with no parent, each once, in listing order |
| `CategoryRules.EditCandidates` | app/Http/Controllers/Admin/CategoryController.php:79-83 | absent exactly when the category does not exist; otherwise exactly the parentless categories other than the one edited, each once, in listing order |
| `CategoryRules.EditCandidatesDropOnlySelf` | app/Http/Controllers/Admin/CategoryController.php:79-80 | the edited category is never offered, and every other create-form candidate is still offered |
| `ProductImages.ScopePrimary` | app/Models/ProductImage.php:32-35 | selects exactly the rows whose flag is set |
| `ProductImages.ImagesOf` | app/Models/Product.php:75-78 | selects exactly the rows of the product |
| `ProductImages.Promote` | app/Models/ProductImage.php:43-49 | one row after `makePrimary`: the target is set, the product's other rows are cleared, and rows of other products are left alone |
| `ProductImages.MakePrimaryRows` | app/Models/ProductImage.php:40-50 | the whole table after `makePrimary`: every row promoted or cleared as `Promote` says, in place |
| `ProductImages.MakePrimaryExactlyOne` | app/Models/ProductImage.php:43-49 | after `makePrimary` the target is primary and is the only primary row of its product, whatever the flags were |
| `ProductImages.MakePrimaryFrame` | app/Models/ProductImage.php:43-49 | no row is added or removed, only `is_primary` changes, and rows of other products are untouched |
| `ProductImages.MakePrimaryKeepsRule` | app/Models/ProductImage.php:40-50 | `makePrimary` preserves distinct ids and the primary-image rule |
| `ProductImages.MakePrimaryIdempotent` | app/Models/ProductImage.php:40-50 | promoting the same image a second time changes nothing |
| `ProductImages.IndexOfId` | app/Http/Controllers/Admin/ProductController.php:299 | finds a row with the given id, or reports that none has it |
| `ProductImages.MaxDisplayOrder` | app/Http/Controllers/Admin/ProductController.php:280 | null exactly when the product has no rows; otherwise the display order of one of its rows, and no row of it is above |
| `ProductImages.LastOrder` | app/Http/Controllers/Admin/ProductController.php:280 | `max('display_order') ?? -1`: the product's highest display order, or -1 when it has no rows |
| `ProductImages.FirstByDisplayOrder` | app/Http/Controllers/Admin/ProductController.php:311 | absent exactly when the product has no rows; otherwise a row of the product with the lowest display order (the earliest such row on ties) |
| `ProductImages.FirstByOrderUnique` | app/Http/Controllers/Admin/ProductController.php:311 | that row is unique |
| `ProductImages.RemoveAt` | app/Http/Controllers/Admin/ProductController.php:307 | deleting a row keeps every other row, in order |
| `ProductImages.AfterDeleteImage` | app/Http/Controllers/Admin/ProductController.php:306-313 | the table `deleteImage` leaves: the row removed and, when it was primary and the product has rows left, its first row by display order promoted; otherwise nothing else changes |
| `ProductImages.RemoveAtKeepsRule` | app/Http/Controllers/Admin/ProductController.php:307 | deleting a row keeps distinct ids and the primary-image rule |
| `ProductImages.DeleteImageKeepsRule` | app/Http/Controllers/Admin/ProductController.php:306-313 | the table `deleteImage` leaves keeps distinct ids and the primary-image rule |
| `ProductImages.MakePrimaryKeepsFirst` | app/Http/Controllers/Admin/ProductController.php:311-312 | promotion does not change which row is first by display order |
| `ProductImages.DeletePrimaryPromotesLowest` | app/Http/Controllers/Admin/ProductController.php:309-313 | deleting the primary row of a product with rows left makes the remaining row with the lowest display order its one primary row |
| `ProductImages.DeleteNonPrimaryImage` | app/Http/Controllers/Admin/ProductController.php:306-310 | deleting an image that is not primary only removes its row: every other row keeps its flag |
| `ProductImages.DeleteLastImage` | app/Http/Controllers/Admin/ProductController.php:306-313 | deleting a product's last row only removes it, and the product has no rows left |
| `ProductImages.StoredRows` | app/Http/Controllers/Admin/ProductController.php:138-159 | the loop creates no more rows than there were uploads |
| `ProductImages.StoredRowsShape` | app/Http/Controllers/Admin/ProductController.php:138-147 | each created row has the next id, the new product, its upload position as display order and that upload's path, and is primary exactly at position 0; orders strictly increase |
| `ProductImages.StoredRowsPaths` | app/Http/Controllers/Admin/ProductController.php:140-147 | the created rows' paths are exactly the stored files |
| `ProductImages.StoredRowsComplete` | app/Http/Controllers/Admin/ProductController.php:138-159 | every upload that was stored has its row |
| `ProductImages.StoredRowsRule` | app/Http/Controllers/Admin/ProductController.php:142-147 | the created rows have distinct ids and at most one primary |
| `ProductImages.StoredRowsFirstUpload` | app/Http/Controllers/Admin/ProductController.php:138-159 | if upload 0 failed, no created row is primary; if it succeeded, the first row is primary |
| `ProductImages.StoreKeepsRule` | app/Http/Controllers/Admin/ProductController.php:138-147 | adding those rows for a new product keeps distinct ids and the primary-image rule across the whole table |
| `ProductImages.AppendedRows` | app/Http/Controllers/Admin/ProductController.php:282-290 | the k-th new row has the k-th next id, path k, display order `lastOrder + k + 1`, and no primary flag |
| `ProductImages.AppendKeepsRule` | app/Http/Controllers/Admin/ProductController.php:280-290 | appending keeps distinct ids, the primary-image rule and the set of primary rows; every new order is above every existing order of the product |
| `Products.Profit` | app/Models/Product.php:37-44 | null exactly when no cost is set; otherwise profit plus cost is the regular price, and a non-negative cost bounds it by the regular price |
| `Products.MarginPercentage` | app/Models/Product.php:49-57 | set exactly when a cost is set and the regular price is positive; then margin × price = profit × 100, at most 100 for a non-negative cost |
| `Products.DiscountPercentage` | app/Models/Product.php:62-70 | set exactly when the compare-at price is set and above the regular price; then in (0, 100] |
| `Products.DiscountShownIffCompareAtSet` | app/Models/Product.php:62-70 | on a row the forms can produce, a discount is shown exactly when a non-zero compare-at price is set |
| `Products.ScopeActive` | app/Models/Product.php:108-119 | selects exactly the products whose status is `active` |
| `Products.ScopeInStock` | app/Models/Product.php:124-127 | selects exactly the products with stock above zero |
| `Products.PrimaryImage` | app/Models/Product.php:84-87 | a primary image of this product when there is one; absent only when the product has none |
| `Products.PrimaryImageIsTheOne` | app/Models/Product.php:84-87 | under the primary-image rule, the relation resolves to the product's one primary row |
| `Products.Fill` | app/Models/Product.php:16-25 | mass assignment keeps the id |
| `Products.FillIgnoresCategories` | app/Models/Product.php:16-25 | the `categories` key changes no column |
| `ProductRules.ProductErrors` | app/Http/Controllers/Admin/ProductController.php:79-90 | each field is flagged exactly when its rule fails: a title that is blank (empty after trimming whitespace) or over 255 characters, a status other than `active`/`draft`, a negative price, compare-at price, cost or stock, a SKU that is not blank and is over 255 characters or held by a product other than the ignored one (`max` and `unique` skip blank values), an empty category list, and each listed category that does not exist; nothing else is flagged |
| `ProductRules.ProductAcceptedIff` | app/Http/Controllers/Admin/ProductController.php:223-234 | a form is accepted exactly when every rule holds, so a form meeting them all, such as an update that re-submits the product's own SKU, gets through |
| `ProductRules.SkuTaken` | app/Http/Controllers/Admin/ProductController.php:87 | `unique:products,sku[,id]`: some product other than the ignored one holds exactly this SKU |
| `ProductRules.BlankSkuNeverFlagged` | app/Http/Controllers/Admin/ProductController.php:87 | a blank SKU, such as the empty string of an untouched SKU field, is never flagged, so any number of products may have none |
| `ProductRules.CompareAtRejected` | app/Http/Controllers/Admin/ProductController.php:103-108 | the check after validation, also at :237-242: a compare-at price that is set, non-zero and not above the regular price is refused |
| `ProductRules.StoreRejectsHeldSku` | app/Http/Controllers/Admin/ProductController.php:87 | `store` flags a SKU that is not blank and that any product holds |
| `ProductRules.UpdateRejectsOthersSku` | app/Http/Controllers/Admin/ProductController.php:231 | `update` flags a SKU that is not blank and is held by another product |
| `ProductRules.UpdateAcceptsOwnSku` | app/Http/Controllers/Admin/ProductController.php:231 | `update` does not flag the product's own SKU |
| `ProductRules.AcceptedInputKeepsRules` | app/Http/Controllers/Admin/ProductController.php:79-123 | a form that passes validation and the compare-at check writes a well-formed row, and SKUs that are not blank stay unique |
| `ProductRules.Attach` | app/Http/Controllers/Admin/ProductController.php:128 | the new product's categories are exactly the listed ones, and only its own pivot rows are added |
| `ProductRules.Sync` | app/Http/Controllers/Admin/ProductController.php:247 | `sync`: the product's pivot rows for categories outside the set are detached, the missing ones attached, and the rest left alone |
| `ProductRules.SyncReplaces` | app/Http/Controllers/Admin/ProductController.php:247 | after `sync` the product's categories are exactly the supplied set; other products' pivot rows are untouched |
| `ProductRules.SyncIdempotent` | app/Http/Controllers/Admin/ProductController.php:245-248 | repeating the same `sync` leaves the pivot unchanged |
| `Admin.HasChildrenIffChildRow` | app/Http/Controllers/Admin/CategoryController.php:136 | the subcategory count is non-zero exactly when the `children` relation is non-empty |
| `Admin.HasProducts` | app/Http/Controllers/Admin/CategoryController.php:130 | the products guard: some pivot row joins the category to a product that still exists |
| `Admin.HasChildren` | app/Http/Controllers/Admin/CategoryController.php:136 | the subcategory guard: some row names the category as its parent |
| `Admin.SelfParentBlocksDelete` | app/Http/Controllers/Admin/CategoryController.php:136-139 | a category that is its own parent always counts as having subcategories |
| `Admin.StoreProductKeepsValid` | app/Http/Controllers/Admin/ProductController.php:111-160 | an accepted `store` keeps all catalog invariants |
| `Admin.UpdateProductKeepsValid` | app/Http/Controllers/Admin/ProductController.php:245-248 | an accepted `update` keeps all catalog invariants |
| `Admin.DestroyProductKeepsValid` | app/Http/Controllers/Admin/ProductController.php:264 | deleting the product row keeps all catalog invariants |
| `Admin.UploadImagesKeepsValid` | app/Http/Controllers/Admin/ProductController.php:280-290 | appending images keeps all catalog invariants |
| `Admin.RemoveImageKeepsValid` | app/Http/Controllers/Admin/ProductController.php:307 | removing an image row keeps all catalog invariants |
| `Admin.RowsLeftIffFirstFound` | app/Http/Controllers/Admin/ProductController.php:310-311 | the product has rows left exactly when the lookup by lowest display order finds one to promote |
| `Admin.StoreUploads` | app/Http/Controllers/Admin/ProductController.php:138-160 | the loop appends exactly the rows of the stored uploads and records exactly their files |
| `Admin.AppendUploads` | app/Http/Controllers/Admin/ProductController.php:282-290 | the loop appends exactly the new rows and records exactly their files |
| `Admin.DeleteFiles` | app/Http/Controllers/Admin/ProductController.php:259-262 | the loop removes exactly the files of the given rows |
| `Admin.Catalog.MakePrimary` | app/Models/ProductImage.php:40-50 | the table becomes the `makePrimary` table for that row; nothing else changes; invariants kept |
| `Admin.Catalog.StoreProduct` | app/Http/Controllers/Admin/ProductController.php:51-187 | validation errors, then the compare-at error, change nothing; otherwise the new row, its pivot rows, its image rows and files are added, and nothing else changes |
| `Admin.Catalog.UpdateProduct` | app/Http/Controllers/Admin/ProductController.php:221-252 | a missing product is a 404; validation errors (own SKU ignored), then the compare-at error, change nothing; otherwise the columns are rewritten and the categories synced |
| `Admin.Catalog.DestroyProduct` | app/Http/Controllers/Admin/ProductController.php:257-268 | the files of all the product's images are deleted, then the product row |
| `Admin.Catalog.UploadImages` | app/Http/Controllers/Admin/ProductController.php:273-294 | a missing product is a 404; an empty upload list is a validation error; otherwise the appended rows and their files are added |
| `Admin.Catalog.OwnedImage` | app/Http/Controllers/Admin/ProductController.php:302-304 | the image is found exactly when the product exists and the image exists and belongs to it |
| `Admin.Catalog.DeleteImage` | app/Http/Controllers/Admin/ProductController.php:299-317 | a foreign or missing image is a 404 and changes nothing; otherwise its file goes and the table becomes the `deleteImage` table |
| `Admin.Catalog.SetPrimaryImage` | app/Http/Controllers/Admin/ProductController.php:322-333 | a foreign or missing image is a 404 and changes nothing; otherwise `makePrimary` runs on it |
| `Admin.Catalog.StoreCategory` | app/Http/Controllers/Admin/CategoryController.php:48-72 | validation errors change nothing; otherwise the filled row is added and an uploaded file is recorded |
| `Admin.Catalog.UpdateCategory` | app/Http/Controllers/Admin/CategoryController.php:94-122 | a missing category is a 404; validation errors change nothing. Otherwise the row is refilled. With a new file, the old file (when the column is truthy) is deleted and the new one recorded; without one, files and `image_path` are untouched |
| `Admin.Catalog.DestroyCategory` | app/Http/Controllers/Admin/CategoryController.php:127-150 | refused with "Cannot delete category with products." first, then with "Cannot delete category with subcategories."; both change nothing. Otherwise the image file (when truthy) and the row are deleted |

## Left out

- Products.DiscountPercentage: requires a non-negative regular price, which every stored row has. With a compare-at price of 0.00 above a negative regular price, the source would divide by zero.
- ProductRules.ProductErrors: request values are numbers, not strings. The source tests the raw compare-at value for PHP truthiness. A value written `"0.00"` is truthy there and is refused as not above the regular price, while the model treats every zero as unset.
- Rendering:
  - Inertia page rendering.
  - Product listing with `latest()`/`paginate(20)`.
  - The read-only `show`, product `create` and `edit` actions.
  - Eager loading.
  - All logging.
  - The `mkdir`/`ini_get` preamble of `store`.
  
  None of these changes catalog state.
- File storage mechanics. `store()` and `Storage::delete` become parameters and set updates. In `uploadImages` and the category actions, a `store()` that fails or returns false is not modelled; only `store` in the product controller catches failures, per upload.
- Transactions and concurrency. Each action is one atomic step. The rollback path of `store` when a database write throws (ProductController.php:169-178) is not modelled, and neither are races on SKU uniqueness or on `makePrimary`.
- Validation rule parsing. The file rules (`image`, `mimes`, `max:10240`), `string`/`numeric`/`integer` type checks and `boolean` are assumed satisfied by the typed inputs. Only the outcome rules are modelled: `required`, `min`, `max`, `in`, `unique`, `exists`, `array|min:1`.
- Absent versus null request keys. The validated array is taken to carry every fillable key, so mass assignment writes each of them.
- Database collation. Name ordering uses character codes, not the column's collation. Rows that tie on display order and name may come back in any order: the listing contracts promise sortedness and the same rows, not one tie order.
- ProductRules.SkuTaken: `unique:products,sku` compares under the column's collation. Case-insensitive collations, such as MySQL's defaults, refuse `"isbn-1"` while `"ISBN-1"` exists. The model compares SKUs exactly.
- Column widths. Prices are `decimal(10, 2)` and stock a 32-bit integer in the database, and validation checks only `min:0`. A value too large for its column passes validation and then fails in the database, which rolls `store` back and makes `update` throw. The model stores any non-negative integer.
- Input middleware. The framework's string trimming and empty-to-null conversion of request fields are not modelled: `required` refuses blank strings as the rule does, but an accepted title or name is stored with any surrounding whitespace it was sent with, and an empty SKU field arrives as an empty string rather than null. Validation skips `max` and `unique` on a blank SKU, as the framework does, so such products are accepted and stored with that blank SKU.
- ProductImages.FirstByDisplayOrder: `orderBy('display_order')->first()` has no tie-breaker, so among a product's rows with equal display order the database may return any one. The model takes the earliest row in the table, and `DeletePrimaryPromotesLowest` promises that row. The actions give each product's rows distinct orders (upload positions on `store`, values above the current maximum on `uploadImages`), but the model does not carry that as an invariant.
- ProductRules.Attach: the pivot is a set of pairs, so a category listed twice in `categories` gives one pivot row. The source's `attach` inserts one row per list entry. That gives two rows for `[3, 3]`, or, if the pivot has a unique key, an exception that rolls `store` back. The model reports success with one row.
- Cascade deletes of image rows and pivot rows when a product or category row is deleted. They depend on database migrations that are not part of this model, so those rows are left in place, and the category `products()` count joins the pivot with existing products.
- `IsPromotional` is the `is_promotional` flag itself, with nothing to prove about it. `InStock` and `IsActive` are predicates whose meaning is stated through the scopes that use them.
