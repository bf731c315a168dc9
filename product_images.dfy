/** The `ProductImage` model and the product-images table: `makePrimary`, the
    `primary` scope, and the queries the image actions of the product
    controller run against the table (lookup by id, `max('display_order')`,
    `orderBy('display_order')->first()`), together with the rows those actions
    create or leave behind. The table is a sequence of rows in id order. */
module ProductImages {
  import opened Common

  datatype ProductImage = ProductImage(
    id: ImageId,
    productId: ProductId,
    imagePath: Path,
    displayOrder: int,
    isPrimary: bool)

  /** No two rows share a primary key. */
  ghost predicate DistinctIds(rows: seq<ProductImage>)
  {
    forall i, j :: 0 <= i < j < |rows| ==> rows[i].id != rows[j].id
  }

  /** The primary-image rule: no product has two primary rows. */
  ghost predicate AtMostOnePrimary(rows: seq<ProductImage>)
  {
    forall i, j ::
      0 <= i < |rows| && 0 <= j < |rows| &&
      rows[i].isPrimary && rows[j].isPrimary && rows[i].productId == rows[j].productId
      ==> i == j
  }

  /** `scopePrimary`: the rows whose flag is set. */
  function ScopePrimary(rows: seq<ProductImage>): (r: seq<ProductImage>)
    ensures forall x :: x in r <==> x in rows && x.isPrimary
    ensures multiset(r) <= multiset(rows)
  {
    Where(rows, (x: ProductImage) => x.isPrimary)
  }

  /** `$product->images`: the rows of one product, in table order. */
  function ImagesOf(rows: seq<ProductImage>, pid: ProductId): (r: seq<ProductImage>)
    ensures forall x :: x in r <==> x in rows && x.productId == pid
    ensures multiset(r) <= multiset(rows)
  {
    Where(rows, (x: ProductImage) => x.productId == pid)
  }

  /** The stored files of a sequence of rows. */
  function PathsOf(rows: seq<ProductImage>): set<Path>
  {
    set i | 0 <= i < |rows| :: rows[i].imagePath
  }

  /** Adding a row adds its file and no other. */
  lemma PathsOfSnoc(rows: seq<ProductImage>, x: ProductImage)
    ensures PathsOf(rows + [x]) == PathsOf(rows) + {x.imagePath}
  {
    var r := rows + [x];
    assert r[|rows|] == x;
    assert forall i :: 0 <= i < |rows| ==> r[i] == rows[i];
  }

  // ---------------------------------------------------------------------------
  // makePrimary

  /** One row after `makePrimary` on `target`: the bulk update clears the flag
      on the product's other rows, then saving the target sets its own flag. */
  function Promote(row: ProductImage, target: ProductImage): ProductImage
  {
    if row.id == target.id then row.(isPrimary := true)
    else if row.productId == target.productId then row.(isPrimary := false)
    else row
  }

  /** The whole table after `makePrimary` on `target`. */
  function MakePrimaryRows(rows: seq<ProductImage>, target: ProductImage): (r: seq<ProductImage>)
    ensures |r| == |rows|
  {
    seq(|rows|, i requires 0 <= i < |rows| => Promote(rows[i], target))
  }

  /** After `makePrimary`, the target row is primary and no other row of its
      product is, whatever the flags were before. */
  lemma MakePrimaryExactlyOne(rows: seq<ProductImage>, k: nat)
    requires DistinctIds(rows) && k < |rows|
    ensures var r := MakePrimaryRows(rows, rows[k]);
      r[k].isPrimary &&
      forall j :: 0 <= j < |r| && r[j].productId == rows[k].productId && r[j].isPrimary ==> j == k
  {
  }

  /** `makePrimary` touches no row of another product, and of the rows it
      touches it changes only `is_primary`; it adds and removes no rows. */
  lemma MakePrimaryFrame(rows: seq<ProductImage>, k: nat)
    requires DistinctIds(rows) && k < |rows|
    ensures var r := MakePrimaryRows(rows, rows[k]);
      |r| == |rows| &&
      (forall i :: 0 <= i < |rows| ==> r[i].(isPrimary := rows[i].isPrimary) == rows[i]) &&
      (forall i :: 0 <= i < |rows| && rows[i].productId != rows[k].productId ==> r[i] == rows[i])
  {
  }

  /** `makePrimary` re-establishes the primary-image rule, and keeps ids distinct. */
  lemma MakePrimaryKeepsRule(rows: seq<ProductImage>, k: nat)
    requires DistinctIds(rows) && AtMostOnePrimary(rows) && k < |rows|
    ensures DistinctIds(MakePrimaryRows(rows, rows[k]))
    ensures AtMostOnePrimary(MakePrimaryRows(rows, rows[k]))
  {
    var r := MakePrimaryRows(rows, rows[k]);
    forall i, j | 0 <= i < |r| && 0 <= j < |r| && r[i].isPrimary && r[j].isPrimary && r[i].productId == r[j].productId
      ensures i == j
    {
      MakePrimaryExactlyOne(rows, k);
    }
  }

  /** `makePrimary` is idempotent: promoting the same image again (as it is
      stored after the first promotion) gives the same table. */
  lemma MakePrimaryIdempotent(rows: seq<ProductImage>, k: nat)
    requires k < |rows|
    ensures var r := MakePrimaryRows(rows, rows[k]);
      MakePrimaryRows(r, r[k]) == r
  {
  }

  // ---------------------------------------------------------------------------
  // Queries

  /** Route-model binding of `{image}`: the position of the row with that id. */
  function IndexOfId(rows: seq<ProductImage>, id: ImageId): (k: Option<nat>)
    ensures k.Some? ==> k.value < |rows| && rows[k.value].id == id
    ensures k.None? ==> forall i :: 0 <= i < |rows| ==> rows[i].id != id
  {
    if rows == [] then None
    else
      var n := |rows| - 1;
      if rows[n].id == id then
        match IndexOfId(rows[..n], id)
        case None => Some(n)
        case Some(k) => Some(k)
      else IndexOfId(rows[..n], id)
  }

  /** `$product->images()->max('display_order')`: null when the product has no
      rows, otherwise the largest display order among them. */
  function MaxDisplayOrder(rows: seq<ProductImage>, pid: ProductId): (m: Option<int>)
    ensures m.None? <==> forall i :: 0 <= i < |rows| ==> rows[i].productId != pid
    ensures m.Some? ==> exists i :: 0 <= i < |rows| && rows[i].productId == pid && rows[i].displayOrder == m.value
    ensures m.Some? ==> forall i :: 0 <= i < |rows| && rows[i].productId == pid ==> rows[i].displayOrder <= m.value
  {
    if rows == [] then None
    else
      var n := |rows| - 1;
      var before := MaxDisplayOrder(rows[..n], pid);
      if rows[n].productId != pid then before
      else if before.None? || before.value < rows[n].displayOrder then Some(rows[n].displayOrder)
      else before
  }

  /** Row `k` is what `orderBy('display_order')->first()` returns for the
      product: a row of the product with the lowest display order; among rows
      with equal order, the earliest one in the table. */
  ghost predicate IsFirstByOrder(rows: seq<ProductImage>, pid: ProductId, k: nat)
  {
    k < |rows| && rows[k].productId == pid &&
    forall j :: 0 <= j < |rows| && rows[j].productId == pid ==>
      rows[k].displayOrder <= rows[j].displayOrder &&
      (j < k ==> rows[k].displayOrder < rows[j].displayOrder)
  }

  /** At most one row is the first by display order. */
  lemma FirstByOrderUnique(rows: seq<ProductImage>, pid: ProductId, a: nat, b: nat)
    requires IsFirstByOrder(rows, pid, a) && IsFirstByOrder(rows, pid, b)
    ensures a == b
  {
  }

  /** `orderBy('display_order')->first()` over the product's rows. */
  function FirstByDisplayOrder(rows: seq<ProductImage>, pid: ProductId): (k: Option<nat>)
    ensures k.None? <==> forall i :: 0 <= i < |rows| ==> rows[i].productId != pid
    ensures k.Some? ==> IsFirstByOrder(rows, pid, k.value)
  {
    if rows == [] then None
    else
      var n := |rows| - 1;
      var before := FirstByDisplayOrder(rows[..n], pid);
      if rows[n].productId != pid then before
      else if before.None? || rows[n].displayOrder < rows[before.value].displayOrder then Some(n)
      else before
  }

  // ---------------------------------------------------------------------------
  // deleteImage

  /** The table without row `k`. */
  function RemoveAt(rows: seq<ProductImage>, k: nat): (r: seq<ProductImage>)
    requires k < |rows|
    ensures |r| == |rows| - 1
    ensures forall i :: 0 <= i < |r| ==> r[i] == rows[if i < k then i else i + 1]
  {
    rows[..k] + rows[k + 1..]
  }

  /** The table after `deleteImage` removes row `k`: if the removed row was
      primary and the product still has rows, its first row by display order
      is promoted with `makePrimary`; otherwise no flag changes. */
  function AfterDeleteImage(rows: seq<ProductImage>, k: nat): seq<ProductImage>
    requires k < |rows|
  {
    var rest := RemoveAt(rows, k);
    if rows[k].isPrimary then
      match FirstByDisplayOrder(rest, rows[k].productId)
      case None => rest
      case Some(j) => MakePrimaryRows(rest, rest[j])
    else rest
  }

  /** Removing a row keeps ids distinct and the primary-image rule. */
  lemma RemoveAtKeepsRule(rows: seq<ProductImage>, k: nat)
    requires k < |rows| && DistinctIds(rows) && AtMostOnePrimary(rows)
    ensures DistinctIds(RemoveAt(rows, k)) && AtMostOnePrimary(RemoveAt(rows, k))
  {
    var r := RemoveAt(rows, k);
    RemoveAtKeepsIds(rows, k);
    forall i, j | 0 <= i < |r| && 0 <= j < |r| && r[i].isPrimary && r[j].isPrimary && r[i].productId == r[j].productId
      ensures i == j
    {
      assert r[i] == rows[if i < k then i else i + 1];
      assert r[j] == rows[if j < k then j else j + 1];
    }
  }

  /** `deleteImage` keeps ids distinct and the primary-image rule. */
  lemma DeleteImageKeepsRule(rows: seq<ProductImage>, k: nat)
    requires k < |rows| && DistinctIds(rows) && AtMostOnePrimary(rows)
    ensures DistinctIds(AfterDeleteImage(rows, k)) && AtMostOnePrimary(AfterDeleteImage(rows, k))
  {
    var rest := RemoveAt(rows, k);
    RemoveAtKeepsRule(rows, k);
    if rows[k].isPrimary {
      match FirstByDisplayOrder(rest, rows[k].productId)
      case None =>
      case Some(j) => MakePrimaryKeepsRule(rest, j);
    }
  }

  /** `makePrimary` moves no row and changes no row's product or display order,
      so the first row by display order is the same before and after. */
  lemma MakePrimaryKeepsFirst(rows: seq<ProductImage>, target: ProductImage, pid: ProductId, j: nat)
    requires IsFirstByOrder(rows, pid, j)
    ensures IsFirstByOrder(MakePrimaryRows(rows, target), pid, j)
  {
    var r := MakePrimaryRows(rows, target);
    assert forall m :: 0 <= m < |r| ==>
      r[m].displayOrder == rows[m].displayOrder && r[m].productId == rows[m].productId;
  }

  /** Deleting the primary image of a product that keeps other images leaves
      exactly one primary row of that product: the remaining row with the
      lowest display order. */
  lemma DeletePrimaryPromotesLowest(rows: seq<ProductImage>, k: nat, w: nat)
    requires k < |rows| && DistinctIds(rows) && rows[k].isPrimary
    requires w < |rows| && w != k && rows[w].productId == rows[k].productId
    ensures var r := AfterDeleteImage(rows, k);
      var pid := rows[k].productId;
      |r| == |rows| - 1 &&
      (exists i :: 0 <= i < |r| && r[i].productId == pid && r[i].isPrimary) &&
      forall i :: 0 <= i < |r| && r[i].productId == pid && r[i].isPrimary ==>
        IsFirstByOrder(r, pid, i)
  {
    var pid := rows[k].productId;
    var rest := RemoveAt(rows, k);
    RemoveAtKeepsIds(rows, k);
    assert rest[if w < k then w else w - 1].productId == pid;
    var j := FirstByDisplayOrder(rest, pid).value;
    var r := MakePrimaryRows(rest, rest[j]);
    assert r == AfterDeleteImage(rows, k);
    MakePrimaryExactlyOne(rest, j);
    MakePrimaryKeepsFirst(rest, rest[j], pid, j);
  }

  /** Removing a row keeps ids distinct. */
  lemma RemoveAtKeepsIds(rows: seq<ProductImage>, k: nat)
    requires k < |rows| && DistinctIds(rows)
    ensures DistinctIds(RemoveAt(rows, k))
  {
    var r := RemoveAt(rows, k);
    forall i, j | 0 <= i < j < |r| ensures r[i].id != r[j].id {
      assert r[i] == rows[if i < k then i else i + 1];
      assert r[j] == rows[if j < k then j else j + 1];
    }
  }

  /** Deleting an image that is not primary promotes nothing: the rows left
      are the others, in order, each with the flag it had. */
  lemma DeleteNonPrimaryImage(rows: seq<ProductImage>, k: nat)
    requires k < |rows| && !rows[k].isPrimary
    ensures AfterDeleteImage(rows, k) == RemoveAt(rows, k)
    ensures forall i :: 0 <= i < |rows| - 1 ==>
      AfterDeleteImage(rows, k)[i].isPrimary == rows[if i < k then i else i + 1].isPrimary
  {
  }

  /** Deleting a product's last image leaves it with no rows and no primary
      image, and changes no other row. */
  lemma DeleteLastImage(rows: seq<ProductImage>, k: nat)
    requires k < |rows|
    requires forall i :: 0 <= i < |rows| && i != k ==> rows[i].productId != rows[k].productId
    ensures AfterDeleteImage(rows, k) == RemoveAt(rows, k)
    ensures ImagesOf(AfterDeleteImage(rows, k), rows[k].productId) == []
  {
    var rest := RemoveAt(rows, k);
    var pid := rows[k].productId;
    forall i | 0 <= i < |rest| ensures rest[i].productId != pid {
      assert rest[i] == rows[if i < k then i else i + 1];
    }
  }

  // ---------------------------------------------------------------------------
  // store: the rows created by the upload loop

  /** The rows `store` creates for a new product `pid`: `outcomes[k]` is the
      stored path of the k-th uploaded file, or None when storing it threw and
      the loop skipped it. Row ids are handed out from `firstId` upwards. */
  function StoredRows(pid: ProductId, outcomes: seq<Option<Path>>, firstId: ImageId): (r: seq<ProductImage>)
    ensures |r| <= |outcomes|
  {
    if outcomes == [] then []
    else
      var n := |outcomes| - 1;
      var before := StoredRows(pid, outcomes[..n], firstId);
      match outcomes[n]
      case None => before
      case Some(path) => before + [ProductImage(firstId + |before|, pid, path, n, n == 0)]
  }

  /** The paths the upload loop of `store` writes to storage. */
  function StoredPaths(outcomes: seq<Option<Path>>): set<Path>
  {
    set k | 0 <= k < |outcomes| && outcomes[k].Some? :: outcomes[k].value
  }

  /** Every created row belongs to the new product, has the next free id,
      takes its upload position as display order and the file stored for that
      position as path, and is primary exactly when that position is 0;
      display orders strictly increase along the rows. */
  ghost predicate StoredShape(r: seq<ProductImage>, pid: ProductId, outcomes: seq<Option<Path>>, firstId: ImageId)
  {
    (forall j :: 0 <= j < |r| ==>
      r[j].productId == pid && r[j].id == firstId + j &&
      0 <= r[j].displayOrder < |outcomes| &&
      outcomes[r[j].displayOrder] == Some(r[j].imagePath) &&
      (r[j].isPrimary <==> r[j].displayOrder == 0)) &&
    (forall i, j :: 0 <= i < j < |r| ==> r[i].displayOrder < r[j].displayOrder)
  }

  lemma {:induction false} StoredRowsShape(pid: ProductId, outcomes: seq<Option<Path>>, firstId: ImageId)
    ensures StoredShape(StoredRows(pid, outcomes, firstId), pid, outcomes, firstId)
  {
    if outcomes != [] {
      var n := |outcomes| - 1;
      var before := StoredRows(pid, outcomes[..n], firstId);
      StoredRowsShape(pid, outcomes[..n], firstId);
      var r := StoredRows(pid, outcomes, firstId);
      assert forall d :: 0 <= d < n ==> outcomes[..n][d] == outcomes[d];
      if outcomes[n].Some? {
        assert r == before + [ProductImage(firstId + |before|, pid, outcomes[n].value, n, n == 0)];
      } else {
        assert r == before;
      }
    }
  }

  /** One more upload adds the file stored for it, if any. */
  lemma StoredPathsSnoc(outcomes: seq<Option<Path>>)
    requires outcomes != []
    ensures StoredPaths(outcomes) == StoredPaths(outcomes[..|outcomes| - 1]) + PathSet(outcomes[|outcomes| - 1])
  {
    var n := |outcomes| - 1;
    assert forall k :: 0 <= k < n ==> outcomes[..n][k] == outcomes[k];
  }

  /** Every stored file gets a row: the rows' paths are exactly the stored paths. */
  lemma {:induction false} StoredRowsPaths(pid: ProductId, outcomes: seq<Option<Path>>, firstId: ImageId)
    ensures PathsOf(StoredRows(pid, outcomes, firstId)) == StoredPaths(outcomes)
  {
    if outcomes != [] {
      var n := |outcomes| - 1;
      var before := StoredRows(pid, outcomes[..n], firstId);
      StoredRowsPaths(pid, outcomes[..n], firstId);
      StoredPathsSnoc(outcomes);
      var r := StoredRows(pid, outcomes, firstId);
      if outcomes[n].Some? {
        assert r == before + [r[|before|]];
        assert PathsOf(r) == PathsOf(before) + {r[|before|].imagePath} by {
          assert forall i :: 0 <= i < |before| ==> r[i] == before[i];
        }
      }
    }
  }

  /** The rows `store` creates satisfy the primary-image rule and have distinct ids. */
  lemma StoredRowsRule(pid: ProductId, outcomes: seq<Option<Path>>, firstId: ImageId)
    ensures DistinctIds(StoredRows(pid, outcomes, firstId))
    ensures AtMostOnePrimary(StoredRows(pid, outcomes, firstId))
  {
    StoredRowsShape(pid, outcomes, firstId);
  }

  /** Adding the rows `store` creates for a new product to a table that has
      no row of that product and only smaller ids keeps the primary-image rule
      and distinct ids. */
  lemma StoreKeepsRule(rows: seq<ProductImage>, pid: ProductId, outcomes: seq<Option<Path>>, firstId: ImageId)
    requires DistinctIds(rows) && AtMostOnePrimary(rows)
    requires forall i :: 0 <= i < |rows| ==> rows[i].id < firstId && rows[i].productId != pid
    ensures DistinctIds(rows + StoredRows(pid, outcomes, firstId))
    ensures AtMostOnePrimary(rows + StoredRows(pid, outcomes, firstId))
  {
    var s := StoredRows(pid, outcomes, firstId);
    StoredRowsShape(pid, outcomes, firstId);
    StoredRowsRule(pid, outcomes, firstId);
    var r := rows + s;
    assert forall j :: |rows| <= j < |r| ==> r[j] == s[j - |rows|];
  }

  /** When the first upload fails, the new product has no primary image; when
      it succeeds, the first row is the primary one. */
  lemma StoredRowsFirstUpload(pid: ProductId, outcomes: seq<Option<Path>>, firstId: ImageId)
    requires outcomes != []
    ensures var r := StoredRows(pid, outcomes, firstId);
      (outcomes[0].None? ==> forall j :: 0 <= j < |r| ==> !r[j].isPrimary) &&
      (outcomes[0].Some? ==> r != [] && r[0].isPrimary)
  {
    StoredRowsShape(pid, outcomes, firstId);
    StoredRowsComplete(pid, outcomes, firstId);
    var r := StoredRows(pid, outcomes, firstId);
    if outcomes[0].Some? {
      assert HasRowAt(r, 0);
      var j :| 0 <= j < |r| && r[j].displayOrder == 0;
      assert forall i :: 0 < i < |r| ==> r[0].displayOrder < r[i].displayOrder;
    }
  }

  /** Some row has display order `k`. */
  ghost predicate HasRowAt(r: seq<ProductImage>, k: int)
  {
    exists j :: 0 <= j < |r| && r[j].displayOrder == k
  }

  /** Every file that was stored has its row. */
  lemma {:induction false} StoredRowsComplete(pid: ProductId, outcomes: seq<Option<Path>>, firstId: ImageId)
    ensures forall k :: 0 <= k < |outcomes| && outcomes[k].Some? ==>
      HasRowAt(StoredRows(pid, outcomes, firstId), k)
  {
    if outcomes != [] {
      var n := |outcomes| - 1;
      var before := StoredRows(pid, outcomes[..n], firstId);
      var r := StoredRows(pid, outcomes, firstId);
      StoredRowsComplete(pid, outcomes[..n], firstId);
      if outcomes[n].Some? {
        assert r == before + [ProductImage(firstId + |before|, pid, outcomes[n].value, n, n == 0)];
      } else {
        assert r == before;
      }
      forall k | 0 <= k < |outcomes| && outcomes[k].Some?
        ensures HasRowAt(r, k)
      {
        if k < n {
          assert outcomes[..n][k] == outcomes[k];
          var j :| 0 <= j < |before| && before[j].displayOrder == k;
          assert r[j].displayOrder == k;
        } else {
          assert r[|before|].displayOrder == k;
        }
      }
    }
  }

  // ---------------------------------------------------------------------------
  // uploadImages: the rows appended after the current last display order

  /** `max('display_order') ?? -1`: the order the appended rows continue from. */
  function LastOrder(rows: seq<ProductImage>, pid: ProductId): int
  {
    match MaxDisplayOrder(rows, pid)
    case None => -1
    case Some(m) => m
  }

  /** The rows `uploadImages` appends for product `pid`, one per stored path:
      the k-th file gets display order `lastOrder + k + 1` and is not primary. */
  function AppendedRows(pid: ProductId, paths: seq<Path>, lastOrder: int, firstId: ImageId): (r: seq<ProductImage>)
    ensures |r| == |paths|
    ensures forall j :: 0 <= j < |r| ==>
      r[j] == ProductImage(firstId + j, pid, paths[j], lastOrder + j + 1, false)
  {
    if paths == [] then []
    else
      var n := |paths| - 1;
      AppendedRows(pid, paths[..n], lastOrder, firstId)
        + [ProductImage(firstId + n, pid, paths[n], lastOrder + n + 1, false)]
  }

  /** Appending after the last display order puts every new row above every
      existing row of the product, keeps the primary rows as they were, and
      keeps the primary-image rule and distinct ids (new ids are above the
      existing ones). */
  lemma AppendKeepsRule(rows: seq<ProductImage>, pid: ProductId, paths: seq<Path>, firstId: ImageId)
    requires DistinctIds(rows) && AtMostOnePrimary(rows)
    requires forall i :: 0 <= i < |rows| ==> rows[i].id < firstId
    ensures var r := rows + AppendedRows(pid, paths, LastOrder(rows, pid), firstId);
      DistinctIds(r) && AtMostOnePrimary(r) &&
      (forall x :: x in ScopePrimary(r) <==> x in ScopePrimary(rows)) &&
      (forall i, j :: 0 <= i < |rows| <= j < |r| && rows[i].productId == pid ==>
        rows[i].displayOrder < r[j].displayOrder)
  {
    var added := AppendedRows(pid, paths, LastOrder(rows, pid), firstId);
    var r := rows + added;
    forall x | x in r ensures x in rows || x in added { }
    forall i, j | 0 <= i < |rows| <= j < |r| && rows[i].productId == pid
      ensures rows[i].displayOrder < r[j].displayOrder
    {
      assert r[j] == added[j - |rows|];
    }
    forall i, j | 0 <= i < j < |r| ensures r[i].id != r[j].id {
      if j >= |rows| {
        assert r[j] == added[j - |rows|];
        if i >= |rows| { assert r[i] == added[i - |rows|]; }
      }
    }
    assert forall j :: |rows| <= j < |r| ==> r[j] == added[j - |rows|] && !r[j].isPrimary;
  }
}
