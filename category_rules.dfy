/** The checks and queries of the category controller that compute rather
    than write: the validation of the category form, the normalisation of the
    parent field, the attributes handed to mass assignment, the listing order
    of `index`, and the parent candidates offered by `create` and `edit`. */
module CategoryRules {
  import opened Common
  import opened Categories

  /** The `parent_id` field as submitted: absent or null, a category id, or
      the form's `'none'` sentinel string. */
  datatype ParentInput = NoParent | ParentRef(id: CategoryId) | NoneSentinel

  /** The request fields of the category forms. */
  datatype CategoryInput = CategoryInput(
    name: string,
    description: Option<string>,
    displayOrder: int,
    parentId: ParentInput,
    isPromotional: bool,
    image: Option<Upload>)

  /** `exists:categories,id` on a present `parent_id`: the value names a row.
      The sentinel names no row, since no category has the id `'none'`. */
  predicate ParentExists(p: ParentInput, table: CategoryTable)
  {
    match p
    case NoParent => true
    case ParentRef(id) => id in table
    case NoneSentinel => false
  }

  /** The fields `$request->validate(...)` reports for a category form; the
      rules are the same on `store` and `update`. */
  function CategoryErrors(a: CategoryInput, table: CategoryTable): (errs: set<Field>)
    ensures Name in errs <==> IsBlank(a.name) || |a.name| > 255
    ensures DisplayOrder in errs <==> a.displayOrder < 0
    ensures ParentId in errs <==> !ParentExists(a.parentId, table)
    ensures errs <= {Name, DisplayOrder, ParentId}
  {
    (if IsBlank(a.name) || |a.name| > 255 then {Name} else {}) +
    (if a.displayOrder < 0 then {DisplayOrder} else {}) +
    (if ParentExists(a.parentId, table) then {} else {ParentId})
  }

  /** The rewrite that runs after validation: a `'none'` parent becomes null. */
  function NormaliseParent(p: ParentInput): (r: Option<CategoryId>)
    ensures r.Some? <==> p.ParentRef?
    ensures r.Some? ==> r.value == p.id
  {
    match p
    case NoParent => None
    case ParentRef(id) => Some(id)
    case NoneSentinel => None
  }

  /** The array handed to `Category::create` / `update`: the validated fields
      with the parent normalised, and `image_path` set to `stored` (where the
      storage collaborator put the upload) only when a file was uploaded. */
  function ValidatedAttributes(a: CategoryInput, stored: Path): (r: Attributes)
    ensures r.parentId == NormaliseParent(a.parentId)
    ensures r.imagePath.Some? <==> a.image.Some?
    ensures r.imagePath.Some? ==> r.imagePath.value == stored
    ensures r.image == a.image
  {
    Attributes(a.name, a.description, a.displayOrder, NormaliseParent(a.parentId),
               a.isPromotional, a.image, if a.image.Some? then Some(stored) else None)
  }

  /** The `'none'` sentinel fails `exists` before the rewrite can see it: a
      form carrying it is always refused, so the rewrite never fires on a
      request that gets through. */
  lemma SentinelRejected(a: CategoryInput, table: CategoryTable)
    requires a.parentId == NoneSentinel
    ensures ParentId in CategoryErrors(a, table)
  {
  }

  /** A form that passes validation yields a row with a name that is not
      blank and has at most 255 characters, a non-negative display order, and a parent that is null or
      an existing category. */
  lemma AcceptedInputIsSound(a: CategoryInput, table: CategoryTable, row: Category, stored: Path)
    requires CategoryErrors(a, table) == {}
    ensures a.parentId != NoneSentinel
    ensures var c := Fill(row, ValidatedAttributes(a, stored));
      !IsBlank(c.name) && 0 < |c.name| <= 255 && c.displayOrder >= 0 && (c.parentId.Some? ==> c.parentId.value in table)
  {
  }

  /** Nothing on the server stops a category from naming itself as parent:
      an otherwise valid update with `parent_id` equal to the category's own
      id passes validation and is stored. */
  lemma UpdateAllowsSelfParent(a: CategoryInput, table: CategoryTable, id: CategoryId, stored: Path)
    requires id in table
    requires !IsBlank(a.name) && |a.name| <= 255 && a.displayOrder >= 0 && a.parentId == ParentRef(id)
    ensures CategoryErrors(a, table) == {}
    ensures Fill(table[id], ValidatedAttributes(a, stored)).parentId == Some(id)
  {
  }

  /** Name order (`orderBy('name')`): lexicographic on character codes. */
  predicate NameLeq(a: string, b: string)
  {
    a == [] || (b != [] && (a[0] < b[0] || (a[0] == b[0] && NameLeq(a[1..], b[1..]))))
  }

  lemma {:induction false} NameLeqTotal(a: string, b: string)
    ensures NameLeq(a, b) || NameLeq(b, a)
  {
    if a != [] && b != [] && a[0] == b[0] {
      NameLeqTotal(a[1..], b[1..]);
    }
  }

  lemma {:induction false} NameLeqTransitive(a: string, b: string, c: string)
    requires NameLeq(a, b) && NameLeq(b, c)
    ensures NameLeq(a, c)
  {
    if a != [] && b != [] && c != [] && a[0] == b[0] && b[0] == c[0] {
      NameLeqTransitive(a[1..], b[1..], c[1..]);
    }
  }

  /** `orderBy('display_order')->orderBy('name')`: `x` may be listed before `y`. */
  predicate Precedes(x: Category, y: Category)
  {
    x.displayOrder < y.displayOrder || (x.displayOrder == y.displayOrder && NameLeq(x.name, y.name))
  }

  lemma PrecedesTotal(x: Category, y: Category)
    ensures Precedes(x, y) || Precedes(y, x)
  {
    NameLeqTotal(x.name, y.name);
  }

  lemma PrecedesTransitive(x: Category, y: Category, z: Category)
    requires Precedes(x, y) && Precedes(y, z)
    ensures Precedes(x, z)
  {
    if x.displayOrder == y.displayOrder == z.displayOrder {
      NameLeqTransitive(x.name, y.name, z.name);
    }
  }

  /** Every row is listed no later than the rows after it. */
  ghost predicate Sorted(s: seq<Category>)
  {
    forall i, j :: 0 <= i < j < |s| ==> Precedes(s[i], s[j])
  }

  /** Places `x` before the first row it precedes. */
  function Insert(x: Category, s: seq<Category>): (r: seq<Category>)
    requires Sorted(s)
    ensures Sorted(r)
    ensures multiset(r) == multiset(s) + multiset{x}
  {
    if s == [] then [x]
    else if Precedes(x, s[0]) then
      forall j | 0 <= j < |s| ensures Precedes(x, s[j]) {
        if j > 0 { PrecedesTransitive(x, s[0], s[j]); }
      }
      [x] + s
    else
      PrecedesTotal(x, s[0]);
      assert s == [s[0]] + s[1..];
      var rest := Insert(x, s[1..]);
      forall y | y in rest ensures Precedes(s[0], y) {
        assert y in multiset(rest);
      }
      [s[0]] + rest
  }

  /** The rows in listing order: sorted, and the same rows. */
  function SortForListing(s: seq<Category>): (r: seq<Category>)
    ensures Sorted(r)
    ensures multiset(r) == multiset(s)
  {
    if s == [] then []
    else
      assert s == [s[0]] + s[1..];
      Insert(s[0], SortForListing(s[1..]))
  }

  /** The rows with an id below `n`, in id order. */
  function RowsBelow(table: CategoryTable, n: nat): (r: seq<Category>)
    ensures forall c :: c in r ==> c in table.Values
    ensures forall id :: id in table && id < n ==> table[id] in r
    ensures Keyed(table) ==> forall c :: c in r ==> c.id < n
    ensures Keyed(table) ==> forall i, j :: 0 <= i < j < |r| ==> r[i].id < r[j].id
  {
    if n == 0 then []
    else
      var before := RowsBelow(table, n - 1);
      if n - 1 in table then before + [table[n - 1]] else before
  }

  /** No row is listed twice. */
  predicate Once(s: seq<Category>)
  {
    forall i, j :: 0 <= i < j < |s| ==> s[i] != s[j]
  }

  /** A listing without repeats holds each row at most once as a multiset. */
  lemma {:induction false} OnceCounts(s: seq<Category>)
    requires Once(s)
    ensures forall x :: multiset(s)[x] <= 1
  {
    if s != [] {
      assert s == [s[0]] + s[1..];
      OnceCounts(s[1..]);
      assert s[0] !in s[1..];
    }
  }

  /** Two equal entries count twice in the multiset of a listing. */
  lemma RepeatCounts(s: seq<Category>, i: nat, j: nat)
    requires i < j < |s|
    ensures s[i] == s[j] ==> multiset(s)[s[i]] >= 2
  {
    assert s == s[..j] + s[j..];
    assert s[i] in s[..j];
    assert s[j] in s[j..];
  }

  /** Rows drawn from the table scan, each as often as it occurs there, are
      listed at most once each. */
  lemma ListedOnce(table: CategoryTable, bound: nat, r: seq<Category>)
    requires multiset(r) <= multiset(RowsBelow(table, bound))
    ensures Keyed(table) ==> Once(r)
  {
    if Keyed(table) {
      var rows := RowsBelow(table, bound);
      OnceCounts(rows);
      forall i, j | 0 <= i < j < |r| ensures r[i] != r[j] {
        RepeatCounts(r, i, j);
      }
    }
  }

  /** Every key of the table is below `bound`. */
  predicate Bounded(table: CategoryTable, bound: nat)
  {
    forall id :: id in table ==> id < bound
  }

  /** `index`: every category, in display order and then name order. */
  function Listing(table: CategoryTable, bound: nat): (r: seq<Category>)
    requires Bounded(table, bound)
    ensures Sorted(r)
    ensures forall c :: c in r <==> c in table.Values
    ensures Keyed(table) ==> Once(r)
  {
    var rows := RowsBelow(table, bound);
    var r := SortForListing(rows);
    ListedOnce(table, bound, r);
    forall c | c in r ensures c in rows { assert c in multiset(r); }
    forall c | c in rows ensures c in r { assert c in multiset(rows); }
    r
  }

  /** `create`: the parent candidates are the main categories, in listing order. */
  function CreateCandidates(table: CategoryTable, bound: nat): (r: seq<Category>)
    requires Bounded(table, bound)
    ensures Sorted(r)
    ensures forall c :: c in r <==> c in table.Values && IsMainCategory(c)
    ensures Keyed(table) ==> Once(r)
  {
    var rows := Where(RowsBelow(table, bound), IsMainCategory);
    var r := SortForListing(rows);
    ListedOnce(table, bound, r);
    forall c | c in r ensures c in rows { assert c in multiset(r); }
    forall c | c in rows ensures c in r { assert c in multiset(rows); }
    r
  }

  /** `edit`: absent when no category has the id (the route answers 404);
      otherwise the main categories other than the one being edited, in
      listing order. */
  function EditCandidates(table: CategoryTable, bound: nat, id: CategoryId): (r: Option<seq<Category>>)
    requires Bounded(table, bound)
    ensures r.Some? <==> id in table
    ensures r.Some? ==> Sorted(r.value)
    ensures r.Some? ==> forall c :: c in r.value <==> c in table.Values && IsMainCategory(c) && c.id != id
    ensures r.Some? && Keyed(table) ==> Once(r.value)
  {
    if id !in table then None
    else
      var rows := Where(RowsBelow(table, bound), (c: Category) => IsMainCategory(c) && c.id != id);
      var r := SortForListing(rows);
      ListedOnce(table, bound, r);
      forall c | c in r ensures c in rows { assert c in multiset(r); }
      forall c | c in rows ensures c in r { assert c in multiset(rows); }
      Some(r)
  }

  /** The edit form offers the create form's candidates less the category
      being edited: no category is offered as its own parent, and a main
      category loses only itself. */
  lemma EditCandidatesDropOnlySelf(table: CategoryTable, bound: nat, id: CategoryId)
    requires Bounded(table, bound) && Keyed(table) && id in table
    ensures table[id] !in EditCandidates(table, bound, id).value
    ensures forall c :: c in CreateCandidates(table, bound) && c != table[id] ==> c in EditCandidates(table, bound, id).value
  {
  }
}
