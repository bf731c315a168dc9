/** Types shared by every table of the catalog: optional values, row keys,
    stored file paths, the form fields a validation error is keyed by, and the
    `where` filter every query scope is built from. */
module Common {

  datatype Option<T> = None | Some(value: T)

  /** Auto-increment primary keys of the three tables. */
  type ProductId = nat
  type CategoryId = nat
  type ImageId = nat

  /** A path on the public storage disk, as `store()` returns it. */
  type Path = string

  /** An uploaded file as the request carries it. Only its presence matters:
      where storage puts it is decided by the storage collaborator and given
      to the actions separately. */
  datatype Upload = Upload

  /** The request fields a validation error can be attached to. */
  datatype Field =
    | Title | Status | RegularPrice | CompareAtPrice | CostPerItem
    | StockQuantity | Sku | Categories | CategoryItem(index: nat) | Images
    | Name | DisplayOrder | ParentId

  /** What Laravel's `required` rule refuses in a string: one that is empty
      once PHP's `trim` has removed spaces, tabs, line breaks, NUL and
      vertical tabs. */
  predicate IsBlank(s: string)
  {
    forall i :: 0 <= i < |s| ==> s[i] in {' ', '\t', '\n', '\r', '\U{0000}', '\U{000B}'}
  }

  /** A value a rule that is not implicit (`string`, `max`, `unique`, ...)
      is run on: present and not blank. Laravel skips such rules on a blank
      value. */
  predicate Filled(v: Option<string>)
  {
    v.Some? && !IsBlank(v.value)
  }

  /** The set of paths held by an optional path column. */
  function PathSet(p: Option<Path>): set<Path>
  {
    if p.Some? then {p.value} else {}
  }

  /** PHP truthiness of a nullable path column: null, "" and "0" are false. */
  predicate Truthy(p: Option<Path>)
  {
    p.Some? && p.value != "" && p.value != "0"
  }

  /** `where(...)`: the rows that satisfy `keep`, in their original order. */
  function Where<T(==,!new)>(rows: seq<T>, keep: T -> bool): (r: seq<T>)
    ensures |r| <= |rows|
    ensures forall x :: x in r <==> x in rows && keep(x)
    ensures multiset(r) <= multiset(rows)
    ensures r == [] <==> forall x :: x in rows ==> !keep(x)
  {
    if rows == [] then []
    else
      assert rows == [rows[0]] + rows[1..];
      (if keep(rows[0]) then [rows[0]] else []) + Where(rows[1..], keep)
  }
}
