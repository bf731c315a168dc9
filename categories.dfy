/** The `Category` model: one row of the categories table, its mass-assignable
    attributes, and the `parent` / `children` relations over the table. */
module Categories {
  import opened Common

  datatype Category = Category(
    id: CategoryId,
    name: string,
    description: Option<string>,
    displayOrder: int,
    parentId: Option<CategoryId>,
    imagePath: Option<Path>,
    isPromotional: bool)

  /** The categories table, keyed by primary key. */
  type CategoryTable = map<CategoryId, Category>

  /** Every row is stored under its own id. */
  ghost predicate Keyed(table: CategoryTable)
  {
    forall id :: id in table ==> table[id].id == id
  }

  /** Every `parent_id` names a row of the table. */
  ghost predicate ParentsResolve(table: CategoryTable)
  {
    forall id :: id in table && table[id].parentId.Some? ==> table[id].parentId.value in table
  }

  /** `isMainCategory()`: the row has no parent. */
  predicate IsMainCategory(c: Category)
  {
    c.parentId.None?
  }

  /** `isPromotional()`: the boolean value of the flag. */
  predicate IsPromotional(c: Category)
  {
    c.isPromotional
  }

  /** The `parent` relation (belongsTo on parent_id): the row whose id is
      `parent_id`, absent when `parent_id` is null or names no row. */
  function Parent(table: CategoryTable, c: Category): (r: Option<Category>)
    ensures r.Some? ==> c.parentId.Some? && c.parentId.value in table && r.value == table[c.parentId.value]
    ensures c.parentId.None? ==> r.None?
    ensures c.parentId.Some? && c.parentId.value in table ==> r == Some(table[c.parentId.value])
  {
    match c.parentId
    case None => None
    case Some(p) => if p in table then Some(table[p]) else None
  }

  /** The `children` relation (hasMany on parent_id): the rows whose
      `parent_id` is this category's id. */
  function Children(table: CategoryTable, c: Category): set<Category>
  {
    set id | id in table && table[id].parentId == Some(c.id) :: table[id]
  }

  /** `children` and `parent` are two views of one foreign key: a row is a
      child of `c` exactly when `c` is its parent. */
  lemma ChildIffParent(table: CategoryTable, c: Category, d: Category)
    requires Keyed(table)
    requires c in table.Values
    ensures d in Children(table, c) <==> d in table.Values && Parent(table, d) == Some(c)
  {
    if d in table.Values && Parent(table, d) == Some(c) {
      assert table[d.id] == d;
    }
  }

  /** On a table whose parents resolve, a category is a main category exactly
      when it has no parent row. */
  lemma MainIffNoParent(table: CategoryTable, c: Category)
    requires ParentsResolve(table)
    requires c in table.Values
    ensures IsMainCategory(c) <==> Parent(table, c).None?
  {
    var id :| id in table && table[id] == c;
  }

  /** A category stored as its own parent is its own child, so the table
      always shows it as having a subcategory. */
  lemma SelfParentIsOwnChild(table: CategoryTable, id: CategoryId)
    requires Keyed(table)
    requires id in table && table[id].parentId == Some(id)
    ensures table[id] in Children(table, table[id])
  {
  }

  /** The validated request attributes as `Category::create` / `update` see
      them: `image` is the uploaded file, `imagePath` is None when the key is
      absent from the array (no file was uploaded). */
  datatype Attributes = Attributes(
    name: string,
    description: Option<string>,
    displayOrder: int,
    parentId: Option<CategoryId>,
    isPromotional: bool,
    image: Option<Upload>,
    imagePath: Option<Path>)

  /** The row a new category starts from before mass assignment. */
  function NewCategory(id: CategoryId): Category
  {
    Category(id, "", None, 0, None, None, false)
  }

  /** Mass assignment restricted to `$fillable`: name, description,
      display_order, parent_id, image_path, is_promotional. The `image` key is
      not fillable, and an absent `image_path` key leaves the column alone. */
  function Fill(row: Category, a: Attributes): (r: Category)
    ensures r.id == row.id
    ensures r.imagePath == if a.imagePath.Some? then a.imagePath else row.imagePath
  {
    row.(name := a.name, description := a.description, displayOrder := a.displayOrder,
         parentId := a.parentId, isPromotional := a.isPromotional,
         imagePath := if a.imagePath.Some? then a.imagePath else row.imagePath)
  }

  /** The uploaded file itself never reaches a column: only the stored path does. */
  lemma FillIgnoresImageKey(row: Category, a: Attributes, other: Option<Upload>)
    ensures Fill(row, a.(image := other)) == Fill(row, a)
  {
  }
}
