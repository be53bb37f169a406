/**
 * `CategoryService`: the hierarchical category store. The service owns the
 * `Categories` table and reads the `CategoryId` column of the documents table;
 * every query and update keeps the table a forest whose foreign keys resolve.
 */
module Categories {
  import opened Wrappers
  import opened Sorting
  import opened Rows
  import opened CategoryForest

  /** The exceptions the service throws. */
  datatype Error =
    | CategoryNotFound  // ArgumentException: the category to update does not exist
    | ParentNotFound    // ArgumentException: the requested parent does not exist
    | OwnParent         // ArgumentException: the category was named as its own parent
    | DescendantParent  // ArgumentException: the requested parent lies below the category
    | HasDependents     // InvalidOperationException: the category cannot be deleted

  /** `CategoryDto`. */
  datatype CategorySummary = CategorySummary(
    id: int,
    name: string,
    parentId: Option<int>,
    parentName: Option<string>,
    documentsCount: nat,
    subCategoriesCount: nat,
    createdAt: Timestamp,
    updatedAt: Timestamp)

  /** The rows `SeedData.Initialize` puts in the table: two roots and two children of the first. */
  function SeedCategories(now: Timestamp): (cats: Table)
    ensures cats.Keys == {1, 2, 3, 4}
    ensures NoDanglingParents(cats) && WellFounded(cats)
  {
    var cats := map[
      1 := Category("Technology", None, now, now),
      2 := Category("Science", None, now, now),
      3 := Category("Programming", Some(1), now, now),
      4 := Category("Database", Some(1), now, now)];
    assert forall id :: id in cats ==> ReachesRoot(cats, id, 1);
    cats
  }

  class CategoryService {
    /** The `Categories` table. */
    var categories: Table
    /** The table's keys in storage (primary key) order. */
    var rows: seq<int>
    /** The next value of the identity column. */
    var nextId: int
    /** The documents table, reduced to each document's `CategoryId`. */
    var documents: DocumentTable

    /**
     * The table is stored in key order, the identity column is ahead of every
     * key, `ParentId` and `CategoryId` resolve, and every parent chain ends.
     */
    ghost predicate Valid()
      reads this
    {
      && Increasing(rows)
      && (forall id :: id in rows <==> id in categories)
      && (forall id :: id in categories ==> id < nextId)
      && NoDanglingParents(categories)
      && WellFounded(categories)
      && (forall d :: d in documents && documents[d].Some? ==> documents[d].value in categories)
    }

    /** The database after the seed migration, with no documents yet. */
    constructor Seeded(now: Timestamp)
      ensures Valid()
      ensures categories == SeedCategories(now) && rows == [1, 2, 3, 4] && nextId == 5
      ensures documents == map[]
    {
      categories := SeedCategories(now);
      rows := [1, 2, 3, 4];
      nextId := 5;
      documents := map[];
    }

    /** The `CategoryDto` of a stored category, with or without its parent's name. */
    function Summary(id: int, withParentName: bool): (s: CategorySummary)
      reads this
      requires id in categories
      ensures s.id == id && s.name == categories[id].name && s.parentId == categories[id].parentId
      ensures s.createdAt == categories[id].createdAt && s.updatedAt == categories[id].updatedAt
      ensures s.parentName.Some? <==>
        withParentName && s.parentId.Some? && s.parentId.value in categories
      ensures s.parentName.Some? ==> s.parentName.value == categories[s.parentId.value].name
      ensures s.documentsCount == |DocumentsIn(documents, id)|
      ensures s.subCategoriesCount == |ChildIds(categories, id)|
    {
      var c := categories[id];
      var parentName :=
        if withParentName && c.parentId.Some? && c.parentId.value in categories
        then Some(categories[c.parentId.value].name) else None;
      CategorySummary(id, c.name, c.parentId, parentName,
        |DocumentsIn(documents, id)|, |ChildIds(categories, id)|, c.createdAt, c.updatedAt)
    }

    /** The projection `Select(c => new CategoryDto { … })` over a list of rows. */
    function Summaries(ids: seq<int>, withParentName: bool): (r: seq<CategorySummary>)
      reads this
      requires forall id :: id in ids ==> id in categories
      ensures |r| == |ids|
      ensures forall i :: 0 <= i < |ids| ==> r[i] == Summary(ids[i], withParentName)
    {
      if ids == [] then [] else [Summary(ids[0], withParentName)] + Summaries(ids[1..], withParentName)
    }

    /**
     * The summaries of a key-ordered list of rows list exactly those rows, in
     * ascending key order, each with its own summary.
     */
    lemma SummariesFollowRows(ids: seq<int>, withParentName: bool, r: seq<CategorySummary>)
      requires Increasing(ids) && forall id :: id in ids ==> id in categories
      requires r == Summaries(ids, withParentName)
      ensures |r| == |ids|
      ensures forall x :: x in ids <==> exists i :: 0 <= i < |r| && r[i].id == x
      ensures forall i, j :: 0 <= i < j < |r| ==> r[i].id < r[j].id
      ensures forall i :: 0 <= i < |r| ==> r[i].id in categories && r[i] == Summary(r[i].id, withParentName)
    {
      forall i | 0 <= i < |r| ensures r[i].id == ids[i] && ids[i] in categories {
        assert ids[i] in ids;
      }
      forall x | x in ids ensures exists i :: 0 <= i < |r| && r[i].id == x {
        var i :| 0 <= i < |ids| && ids[i] == x;
        assert r[i].id == x;
      }
    }

    /** `GetAllAsync`: every category once, in key order, with its parent's name and its counts. */
    function GetAll(): (r: seq<CategorySummary>)
      reads this
      requires Valid()
      ensures |r| == |categories|
      ensures forall id :: id in categories <==> exists i :: 0 <= i < |r| && r[i].id == id
      ensures forall i, j :: 0 <= i < j < |r| ==> r[i].id < r[j].id
      ensures forall i :: 0 <= i < |r| ==> r[i].id in categories && r[i] == Summary(r[i].id, true)
    {
      var r := Summaries(rows, true);
      SummariesFollowRows(rows, true, r);
      RowsCount(rows, categories.Keys);
      r
    }

    /** `GetByIdAsync`: the category's summary, or nothing when no row has that key. */
    function GetById(id: int): (r: Option<CategorySummary>)
      reads this
      ensures r.Some? <==> id in categories
      ensures r.Some? ==> r.value == Summary(id, true)
    {
      if id in categories then Some(Summary(id, true)) else None
    }

    /** The query `Where(c => c.ParentId == parentId)`: the rows of the children, in key order. */
    function ChildRows(parentId: int): (ids: seq<int>)
      reads this
      requires Valid()
      ensures Increasing(ids)
      ensures forall c :: c in ids <==> c in ChildIds(categories, parentId)
    {
      var cats := categories;
      Where(rows, c => c in cats && cats[c].parentId == Some(parentId))
    }

    /**
     * `GetSubCategoriesAsync`: the direct children of `parentId`, each once, in key
     * order; this projection leaves `ParentName` unset.
     */
    function GetSubCategories(parentId: int): (r: seq<CategorySummary>)
      reads this
      requires Valid()
      ensures forall c :: c in ChildIds(categories, parentId) <==> exists i :: 0 <= i < |r| && r[i].id == c
      ensures forall i, j :: 0 <= i < j < |r| ==> r[i].id < r[j].id
      ensures forall i :: 0 <= i < |r| ==>
        r[i].id in categories && r[i] == Summary(r[i].id, false) && r[i].parentName.None?
    {
      var children := ChildRows(parentId);
      var r := Summaries(children, false);
      SummariesFollowRows(children, false, r);
      r
    }

    /**
     * `CanDeleteAsync`: the category exists, no category names it as parent and
     * no document is filed under it.
     */
    function CanDelete(id: int): (r: bool)
      reads this
      ensures r <==>
        && id in categories
        && (forall c :: c in categories ==> categories[c].parentId != Some(id))
        && (forall d :: d in documents ==> documents[d] != Some(id))
    {
      if id !in categories then false
      else
        var noChildren := ChildIds(categories, id) == {};
        var noDocuments := DocumentsIn(documents, id) == {};
        NoChildrenIff(categories, id);
        NoDocumentsIff(documents, id);
        noChildren && noDocuments
    }

    /**
     * `IsDescendantAsync`: walks up from `potentialDescendantId` one parent at a
     * time and reports whether the walk meets `parentId`.
     */
    method IsDescendant(parentId: int, potentialDescendantId: int) returns (r: bool)
      requires Valid()
      ensures r <==> IsAncestor(categories, parentId, potentialDescendantId)
    {
      var current: Option<int> :=
        if potentialDescendantId in categories then Some(potentialDescendantId) else None;
      ghost var steps: nat := 0;
      if current.Some? {
        steps :| ReachesRoot(categories, potentialDescendantId, steps);
      }
      while current.Some?
        invariant current.Some? ==> ReachesRoot(categories, current.value, steps)
        invariant IsAncestor(categories, parentId, potentialDescendantId) <==>
          current.Some? && IsAncestor(categories, parentId, current.value)
        decreases steps
      {
        var category := categories[current.value];
        if category.parentId == Some(parentId) {
          assert AncestorWithin(categories, parentId, current.value, 0);
          return true;
        }
        if category.parentId.None? {
          assert forall n: nat :: !AncestorWithin(categories, parentId, current.value, n);
          break;
        }
        AncestorStep(categories, parentId, current.value);
        var next := category.parentId.value;
        current := if next in categories then Some(next) else None;
        steps := steps - 1;
      }
      return false;
    }

    /**
     * `MapToTreeDto`: the tree below category `id`, children ordered by name.
     * The recursion ends because each child has strictly fewer descendants.
     */
    method MapToTree(id: int) returns (node: TreeNode)
      requires Valid() && id in categories
      ensures node.id == id && IsTreeOf(categories, documents, node)
      decreases Descendants(categories, id)
    {
      var category := categories[id];
      var children := ChildRows(id);
      NameOrderIsTotalPreorder(categories);
      var ordered := SortBy(children, NameOrder(categories));
      WellFoundedIsAcyclic(categories);
      var subs: seq<TreeNode> := [];
      for i := 0 to |ordered|
        invariant |subs| == i
        invariant forall k :: 0 <= k < i ==> subs[k].id == ordered[k] && IsTreeOf(categories, documents, subs[k])
      {
        assert ordered[i] in multiset(children);
        ChildDescendantsShrink(categories, id, ordered[i]);
        var sub := MapToTree(ordered[i]);
        subs := subs + [sub];
      }
      node := TreeNode(id, category.name, category.parentId, |DocumentsIn(documents, id)|, subs);
      ChildrenMakeTree(categories, documents, children, ordered, node);
    }

    /**
     * `GetTreeAsync`: one tree per root category, roots in key order. Together
     * the trees hold every category exactly once.
     */
    method GetTree() returns (forest: seq<TreeNode>)
      requires Valid()
      ensures forall r :: r in categories && categories[r].parentId.None? <==>
        exists i :: 0 <= i < |forest| && forest[i].id == r
      ensures forall i, j :: 0 <= i < j < |forest| ==> forest[i].id < forest[j].id
      ensures forall i :: 0 <= i < |forest| ==> IsTreeOf(categories, documents, forest[i])
      ensures forall x :: x in IdsOf(forest) <==> x in categories
      ensures NoDuplicates(IdsOf(forest))
      ensures |IdsOf(forest)| == |categories|
    {
      var cats := categories;
      var roots := Where(rows, c => c in cats && cats[c].parentId.None?);
      forest := [];
      for i := 0 to |roots|
        invariant |forest| == i
        invariant forall k :: 0 <= k < i ==> forest[k].id == roots[k] && IsTreeOf(categories, documents, forest[k])
      {
        var tree := MapToTree(roots[i]);
        forest := forest + [tree];
      }
      ForestHoldsEachCategoryOnce(categories, documents, roots, forest);
    }

    /**
     * `CreateAsync`: rejects a missing parent; otherwise stores a new row under
     * the next identity value and returns its summary.
     */
    method Create(name: string, parentId: Option<int>, now: Timestamp) returns (r: Result<CategorySummary, Error>)
      requires Valid()
      modifies this
      ensures Valid() && Acyclic(categories)
      ensures documents == old(documents)
      ensures r.Failure? <==> parentId.Some? && parentId.value !in old(categories)
      ensures r.Failure? ==>
        r.error == ParentNotFound && categories == old(categories) && rows == old(rows) && nextId == old(nextId)
      ensures r.Success? ==>
        && r.value.id == old(nextId) && r.value.id !in old(categories)
        && categories == old(categories)[r.value.id := Category(name, parentId, now, now)]
        && rows == old(rows) + [r.value.id]
        && nextId > r.value.id
        && r.value == Summary(r.value.id, true)
        && r.value.subCategoriesCount == 0 && r.value.documentsCount == 0
    {
      WellFoundedIsAcyclic(categories);
      if parentId.Some? && parentId.value !in categories {
        return Failure(ParentNotFound);
      }
      var id := nextId;
      var category := Category(name, parentId, now, now);
      FreshCategoryIsLeaf(categories, documents, id, category);
      AddKeepsForest(categories, id, category);
      AppendKeepsRows(rows, categories.Keys, id);
      categories := categories[id := category];
      rows := rows + [id];
      nextId := nextId + 1;
      WellFoundedIsAcyclic(categories);
      var found := GetById(id);
      r := Success(found.value);
    }

    /** The checks `UpdateAsync` makes before it writes, in the order it makes them. */
    ghost function UpdateCheck(id: int, parentId: Option<int>): (e: Option<Error>)
      reads this
      requires Valid()
      ensures e == None <==>
        id in categories &&
        (parentId.Some? ==> parentId.value in categories && parentId.value != id && !IsAncestor(categories, id, parentId.value))
    {
      if id !in categories then Some(CategoryNotFound)
      else if parentId.Some? && parentId.value == id then Some(OwnParent)
      else if parentId.Some? && IsAncestor(categories, id, parentId.value) then Some(DescendantParent)
      else if parentId.Some? && parentId.value !in categories then Some(ParentNotFound)
      else None
    }

    /**
     * `UpdateAsync`: renames and re-parents a category unless that would leave
     * the table with a cycle or a dangling parent; a rejected update changes nothing.
     */
    method Update(id: int, name: string, parentId: Option<int>, now: Timestamp) returns (r: Result<CategorySummary, Error>)
      requires Valid()
      modifies this
      ensures Valid() && Acyclic(categories)
      ensures documents == old(documents) && rows == old(rows) && nextId == old(nextId)
      ensures r.Failure? <==> old(UpdateCheck(id, parentId)).Some?
      ensures r.Failure? ==> r.error == old(UpdateCheck(id, parentId)).value && categories == old(categories)
      ensures r.Success? ==>
        && id in old(categories)
        && categories == old(categories)[id := Category(name, parentId, old(categories)[id].createdAt, now)]
        && r.value == Summary(id, true)
    {
      WellFoundedIsAcyclic(categories);
      if id !in categories {
        return Failure(CategoryNotFound);
      }
      if parentId.Some? {
        if parentId.value == id {
          return Failure(OwnParent);
        }
        var cycle := IsDescendant(id, parentId.value);
        if cycle {
          return Failure(DescendantParent);
        }
        if parentId.value !in categories {
          return Failure(ParentNotFound);
        }
      }
      var category := Category(name, parentId, categories[id].createdAt, now);
      ReparentKeepsForest(categories, id, category);
      categories := categories[id := category];
      WellFoundedIsAcyclic(categories);
      var found := GetById(id);
      r := Success(found.value);
    }

    /**
     * `DeleteAsync`: removes a category that has no sub-categories and no
     * documents; any other id, including one with no row, is refused.
     */
    method Delete(id: int) returns (r: Result<bool, Error>)
      requires Valid()
      modifies this
      ensures Valid()
      ensures documents == old(documents) && nextId == old(nextId)
      ensures r.Failure? <==> !old(CanDelete(id))
      ensures r.Failure? ==> r.error == HasDependents && categories == old(categories) && rows == old(rows)
      ensures r.Success? ==> r.value && categories == old(categories) - {id} && rows == Without(old(rows), id)
    {
      if !CanDelete(id) {
        return Failure(HasDependents);
      }
      // `FindAsync` finds the row here: `CanDelete` has just seen it.
      NoChildrenIff(categories, id);
      RemoveLeafKeepsForest(categories, id);
      categories := categories - {id};
      rows := Without(rows, id);
      return Success(true);
    }
  }

  /** Making a child of Technology the parent of Technology is refused, and the seed is kept. */
  method RejectCycleOnSeed(now: Timestamp) returns (r: Result<CategorySummary, Error>)
    ensures r == Failure(DescendantParent)
  {
    var service := new CategoryService.Seeded(now);
    assert AncestorWithin(service.categories, 1, 3, 0);
    r := service.Update(1, "Technology", Some(3), now);
  }

  /**
   * Create "Tech", create "Prog" under it, then try to put "Tech" under "Prog":
   * the update is refused as a cycle.
   */
  method CycleScenario(now: Timestamp) returns (tech: Result<CategorySummary, Error>,
                                               prog: Result<CategorySummary, Error>,
                                               reparent: Result<CategorySummary, Error>)
    ensures tech.Success? && prog.Success? && prog.value.parentId == Some(tech.value.id)
    ensures reparent == Failure(DescendantParent)
  {
    var service := new CategoryService.Seeded(now);
    tech := service.Create("Tech", None, now);
    prog := service.Create("Prog", Some(tech.value.id), now);
    assert AncestorWithin(service.categories, tech.value.id, prog.value.id, 0);
    reparent := service.Update(tech.value.id, "Tech", Some(prog.value.id), now);
  }

  /** Technology cannot be deleted while it has sub-categories; Science can. */
  method DeleteOnSeed(now: Timestamp) returns (technology: Result<bool, Error>, science: Result<bool, Error>)
    ensures technology == Failure(HasDependents)
    ensures science == Success(true)
  {
    var service := new CategoryService.Seeded(now);
    assert service.categories[3].parentId == Some(1);
    technology := service.Delete(1);
    science := service.Delete(2);
  }
}
