/**
 * The category table as a value: records keyed by id, each naming at most one
 * parent. This module defines the ancestor relation along `ParentId` links, the
 * invariant that every chain of parents ends at a root, and what a materialised
 * tree of categories is; the lemmas say which table updates keep the invariant.
 */
module CategoryForest {
  import opened Wrappers
  import opened Text
  import opened Sorting
  import opened Rows

  /** A row of the `Categories` table, without its key. */
  datatype Category = Category(name: string, parentId: Option<int>, createdAt: Timestamp, updatedAt: Timestamp)

  /** The `Categories` table: id to record. */
  type Table = map<int, Category>

  /** The only column of the documents table the category engine reads: document id to `CategoryId`. */
  type DocumentTable = map<int, Option<int>>

  /** `CategoryTreeDto`: a category with its sub-categories materialised below it. */
  datatype TreeNode = TreeNode(id: int, name: string, parentId: Option<int>, documentsCount: nat, subCategories: seq<TreeNode>)

  /** The ids of the categories whose parent is `id` (the `SubCategories` collection). */
  function ChildIds(cats: Table, id: int): set<int> {
    set c | c in cats && cats[c].parentId == Some(id)
  }

  /** The ids of the documents filed under category `id` (the `Documents` collection). */
  function DocumentsIn(docs: DocumentTable, id: int): set<int> {
    set d | d in docs && docs[d] == Some(id)
  }

  lemma NoChildrenIff(cats: Table, id: int)
    ensures ChildIds(cats, id) == {} <==> forall c :: c in cats ==> cats[c].parentId != Some(id)
  {
    if forall c :: c in cats ==> cats[c].parentId != Some(id) {
      assert forall c :: c !in ChildIds(cats, id);
    }
    if ChildIds(cats, id) == {} {
      forall c | c in cats ensures cats[c].parentId != Some(id) {
        assert c !in ChildIds(cats, id);
      }
    }
  }

  lemma NoDocumentsIff(docs: DocumentTable, id: int)
    ensures DocumentsIn(docs, id) == {} <==> forall d :: d in docs ==> docs[d] != Some(id)
  {
    if forall d :: d in docs ==> docs[d] != Some(id) {
      assert forall d :: d !in DocumentsIn(docs, id);
    }
    if DocumentsIn(docs, id) == {} {
      forall d | d in docs ensures docs[d] != Some(id) {
        assert d !in DocumentsIn(docs, id);
      }
    }
  }

  /** A category stored under a fresh key has no children and no documents yet. */
  lemma FreshCategoryIsLeaf(cats: Table, docs: DocumentTable, id: int, c: Category)
    requires id !in cats
    requires forall x :: x in cats && cats[x].parentId.Some? ==> cats[x].parentId.value in cats
    requires c.parentId.Some? ==> c.parentId.value in cats
    requires forall d :: d in docs && docs[d].Some? ==> docs[d].value in cats
    ensures ChildIds(cats[id := c], id) == {}
    ensures DocumentsIn(docs, id) == {}
  {
    var cats2 := cats[id := c];
    forall x | x in cats2 ensures cats2[x].parentId != Some(id) {
      if x != id {
        assert cats2[x] == cats[x];
      }
    }
    NoChildrenIff(cats2, id);
    NoDocumentsIff(docs, id);
  }

  /** The foreign key `ParentId` never dangles: deletion of a parent is restricted. */
  ghost predicate NoDanglingParents(cats: Table) {
    forall id :: id in cats && cats[id].parentId.Some? ==> cats[id].parentId.value in cats
  }

  /** Following parents from `id` reaches a category without a parent in at most `n` steps. */
  ghost predicate ReachesRoot(cats: Table, id: int, n: nat)
    decreases n
  {
    id in cats &&
    (cats[id].parentId.None? || (n > 0 && ReachesRoot(cats, cats[id].parentId.value, n - 1)))
  }

  /** Every chain of parents is finite: the table is a forest. */
  ghost predicate WellFounded(cats: Table) {
    forall id :: id in cats ==> exists n: nat :: ReachesRoot(cats, id, n)
  }

  /** `a` is met within `n + 1` steps up the parent chain of `d`. */
  ghost predicate AncestorWithin(cats: Table, a: int, d: int, n: nat)
    decreases n
  {
    d in cats && cats[d].parentId.Some? &&
    (cats[d].parentId.value == a || (n > 0 && AncestorWithin(cats, a, cats[d].parentId.value, n - 1)))
  }

  /** `a` is a proper ancestor of `d`: `d` is a descendant of `a`. */
  ghost predicate IsAncestor(cats: Table, a: int, d: int) {
    exists n: nat :: AncestorWithin(cats, a, d, n)
  }

  ghost predicate AncestorOrSelf(cats: Table, a: int, d: int) {
    a == d || IsAncestor(cats, a, d)
  }

  /** No category is its own ancestor. */
  ghost predicate Acyclic(cats: Table) {
    forall id :: !IsAncestor(cats, id, id)
  }

  ghost function Descendants(cats: Table, a: int): set<int> {
    set d | d in cats && IsAncestor(cats, a, d)
  }

  // ----- basic facts about chains -----

  lemma {:induction false} ReachesRootMonotone(cats: Table, x: int, n: nat, m: nat)
    requires ReachesRoot(cats, x, n) && n <= m
    ensures ReachesRoot(cats, x, m)
    decreases n
  {
    if cats[x].parentId.Some? {
      ReachesRootMonotone(cats, cats[x].parentId.value, n - 1, m - 1);
    }
  }

  lemma {:induction false} AncestorWithinMonotone(cats: Table, a: int, d: int, n: nat, m: nat)
    requires AncestorWithin(cats, a, d, n) && n <= m
    ensures AncestorWithin(cats, a, d, m)
    decreases n
  {
    var p := cats[d].parentId.value;
    if p != a {
      AncestorWithinMonotone(cats, a, p, n - 1, m - 1);
    }
  }

  /** If the parent of `c` is `a`, every ancestor-or-self of `x` found through `c` is an ancestor through `a`. */
  lemma {:induction false} StepUp(cats: Table, c: int, a: int, x: int, k: nat)
    requires c in cats && cats[c].parentId == Some(a)
    requires AncestorWithin(cats, c, x, k)
    ensures AncestorWithin(cats, a, x, k + 1)
    decreases k
  {
    var q := cats[x].parentId.value;
    if q != c {
      StepUp(cats, c, a, q, k - 1);
    }
  }

  lemma ParentOfDescendant(cats: Table, c: int, a: int, x: int)
    requires c in cats && cats[c].parentId == Some(a)
    requires AncestorOrSelf(cats, c, x)
    ensures IsAncestor(cats, a, x)
  {
    if c == x {
      assert AncestorWithin(cats, a, x, 0);
    } else {
      var k: nat :| AncestorWithin(cats, c, x, k);
      StepUp(cats, c, a, x, k);
    }
  }

  /** Extending a chain by one child at the bottom. */
  lemma ChildOfAncestorOrSelf(cats: Table, a: int, q: int, x: int)
    requires x in cats && cats[x].parentId == Some(q)
    requires AncestorOrSelf(cats, a, q)
    ensures IsAncestor(cats, a, x)
  {
    if a == q {
      assert AncestorWithin(cats, a, x, 0);
    } else {
      var k: nat :| AncestorWithin(cats, a, q, k);
      assert AncestorWithin(cats, a, x, k + 1);
    }
  }

  /** A walk up from `d` that meets `a` uses up fuel: `a` reaches a root with less. */
  lemma {:induction false} ReachesRootPastAncestor(cats: Table, a: int, d: int, k: nat, n: nat)
    requires AncestorWithin(cats, a, d, k) && ReachesRoot(cats, d, n)
    ensures n > 0 && ReachesRoot(cats, a, n - 1)
    decreases k
  {
    var p := cats[d].parentId.value;
    if p != a {
      ReachesRootPastAncestor(cats, a, p, k - 1, n - 1);
      ReachesRootMonotone(cats, a, n - 2, n - 1);
    }
  }

  lemma {:induction false} NoSelfAncestor(cats: Table, id: int, k: nat, n: nat)
    requires ReachesRoot(cats, id, n)
    ensures !AncestorWithin(cats, id, id, k)
    decreases n
  {
    if AncestorWithin(cats, id, id, k) {
      ReachesRootPastAncestor(cats, id, id, k, n);
      NoSelfAncestor(cats, id, k, n - 1);
    }
  }

  /** A forest has no cycles. */
  lemma WellFoundedIsAcyclic(cats: Table)
    requires WellFounded(cats)
    ensures Acyclic(cats)
  {
    forall id | IsAncestor(cats, id, id) ensures false {
      var k: nat :| AncestorWithin(cats, id, id, k);
      var n: nat :| ReachesRoot(cats, id, n);
      NoSelfAncestor(cats, id, k, n);
    }
  }

  /** Every ancestor named by a chain is a category when no parent link dangles. */
  lemma {:induction false} AncestorsExist(cats: Table, a: int, d: int, k: nat)
    requires NoDanglingParents(cats) && AncestorWithin(cats, a, d, k)
    ensures a in cats
    decreases k
  {
    var p := cats[d].parentId.value;
    if p != a {
      AncestorsExist(cats, a, p, k - 1);
    }
  }

  /** An ancestor has a child. */
  lemma {:induction false} AncestorHasChild(cats: Table, a: int, d: int, k: nat)
    requires AncestorWithin(cats, a, d, k)
    ensures ChildIds(cats, a) != {}
    decreases k
  {
    var p := cats[d].parentId.value;
    if p == a {
      assert d in ChildIds(cats, a);
    } else {
      AncestorHasChild(cats, a, p, k - 1);
    }
  }

  /** The child of `a` on the way down from `a` to its descendant `x`. */
  lemma {:induction false} ChildOnPath(cats: Table, a: int, x: int, k: nat) returns (c: int)
    requires AncestorWithin(cats, a, x, k)
    ensures c in ChildIds(cats, a) && AncestorOrSelf(cats, c, x)
    decreases k
  {
    var q := cats[x].parentId.value;
    if q == a {
      c := x;
    } else {
      c := ChildOnPath(cats, a, q, k - 1);
      ChildOfAncestorOrSelf(cats, c, q, x);
    }
  }

  /** Below a parent other than `a`, being a descendant of `a` is decided one level up. */
  lemma AncestorStep(cats: Table, a: int, x: int)
    requires x in cats && cats[x].parentId.Some? && cats[x].parentId.value != a
    ensures IsAncestor(cats, a, x) <==> IsAncestor(cats, a, cats[x].parentId.value)
  {
    var q := cats[x].parentId.value;
    if IsAncestor(cats, a, x) {
      var k: nat :| AncestorWithin(cats, a, x, k);
      assert AncestorWithin(cats, a, q, k - 1);
    }
    if IsAncestor(cats, a, q) {
      var k: nat :| AncestorWithin(cats, a, q, k);
      assert AncestorWithin(cats, a, x, k + 1);
    }
  }

  /** The root of the tree that holds `x`. */
  lemma {:induction false} RootAbove(cats: Table, x: int, n: nat) returns (r: int)
    requires ReachesRoot(cats, x, n)
    ensures r in cats && cats[r].parentId.None? && AncestorOrSelf(cats, r, x)
    decreases n
  {
    if cats[x].parentId.None? {
      r := x;
    } else {
      var q := cats[x].parentId.value;
      r := RootAbove(cats, q, n - 1);
      ChildOfAncestorOrSelf(cats, r, q, x);
    }
  }

  /** The ancestors of a category form a chain: two of them are always related. */
  lemma {:induction false} AncestorsAreLinear(cats: Table, a: int, b: int, x: int, k1: nat, k2: nat)
    requires AncestorWithin(cats, a, x, k1) && AncestorWithin(cats, b, x, k2)
    ensures AncestorOrSelf(cats, a, b) || AncestorOrSelf(cats, b, a)
    decreases k1
  {
    var q := cats[x].parentId.value;
    if q == a && q != b {
      assert AncestorWithin(cats, b, a, k2 - 1);
    } else if q == b && q != a {
      assert AncestorWithin(cats, a, b, k1 - 1);
    } else if q != a && q != b {
      AncestorsAreLinear(cats, a, b, q, k1 - 1, k2 - 1);
    }
  }

  lemma RelatedAncestors(cats: Table, a: int, b: int, x: int)
    requires AncestorOrSelf(cats, a, x) && AncestorOrSelf(cats, b, x)
    ensures AncestorOrSelf(cats, a, b) || AncestorOrSelf(cats, b, a)
  {
    if a != x && b != x {
      var k1: nat :| AncestorWithin(cats, a, x, k1);
      var k2: nat :| AncestorWithin(cats, b, x, k2);
      AncestorsAreLinear(cats, a, b, x, k1, k2);
    }
  }

  /** If one child of `a` lay above a sibling, `a` or that child would be its own ancestor. */
  lemma SiblingAboveSiblingIsCycle(cats: Table, a: int, c1: int, c2: int, k: nat)
    requires c1 in ChildIds(cats, a) && c2 in ChildIds(cats, a)
    requires AncestorWithin(cats, c1, c2, k)
    ensures IsAncestor(cats, a, a) || IsAncestor(cats, c1, c1)
  {
    if a == c1 {
      assert AncestorWithin(cats, c1, c1, 0);
    } else {
      StepUp(cats, c1, a, a, k - 1);
    }
  }

  /** Two different children of one category lie in disjoint subtrees. */
  lemma SiblingsUnrelated(cats: Table, a: int, c1: int, c2: int)
    requires Acyclic(cats)
    requires c1 in ChildIds(cats, a) && c2 in ChildIds(cats, a) && c1 != c2
    ensures !AncestorOrSelf(cats, c1, c2)
  {
    if IsAncestor(cats, c1, c2) {
      var k: nat :| AncestorWithin(cats, c1, c2, k);
      SiblingAboveSiblingIsCycle(cats, a, c1, c2, k);
      assert false;
    }
  }

  /** A child's descendants are fewer than its parent's: the measure of the tree build. */
  lemma ChildDescendantsShrink(cats: Table, a: int, c: int)
    requires Acyclic(cats)
    requires c in ChildIds(cats, a)
    ensures Descendants(cats, c) < Descendants(cats, a)
  {
    forall x | x in Descendants(cats, c) ensures x in Descendants(cats, a) {
      ParentOfDescendant(cats, c, a, x);
    }
    assert AncestorWithin(cats, a, c, 0);
    assert c !in Descendants(cats, c);
  }

  // ----- the table updates and the forest invariant -----

  /** The parent links of `cats2` agree with `cats` everywhere except possibly at `id`. */
  ghost predicate SameParentsExcept(cats: Table, cats2: Table, id: int) {
    forall y :: y in cats && y != id ==> y in cats2 && cats2[y].parentId == cats[y].parentId
  }

  /** A chain that never meets `id` is unaffected by what happens to `id`. */
  lemma {:induction false} ReachesRootAvoiding(cats: Table, cats2: Table, id: int, x: int, n: nat)
    requires ReachesRoot(cats, x, n) && SameParentsExcept(cats, cats2, id)
    requires x != id && !IsAncestor(cats, id, x)
    ensures ReachesRoot(cats2, x, n)
    decreases n
  {
    if cats[x].parentId.Some? {
      var q := cats[x].parentId.value;
      assert AncestorWithin(cats, q, x, 0);
      if q == id {
        assert false;
      }
      assert !IsAncestor(cats, id, q) by {
        if IsAncestor(cats, id, q) {
          var k: nat :| AncestorWithin(cats, id, q, k);
          assert AncestorWithin(cats, id, x, k + 1);
        }
      }
      ReachesRootAvoiding(cats, cats2, id, q, n - 1);
    }
  }

  /** After `id` itself is made to reach a root in `m` steps, everything reaches one. */
  lemma {:induction false} ReachesRootThrough(cats: Table, cats2: Table, id: int, x: int, n: nat, m: nat)
    requires ReachesRoot(cats, x, n) && SameParentsExcept(cats, cats2, id)
    requires ReachesRoot(cats2, id, m)
    ensures ReachesRoot(cats2, x, n + m)
    decreases n
  {
    if x == id {
      ReachesRootMonotone(cats2, id, m, n + m);
    } else if cats[x].parentId.Some? {
      ReachesRootThrough(cats, cats2, id, cats[x].parentId.value, n - 1, m);
    }
  }

  /** `CreateAsync`'s insertion: a fresh id whose parent, if any, exists keeps the table a forest. */
  lemma AddKeepsForest(cats: Table, id: int, c: Category)
    requires NoDanglingParents(cats) && WellFounded(cats)
    requires id !in cats
    requires c.parentId.Some? ==> c.parentId.value in cats
    ensures NoDanglingParents(cats[id := c]) && WellFounded(cats[id := c])
  {
    var cats2 := cats[id := c];
    forall x | x in cats ensures exists n: nat :: ReachesRoot(cats2, x, n) {
      var n: nat :| ReachesRoot(cats, x, n);
      assert !IsAncestor(cats, id, x) by {
        if IsAncestor(cats, id, x) {
          var k: nat :| AncestorWithin(cats, id, x, k);
          AncestorsExist(cats, id, x, k);
        }
      }
      ReachesRootAvoiding(cats, cats2, id, x, n);
    }
    if c.parentId.Some? {
      var n: nat :| ReachesRoot(cats2, c.parentId.value, n);
      assert ReachesRoot(cats2, id, n + 1);
    } else {
      assert ReachesRoot(cats2, id, 0);
    }
  }

  /**
   * `UpdateAsync`'s write: re-parenting `id` under nothing, or under an existing
   * category that is neither `id` nor one of its descendants, keeps the table a forest.
   */
  lemma ReparentKeepsForest(cats: Table, id: int, c: Category)
    requires NoDanglingParents(cats) && WellFounded(cats)
    requires id in cats
    requires c.parentId.Some? ==>
      c.parentId.value in cats && c.parentId.value != id && !IsAncestor(cats, id, c.parentId.value)
    ensures NoDanglingParents(cats[id := c]) && WellFounded(cats[id := c])
  {
    var cats2 := cats[id := c];
    var m: nat := 0;
    if c.parentId.Some? {
      var p := c.parentId.value;
      var np: nat :| ReachesRoot(cats, p, np);
      ReachesRootAvoiding(cats, cats2, id, p, np);
      m := np + 1;
    }
    assert ReachesRoot(cats2, id, m);
    forall x | x in cats2 ensures exists n: nat :: ReachesRoot(cats2, x, n) {
      var n: nat :| ReachesRoot(cats, x, n);
      ReachesRootThrough(cats, cats2, id, x, n, m);
    }
  }

  /** A chain up from `d` to `id` that does not start at `id` survives any change to `id`'s own record. */
  lemma {:induction false} AncestorKeptOutside(cats: Table, cats2: Table, id: int, d: int, k: nat)
    requires AncestorWithin(cats, id, d, k) && d != id && SameParentsExcept(cats, cats2, id)
    ensures AncestorWithin(cats2, id, d, k)
    decreases k
  {
    var q := cats[d].parentId.value;
    if q != id {
      AncestorKeptOutside(cats, cats2, id, q, k - 1);
    }
  }

  /**
   * Why `UpdateAsync` rejects the two parents it rejects: making `id` a child of
   * itself or of one of its descendants puts `id` on a cycle.
   */
  lemma ReparentUnderDescendantMakesCycle(cats: Table, id: int, c: Category)
    requires id in cats && c.parentId.Some?
    requires c.parentId.value == id || IsAncestor(cats, id, c.parentId.value)
    ensures IsAncestor(cats[id := c], id, id)
  {
    var cats2 := cats[id := c];
    var p := c.parentId.value;
    if p == id {
      assert AncestorWithin(cats2, id, id, 0);
    } else {
      var k: nat :| AncestorWithin(cats, id, p, k);
      AncestorKeptOutside(cats, cats2, id, p, k);
      assert AncestorWithin(cats2, id, id, k + 1);
    }
  }

  /** Exactly the parents `UpdateAsync` accepts keep the table a forest. */
  lemma ReparentKeepsForestIff(cats: Table, id: int, c: Category)
    requires NoDanglingParents(cats) && WellFounded(cats) && id in cats
    requires c.parentId.Some? && c.parentId.value in cats
    ensures WellFounded(cats[id := c]) <==> c.parentId.value != id && !IsAncestor(cats, id, c.parentId.value)
  {
    if c.parentId.value != id && !IsAncestor(cats, id, c.parentId.value) {
      ReparentKeepsForest(cats, id, c);
    } else {
      ReparentUnderDescendantMakesCycle(cats, id, c);
      if WellFounded(cats[id := c]) {
        WellFoundedIsAcyclic(cats[id := c]);
      }
    }
  }

  /** `DeleteAsync`'s removal of a category without sub-categories keeps the table a forest. */
  lemma RemoveLeafKeepsForest(cats: Table, id: int)
    requires NoDanglingParents(cats) && WellFounded(cats)
    requires ChildIds(cats, id) == {}
    ensures NoDanglingParents(cats - {id}) && WellFounded(cats - {id})
  {
    var cats2 := cats - {id};
    forall x | x in cats2 && cats2[x].parentId.Some? ensures cats2[x].parentId.value in cats2 {
      assert x !in ChildIds(cats, id);
    }
    forall x | x in cats2 ensures exists n: nat :: ReachesRoot(cats2, x, n) {
      var n: nat :| ReachesRoot(cats, x, n);
      assert !IsAncestor(cats, id, x) by {
        if IsAncestor(cats, id, x) {
          var k: nat :| AncestorWithin(cats, id, x, k);
          AncestorHasChild(cats, id, x, k);
        }
      }
      ReachesRootAvoiding(cats, cats2, id, x, n);
    }
  }

  // ----- the materialised tree -----

  /** The name the tree build sorts by; ids without a record sort as the empty name. */
  function NameOf(cats: Table, id: int): string {
    if id in cats then cats[id].name else ""
  }

  /** `OrderBy(sc => sc.Name)` on category ids. */
  function NameOrder(cats: Table): (int, int) -> bool {
    (a: int, b: int) => LexLe(NameOf(cats, a), NameOf(cats, b))
  }

  function ByName(a: TreeNode, b: TreeNode): bool {
    LexLe(a.name, b.name)
  }

  lemma NameOrderIsTotalPreorder(cats: Table)
    ensures TotalPreorder(NameOrder(cats))
  {
    var le := NameOrder(cats);
    forall a, b ensures le(a, b) || le(b, a) {
      LexLeTotal(NameOf(cats, a), NameOf(cats, b));
    }
    forall a, b, c | le(a, b) && le(b, c) ensures le(a, c) {
      LexLeTransitive(NameOf(cats, a), NameOf(cats, b), NameOf(cats, c));
    }
  }

  /**
   * `node` is the materialised tree of category `node.id`: its fields copy the
   * record, it counts the category's documents, and its sub-categories are the
   * trees of exactly the category's children, each once, in ascending name order.
   */
  ghost predicate IsTreeOf(cats: Table, docs: DocumentTable, node: TreeNode)
    decreases node
  {
    var ch := node.subCategories;
    && node.id in cats
    && node.name == cats[node.id].name
    && node.parentId == cats[node.id].parentId
    && node.documentsCount == |DocumentsIn(docs, node.id)|
    && SortedBy(ch, ByName)
    && (forall i, j :: 0 <= i < j < |ch| ==> ch[i].id != ch[j].id)
    && (forall c :: c in ChildIds(cats, node.id) <==> exists i :: 0 <= i < |ch| && ch[i].id == c)
    && (forall i :: 0 <= i < |ch| ==> IsTreeOf(cats, docs, ch[i]))
  }

  /**
   * A node whose sub-categories are the trees of the children of `node.id`,
   * taken in name order, is the tree of `node.id`.
   */
  lemma ChildrenMakeTree(cats: Table, docs: DocumentTable, children: seq<int>, ordered: seq<int>, node: TreeNode)
    requires node.id in cats && node.name == cats[node.id].name && node.parentId == cats[node.id].parentId
    requires node.documentsCount == |DocumentsIn(docs, node.id)|
    requires NoDuplicates(children) && forall c :: c in children <==> c in ChildIds(cats, node.id)
    requires multiset(ordered) == multiset(children) && SortedBy(ordered, NameOrder(cats))
    requires |node.subCategories| == |ordered|
    requires forall k :: 0 <= k < |ordered| ==>
      node.subCategories[k].id == ordered[k] && IsTreeOf(cats, docs, node.subCategories[k])
    ensures IsTreeOf(cats, docs, node)
  {
    var subs := node.subCategories;
    forall i, j | 0 <= i < j < |subs| ensures ByName(subs[i], subs[j]) {
      assert NameOrder(cats)(ordered[i], ordered[j]);
    }
    PermutationKeepsDistinct(children, ordered);
    forall c ensures c in ChildIds(cats, node.id) <==> exists k :: 0 <= k < |subs| && subs[k].id == c {
      if c in ChildIds(cats, node.id) {
        assert c in multiset(ordered);
        var k :| 0 <= k < |ordered| && ordered[k] == c;
        assert subs[k].id == c;
      }
      if exists k :: 0 <= k < |subs| && subs[k].id == c {
        var k :| 0 <= k < |subs| && subs[k].id == c;
        assert ordered[k] in multiset(children);
      }
    }
  }

  /** The ids of a tree, depth first. */
  function Ids(node: TreeNode): seq<int>
    decreases node
  {
    [node.id] + IdsOf(node.subCategories)
  }

  /** The ids of a forest, depth first. */
  function IdsOf(ns: seq<TreeNode>): seq<int>
    decreases ns
  {
    if ns == [] then [] else Ids(ns[0]) + IdsOf(ns[1..])
  }

  lemma {:induction false} InIdsOf(ns: seq<TreeNode>, x: int)
    ensures x in IdsOf(ns) <==> exists i :: 0 <= i < |ns| && x in Ids(ns[i])
    decreases ns
  {
    if ns != [] {
      InIdsOf(ns[1..], x);
      if x in IdsOf(ns[1..]) {
        var i :| 0 <= i < |ns[1..]| && x in Ids(ns[1..][i]);
        assert ns[1..][i] == ns[i + 1];
      }
      if exists i :: 0 <= i < |ns| && x in Ids(ns[i]) {
        var i :| 0 <= i < |ns| && x in Ids(ns[i]);
        if i > 0 {
          assert ns[1..][i - 1] == ns[i];
        }
      }
    }
  }

  /** Everything in the tree of `node` is the category itself or one of its descendants. */
  lemma {:induction false} TreeIdsBelow(cats: Table, docs: DocumentTable, node: TreeNode)
    requires IsTreeOf(cats, docs, node)
    ensures forall x :: x in Ids(node) ==> x in cats && AncestorOrSelf(cats, node.id, x)
    decreases node
  {
    var ch := node.subCategories;
    forall x | x in Ids(node) ensures x in cats && AncestorOrSelf(cats, node.id, x) {
      if x != node.id {
        InIdsOf(ch, x);
        var i :| 0 <= i < |ch| && x in Ids(ch[i]);
        assert ch[i].id in ChildIds(cats, node.id);
        TreeIdsBelow(cats, docs, ch[i]);
        ParentOfDescendant(cats, ch[i].id, node.id, x);
      }
    }
  }

  /** Every descendant of the category appears in its tree. */
  lemma {:induction false} TreeIdsCover(cats: Table, docs: DocumentTable, node: TreeNode, x: int)
    requires IsTreeOf(cats, docs, node) && AncestorOrSelf(cats, node.id, x)
    ensures x in Ids(node)
    decreases node
  {
    var ch := node.subCategories;
    if x != node.id {
      var k: nat :| AncestorWithin(cats, node.id, x, k);
      var c := ChildOnPath(cats, node.id, x, k);
      var i :| 0 <= i < |ch| && ch[i].id == c;
      TreeIdsCover(cats, docs, ch[i], x);
      InIdsOf(ch, x);
    }
  }

  /** In a table without cycles, no category appears twice in its tree. */
  lemma {:induction false} TreeIdsDistinct(cats: Table, docs: DocumentTable, node: TreeNode)
    requires Acyclic(cats) && IsTreeOf(cats, docs, node)
    ensures NoDuplicates(Ids(node))
    decreases node
  {
    var ch := node.subCategories;
    forall i, j | 0 <= i < |ch| && 0 <= j < |ch| && i != j
      ensures !AncestorOrSelf(cats, ch[i].id, ch[j].id)
    {
      SiblingsUnrelated(cats, node.id, ch[i].id, ch[j].id);
    }
    IdsOfDistinct(cats, docs, ch);
    assert node.id !in IdsOf(ch) by {
      if node.id in IdsOf(ch) {
        InIdsOf(ch, node.id);
        var i :| 0 <= i < |ch| && node.id in Ids(ch[i]);
        assert ch[i].id in ChildIds(cats, node.id);
        TreeIdsBelow(cats, docs, ch[i]);
        ParentOfDescendant(cats, ch[i].id, node.id, node.id);
        assert false;
      }
    }
    NoDuplicatesConcat([node.id], IdsOf(ch));
  }

  /** Trees of pairwise unrelated categories hold no id twice between them. */
  lemma {:induction false} IdsOfDistinct(cats: Table, docs: DocumentTable, ns: seq<TreeNode>)
    requires Acyclic(cats)
    requires forall i :: 0 <= i < |ns| ==> IsTreeOf(cats, docs, ns[i])
    requires forall i, j :: 0 <= i < |ns| && 0 <= j < |ns| && i != j ==> !AncestorOrSelf(cats, ns[i].id, ns[j].id)
    ensures NoDuplicates(IdsOf(ns))
    decreases ns
  {
    if ns != [] {
      var rest := ns[1..];
      assert forall i :: 0 <= i < |rest| ==> rest[i] == ns[i + 1];
      TreeIdsDistinct(cats, docs, ns[0]);
      IdsOfDistinct(cats, docs, rest);
      forall x | x in Ids(ns[0]) ensures x !in IdsOf(rest) {
        if x in IdsOf(rest) {
          InIdsOf(rest, x);
          var j :| 0 <= j < |rest| && x in Ids(rest[j]);
          assert !AncestorOrSelf(cats, ns[0].id, ns[j + 1].id) && !AncestorOrSelf(cats, ns[j + 1].id, ns[0].id);
          TreeIdsBelow(cats, docs, ns[0]);
          TreeIdsBelow(cats, docs, rest[j]);
          RelatedAncestors(cats, ns[0].id, rest[j].id, x);
          assert false;
        }
      }
      NoDuplicatesConcat(Ids(ns[0]), IdsOf(rest));
    }
  }

  /**
   * The forest of the trees of all roots, in any order, holds every category
   * exactly once, and nothing else: it has as many nodes as the table has rows.
   */
  lemma ForestHoldsEachCategoryOnce(cats: Table, docs: DocumentTable, roots: seq<int>, forest: seq<TreeNode>)
    requires WellFounded(cats)
    requires NoDuplicates(roots)
    requires forall r :: r in roots <==> r in cats && cats[r].parentId.None?
    requires |forest| == |roots|
    requires forall i :: 0 <= i < |forest| ==> forest[i].id == roots[i] && IsTreeOf(cats, docs, forest[i])
    ensures forall x :: x in IdsOf(forest) <==> x in cats
    ensures NoDuplicates(IdsOf(forest))
    ensures |IdsOf(forest)| == |cats|
  {
    WellFoundedIsAcyclic(cats);
    forall i, j | 0 <= i < |forest| && 0 <= j < |forest| && i != j
      ensures !AncestorOrSelf(cats, forest[i].id, forest[j].id)
    {
      assert forall n: nat :: !AncestorWithin(cats, roots[i], roots[j], n);
    }
    IdsOfDistinct(cats, docs, forest);
    forall x ensures x in IdsOf(forest) <==> x in cats {
      InIdsOf(forest, x);
      if x in IdsOf(forest) {
        var i :| 0 <= i < |forest| && x in Ids(forest[i]);
        TreeIdsBelow(cats, docs, forest[i]);
      }
      if x in cats {
        var n: nat :| ReachesRoot(cats, x, n);
        var r := RootAbove(cats, x, n);
        var i :| 0 <= i < |roots| && roots[i] == r;
        TreeIdsCover(cats, docs, forest[i], x);
      }
    }
    DistinctCardinality(IdsOf(forest));
    assert (set x | x in IdsOf(forest)) == cats.Keys;
  }
}
