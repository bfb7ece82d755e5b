/** `areCousins(node1, node2)`: two nodes are cousins when they sit at the
    same level under different parents. The nested `findLevelAndParent`
    walks the tree depth-first and records, in a record shared by every call,
    the level and the parent of the node it looks for; a recorded parent
    stops the rest of the walk. Node handles are paths (see `BinaryTrees`). */
module Cousins {
  import opened BinaryTrees

  /** The shared record `{ level, parent }`: the level of the node looked for
      (root at level 0) and the handle of its parent, `None` while not found. */
  datatype LevelInfo = LevelInfo(level: nat, parent: Option<Path>)

  /** `target` lies strictly below the node with handle `here`, whose subtree is `t`. */
  predicate Below(t: Tree, here: Path, target: Path)
  {
    |here| < |target| && Within(t, here, target)
  }

  /** A node strictly below `t` is one of its children or lies below one of them. */
  lemma BelowSplit(t: Tree, here: Path, target: Path)
    requires t.Node?
    ensures Below(t, here, target) <==>
      (t.left != Nil && target == here + [Left]) || (t.right != Nil && target == here + [Right])
      || Below(t.left, here + [Left], target) || Below(t.right, here + [Right], target)
  {
    WithinSplit(t, here, target);
    forall d: Dir
      ensures Within(Child(t, d), here + [d], target) <==>
        (Child(t, d) != Nil && target == here + [d]) || Below(Child(t, d), here + [d], target)
    {
      if Child(t, d) != Nil {
        WithinSplit(Child(t, d), here + [d], target);
      }
    }
  }

  /** findLevelAndParent(nodeToFind, currentNode, level, data): once a parent
      is recorded the record comes back unchanged; otherwise it records the
      level and parent of `nodeToFind` when that node lies below
      `currentNode`, and leaves the record as it was when it does not. */
  method FindLevelAndParent(nodeToFind: Path, currentNode: Tree, here: Path, level: nat, data: LevelInfo)
    returns (found: LevelInfo)
    requires currentNode.Node? && level == |here|
    ensures data.parent.Some? ==> found == data
    ensures data.parent.None? && Below(currentNode, here, nodeToFind) ==>
      found == LevelInfo(|nodeToFind|, Some(Parent(nodeToFind)))
    ensures data.parent.None? && !Below(currentNode, here, nodeToFind) ==> found == data
    decreases currentNode
  {
    if data.parent.Some? {
      return data;
    }
    found := data;
    if (currentNode.left != Nil && here + [Left] == nodeToFind)
      || (currentNode.right != Nil && here + [Right] == nodeToFind)
    {
      found := LevelInfo(level + 1, Some(here));
      assert Parent(nodeToFind) == here;
    }
    if currentNode.left != Nil {
      found := FindLevelAndParent(nodeToFind, currentNode.left, here + [Left], level + 1, found);
    }
    if currentNode.right != Nil {
      found := FindLevelAndParent(nodeToFind, currentNode.right, here + [Right], level + 1, found);
    }
    BelowSplit(currentNode, here, nodeToFind);
  }

  /** Two nodes of the tree at the same depth whose parents differ. */
  predicate AreCousinsSpec(root: Tree, node1: Path, node2: Path)
  {
    && node1 != [] && node2 != []
    && Present(root, node1) && Present(root, node2)
    && |node1| == |node2| && Parent(node1) != Parent(node2)
  }

  /** areCousins(node1, node2): true exactly for two cousins. A handle to the
      root, or to a node outside the tree, gives false. */
  method AreCousins(root: Tree, node1: Path, node2: Path) returns (cousins: bool)
    requires root.Node?
    ensures cousins <==> AreCousinsSpec(root, node1, node2)
  {
    if node1 == [] || node2 == [] {
      return false;
    }
    var node1Info := FindLevelAndParent(node1, root, [], 0, LevelInfo(0, None));
    var node2Info := FindLevelAndParent(node2, root, [], 0, LevelInfo(0, None));
    var sameLevel := node1Info.level == node2Info.level;
    var differentParents := node1Info.parent != node2Info.parent;
    WithinRoot(root, node1);
    WithinRoot(root, node2);
    return sameLevel && differentParents;
  }

  /** Cousins are two distinct nodes at depth 2 or more whose parents are
      themselves nodes of the tree; the relation is symmetric. */
  lemma CousinsAreDeep(root: Tree, node1: Path, node2: Path)
    requires AreCousinsSpec(root, node1, node2)
    ensures |node1| >= 2 && node1 != node2
    ensures Present(root, Parent(node1)) && Present(root, Parent(node2))
    ensures AreCousinsSpec(root, node2, node1)
  {
    assert node1 == Parent(node1) + [node1[|node1| - 1]];
    assert node2 == Parent(node2) + [node2[|node2| - 1]];
    PresentPrefix(root, Parent(node1), [node1[|node1| - 1]]);
    PresentPrefix(root, Parent(node2), [node2[|node2| - 1]]);
  }

  /** Siblings, two children of one parent, are never cousins. */
  lemma SiblingsAreNotCousins(root: Tree, parent: Path)
    ensures !AreCousinsSpec(root, parent + [Left], parent + [Right])
  {
    assert Parent(parent + [Left]) == parent == Parent(parent + [Right]);
  }
}
