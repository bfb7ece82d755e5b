/** `lowestCommonAncestor(node1, node2)` and its two recursive helpers. With
    node handles as paths from the root, the ancestors of a node are the
    prefixes of its path, and the lowest common ancestor of two nodes is the
    longest common prefix of their paths. */
module Ancestors {
  import opened BinaryTrees

  /** The longest common prefix of two paths. */
  function CommonPrefix(a: Path, b: Path): (c: Path)
    ensures IsPrefix(c, a) && IsPrefix(c, b)
    ensures |c| == |a| || |c| == |b| || a[|c|] != b[|c|]
  {
    if a == [] || b == [] || a[0] != b[0] then []
    else [a[0]] + CommonPrefix(a[1..], b[1..])
  }

  /** Every common ancestor of `a` and `b` is an ancestor of (or is) their
      longest common prefix. */
  lemma CommonPrefixIsLongest(a: Path, b: Path, c: Path)
    requires IsPrefix(c, a) && IsPrefix(c, b)
    ensures IsPrefix(c, CommonPrefix(a, b))
  {
    var m := CommonPrefix(a, b);
    assert c == a[..|c|] && m == a[..|m|];
  }

  /** The point where two paths part is their longest common prefix. */
  lemma CommonPrefixAtFork(a: Path, b: Path, h: Path)
    requires IsPrefix(h, a) && IsPrefix(h, b)
    requires |h| == |a| || |h| == |b| || a[|h|] != b[|h|]
    ensures CommonPrefix(a, b) == h
  {
    CommonPrefixIsLongest(a, b, h);
  }

  /** _isNodePresent(root, targetNode): whether `targetNode` is a node of the
      subtree `t`, whose root has handle `here`. */
  function IsNodePresent(t: Tree, here: Path, targetNode: Path): (present: bool)
    ensures present <==> Within(t, here, targetNode)
  {
    if t == Nil then false
    else if here == targetNode then true
    else
      WithinSplit(t, here, targetNode);
      IsNodePresent(t.left, here + [Left], targetNode) || IsNodePresent(t.right, here + [Right], targetNode)
  }

  /** _lowestCommonAncestorHelper(root, node1, node2) on the subtree `t` at
      `here`: the lowest common ancestor when both nodes lie in the subtree,
      the one node that does when only one does, and `None` (the source's
      null) when neither does. */
  function LcaHelper(t: Tree, here: Path, node1: Path, node2: Path): (r: Option<Path>)
    ensures Within(t, here, node1) && Within(t, here, node2) ==> r == Some(CommonPrefix(node1, node2))
    ensures Within(t, here, node1) && !Within(t, here, node2) ==> r == Some(node1)
    ensures !Within(t, here, node1) && Within(t, here, node2) ==> r == Some(node2)
    ensures !Within(t, here, node1) && !Within(t, here, node2) ==> r == None
  {
    if t == Nil || here == node1 || here == node2 then
      LcaAtRoot(t, here, node1, node2);
      if t == Nil then None else Some(here)
    else
      var left := LcaHelper(t.left, here + [Left], node1, node2);
      var right := LcaHelper(t.right, here + [Right], node1, node2);
      LcaBelowRoot(t, here, node1, node2);
      if left.Some? && right.Some? then Some(here)
      else if left.Some? then left
      else right
  }

  /** The subtree's own root is the answer when it is one of the two nodes. */
  lemma LcaAtRoot(t: Tree, here: Path, node1: Path, node2: Path)
    requires t == Nil || here == node1 || here == node2
    ensures t == Nil ==> !Within(t, here, node1) && !Within(t, here, node2)
    ensures t != Nil && Within(t, here, node1) && Within(t, here, node2) ==> CommonPrefix(node1, node2) == here
    ensures t != Nil && !Within(t, here, node2) ==> here == node1
    ensures t != Nil && !Within(t, here, node1) ==> here == node2
  {
    if t != Nil {
      assert here[|here|..] == [];
      if Within(t, here, node1) && Within(t, here, node2) {
        CommonPrefixAtFork(node1, node2, here);
      }
    }
  }

  /** Below a root that is neither node, each node lies in exactly one of the
      two child subtrees, and two nodes in different subtrees part at the root. */
  lemma LcaBelowRoot(t: Tree, here: Path, node1: Path, node2: Path)
    requires t.Node? && here != node1 && here != node2
    ensures Within(t, here, node1) <==>
      Within(t.left, here + [Left], node1) || Within(t.right, here + [Right], node1)
    ensures Within(t, here, node2) <==>
      Within(t.left, here + [Left], node2) || Within(t.right, here + [Right], node2)
    ensures !(Within(t.left, here + [Left], node1) && Within(t.right, here + [Right], node1))
    ensures !(Within(t.left, here + [Left], node2) && Within(t.right, here + [Right], node2))
    ensures Within(t.left, here + [Left], node1) && Within(t.right, here + [Right], node2) ==>
      CommonPrefix(node1, node2) == here
    ensures Within(t.right, here + [Right], node1) && Within(t.left, here + [Left], node2) ==>
      CommonPrefix(node1, node2) == here
  {
    WithinSplit(t, here, node1);
    WithinSplit(t, here, node2);
    forall n, d: Dir | Within(Child(t, d), here + [d], n)
      ensures IsPrefix(here, n) && |here| < |n| && n[|here|] == d
    {
      assert n[..|here| + 1] == here + [d];
    }
    if Within(t, here, node1) && Within(t, here, node2) && node1[|here|] != node2[|here|] {
      CommonPrefixAtFork(node1, node2, here);
    }
  }

  /** lowestCommonAncestor(node1, node2): `None` (the source's null) unless
      both nodes are in the tree; otherwise the deepest node that is an
      ancestor of, or is, each of them. */
  function LowestCommonAncestor(root: Tree, node1: Path, node2: Path): (lca: Option<Path>)
    ensures lca.Some? <==> Present(root, node1) && Present(root, node2)
    ensures lca.Some? ==> lca.value == CommonPrefix(node1, node2)
    ensures lca.Some? ==> Present(root, lca.value) && IsPrefix(lca.value, node1) && IsPrefix(lca.value, node2)
  {
    WithinRoot(root, node1);
    WithinRoot(root, node2);
    if root == Nil || !IsNodePresent(root, [], node1) || !IsNodePresent(root, [], node2) then None
    else
      var lca := LcaHelper(root, [], node1, node2);
      assert lca.value + node1[|lca.value|..] == node1;
      PresentPrefix(root, lca.value, node1[|lca.value|..]);
      lca
  }

  /** The answer is the lowest common ancestor: every common ancestor of the
      two nodes is an ancestor of it (or is it). */
  lemma LcaIsLowest(root: Tree, node1: Path, node2: Path, ancestor: Path)
    requires Present(root, node1) && Present(root, node2)
    requires IsPrefix(ancestor, node1) && IsPrefix(ancestor, node2)
    ensures IsPrefix(ancestor, LowestCommonAncestor(root, node1, node2).value)
  {
    CommonPrefixIsLongest(node1, node2, ancestor);
  }

  /** When one node is an ancestor of the other, it is their lowest common
      ancestor; in particular a node is its own. */
  lemma LcaOfAncestor(root: Tree, node1: Path, node2: Path)
    requires Present(root, node2) && IsPrefix(node1, node2)
    ensures LowestCommonAncestor(root, node1, node2) == Some(node1)
    ensures LowestCommonAncestor(root, node2, node1) == Some(node1)
  {
    assert node2 == node1 + node2[|node1|..];
    PresentPrefix(root, node1, node2[|node1|..]);
    CommonPrefixAtFork(node1, node2, node1);
    CommonPrefixAtFork(node2, node1, node1);
  }
}
