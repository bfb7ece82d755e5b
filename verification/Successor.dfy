/** `nextLarger(lowerBound)`: an in-order traversal with an explicit stack
    that keeps the smallest value seen that exceeds `lowerBound`. It scans the
    whole tree and does not rely on any search-tree ordering. */
module Successor {
  import opened BinaryTrees

  /** One visit of the loop: `x` replaces the best so far when it exceeds the
      bound and is smaller than the best (or there is none yet). */
  function Improve(best: Option<int>, x: int, lowerBound: int): Option<int>
  {
    if x > lowerBound && (best.None? || x < best.value) then Some(x) else best
  }

  /** The best after visiting the values of `s` in order. */
  function SmallestAbove(s: seq<int>, lowerBound: int): Option<int>
  {
    if s == [] then None
    else Improve(SmallestAbove(s[..|s| - 1], lowerBound), s[|s| - 1], lowerBound)
  }

  /** The fold finds nothing exactly when no element exceeds the bound, and
      otherwise finds the least element that does. */
  lemma {:induction false} SmallestAboveIsLeast(s: seq<int>, lowerBound: int)
    ensures SmallestAbove(s, lowerBound).None? <==> forall x :: x in s ==> x <= lowerBound
    ensures SmallestAbove(s, lowerBound).Some? ==>
      var m := SmallestAbove(s, lowerBound).value;
      m in s && m > lowerBound && forall x :: x in s && x > lowerBound ==> m <= x
  {
    if s != [] {
      var init, last := s[..|s| - 1], s[|s| - 1];
      SmallestAboveIsLeast(init, lowerBound);
      assert s == init + [last];
      assert forall x :: x in s <==> x in init || x == last;
      var before := SmallestAbove(init, lowerBound);
      if last > lowerBound && (before.None? || last < before.value) {
        assert SmallestAbove(s, lowerBound) == Some(last) && last in s;
        forall x | x in s && x > lowerBound
          ensures last <= x
        {
          if x in init {
            assert before.Some?;
          }
        }
      } else {
        assert SmallestAbove(s, lowerBound) == before;
      }
    }
  }

  lemma SmallestAboveSnoc(s: seq<int>, x: int, lowerBound: int)
    ensures SmallestAbove(s + [x], lowerBound) == Improve(SmallestAbove(s, lowerBound), x, lowerBound)
  {
    assert (s + [x])[..|s|] == s;
  }

  /** Over the in-order listing, the fold finds the least value of the tree
      above the bound, or nothing when no value exceeds it. */
  lemma SmallestAboveInTree(t: Tree, lowerBound: int)
    ensures var r := SmallestAbove(InOrder(t), lowerBound);
      && (r.None? <==> forall v :: v in Values(t) ==> v <= lowerBound)
      && (r.Some? ==> r.value in Values(t) && r.value > lowerBound)
      && (r.Some? ==> forall v :: v in Values(t) && v > lowerBound ==> r.value <= v)
  {
    SmallestAboveIsLeast(InOrder(t), lowerBound);
    InOrderValues(t);
  }

  /** The values still to be visited from the stack, top (last) first: each
      stacked node, then its right subtree. */
  function Pending(stack: seq<Tree>): seq<int>
  {
    if stack == [] then []
    else
      var top := stack[|stack| - 1];
      (if top.Node? then [top.val] + InOrder(top.right) else []) + Pending(stack[..|stack| - 1])
  }

  lemma PendingPush(stack: seq<Tree>, node: Tree)
    requires node.Node?
    ensures Pending(stack + [node]) == [node.val] + InOrder(node.right) + Pending(stack)
  {
    assert (stack + [node])[..|stack|] == stack;
  }

  /** Only nodes, never `Nil`, are pushed on the stack. */
  ghost predicate AllNodes(stack: seq<Tree>)
  {
    forall i :: 0 <= i < |stack| ==> stack[i].Node?
  }

  /** Pushing `node` and moving to its left child leaves the same values to visit. */
  lemma PushStep(stack: seq<Tree>, node: Tree)
    requires node.Node?
    ensures Remaining(node.left, stack + [node]) == Remaining(node, stack)
    ensures AllNodes(stack) ==> AllNodes(stack + [node])
  {
    PendingPush(stack, node);
    var l, v, r, p := InOrder(node.left), [node.val], InOrder(node.right), Pending(stack);
    Assoc(l, v, r);
    Assoc(l, v + r, p);
  }

  /** The values the loop has yet to pop: the current node's subtree, then
      what the stack holds. */
  function Remaining(node: Tree, stack: seq<Tree>): seq<int>
  {
    InOrder(node) + Pending(stack)
  }

  /** The top of a stack of nodes is a node, and what lies beneath is a
      stack of nodes. */
  lemma PopNode(full: seq<Tree>)
    requires full != [] && AllNodes(full)
    ensures full[|full| - 1].Node? && AllNodes(full[..|full| - 1])
  {
    var stack := full[..|full| - 1];
    assert forall i :: 0 <= i < |stack| ==> stack[i] == full[i];
  }

  /** Popping the top node of the stack visits its value and leaves its right
      subtree and the rest of the stack to visit. */
  lemma PopStep(popped: seq<int>, full: seq<Tree>, root: Tree)
    requires full != [] && AllNodes(full)
    requires popped + Remaining(Nil, full) == InOrder(root)
    ensures var node, stack := full[|full| - 1], full[..|full| - 1];
      && node.Node? && AllNodes(stack)
      && |Remaining(node.right, stack)| < |Remaining(Nil, full)|
      && (popped + [node.val]) + Remaining(node.right, stack) == InOrder(root)
  {
    PopNode(full);
    var node, stack := full[|full| - 1], full[..|full| - 1];
    var rest := Remaining(node.right, stack);
    assert Pending(full) == [node.val] + InOrder(node.right) + Pending(stack);
    Assoc([node.val], InOrder(node.right), Pending(stack));
    assert Remaining(Nil, full) == [] + Pending(full);
    assert Remaining(Nil, full) == [node.val] + rest;
    Assoc(popped, [node.val], rest);
  }

  /** nextLarger(lowerBound): `None` (the source's null) exactly when the tree
      is empty or no value exceeds `lowerBound`; otherwise the least value of
      the tree above `lowerBound`. `popped` lists the values in the order the
      loop pops their nodes, which is the in-order listing of the tree. */
  method NextLarger(root: Tree, lowerBound: int) returns (nextLarger: Option<int>, ghost popped: seq<int>)
    ensures popped == InOrder(root)
    ensures nextLarger.None? <==> forall v :: v in Values(root) ==> v <= lowerBound
    ensures nextLarger.Some? ==> nextLarger.value in Values(root) && nextLarger.value > lowerBound
    ensures nextLarger.Some? ==> forall v :: v in Values(root) && v > lowerBound ==> nextLarger.value <= v
  {
    if root == Nil {
      return None, [];
    }
    nextLarger := None;
    var stack: seq<Tree> := [];
    var node := root;
    popped := [];
    while node != Nil || |stack| > 0
      invariant AllNodes(stack)
      invariant popped + Remaining(node, stack) == InOrder(root)
      invariant nextLarger == SmallestAbove(popped, lowerBound)
      decreases |Remaining(node, stack)|
    {
      ghost var work := Remaining(node, stack);
      while node != Nil
        invariant AllNodes(stack)
        invariant Remaining(node, stack) == work
        invariant node != Nil || |stack| > 0
        decreases Size(node)
      {
        PushStep(stack, node);
        stack := stack + [node];
        node := node.left;
      }
      PopStep(popped, stack, root);
      node := stack[|stack| - 1];
      stack := stack[..|stack| - 1];
      SmallestAboveSnoc(popped, node.val, lowerBound);
      if node.val > lowerBound {
        if nextLarger.None? || node.val < nextLarger.value {
          nextLarger := Some(node.val);
        }
      }
      popped := popped + [node.val];
      node := node.right;
    }
    assert Remaining(node, stack) == [];
    SmallestAboveInTree(root, lowerBound);
  }
}
