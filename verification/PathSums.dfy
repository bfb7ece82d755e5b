/** `maxSum`: a post-order recursion that keeps the best sum through any node
    in the closure variable `result` (threaded in and out here) and returns to
    its parent the best non-negative one-sided extension. */
module PathSums {
  import opened BinaryTrees

  /** What `maxSumHelper(node)` returns: the best sum of a downward chain that
      starts at `node`, or 0 when no such chain has a positive sum. */
  function Gain(t: Tree): int
  {
    match t
    case Nil => 0
    case Node(v, l, r) => Max(0, Max(Gain(l) + v, Gain(r) + v))
  }

  /** The sum of a path that bends at node `n`, each side extended as far as pays. */
  function Through(n: Tree): int
    requires n.Node?
  {
    n.val + Gain(n.left) + Gain(n.right)
  }

  /** The largest value `result` takes over the subtree `t`, starting from 0. */
  function Best(t: Tree): int
  {
    match t
    case Nil => 0
    case Node(_, l, r) => Max(Through(t), Max(Best(l), Best(r)))
  }

  /** maxSumHelper(node): returns the node's gain and raises `result` to the
      best bending sum found in the subtree. `result` starts at 0 and only
      grows, hence the precondition. */
  method MaxSumHelper(node: Tree, result: int) returns (gain: int, result': int)
    requires result >= 0
    ensures gain == Gain(node) && gain >= 0
    ensures result' == Max(result, Best(node))
  {
    if node == Nil {
      return 0, result;
    }
    var leftSum, afterLeft := MaxSumHelper(node.left, result);
    var rightSum, afterRight := MaxSumHelper(node.right, afterLeft);
    result' := Max(afterRight, node.val + leftSum + rightSum);
    gain := Max(0, Max(leftSum + node.val, rightSum + node.val));
  }

  /** maxSum(): 0 for the empty tree and never negative; at least the bending
      sum through every node. */
  method MaxSum(root: Tree) returns (result: int)
    ensures result == Best(root)
    ensures result >= 0 && (root == Nil ==> result == 0)
    ensures forall p :: Present(root, p) ==> result >= Through(At(root, p))
  {
    result := 0;
    var rootGain;
    rootGain, result := MaxSumHelper(root, result);
    BestNonNegative(root);
    forall p | Present(root, p)
      ensures result >= Through(At(root, p))
    {
      BestAtLeastThrough(root, p);
    }
  }

  lemma {:induction false} BestNonNegative(t: Tree)
    ensures Best(t) >= 0 && Gain(t) >= 0
  {
    match t
    case Nil =>
    case Node(_, l, r) =>
      BestNonNegative(l);
  }

  lemma {:induction false} BestAtLeastThrough(t: Tree, p: Path)
    requires Present(t, p)
    ensures Best(t) >= Through(At(t, p))
  {
    if p != [] {
      BestAtLeastThrough(Child(t, p[0]), p[1..]);
    }
  }

  // ----- The meaning of the result: sums of paths in the tree -----

  /** Sum of the values met going down from the root of `t` along `q`. */
  function ChainSum(t: Tree, q: Path): int
  {
    match t
    case Nil => 0
    case Node(v, _, _) => v + (if q == [] then 0 else ChainSum(Child(t, q[0]), q[1..]))
  }

  /** A path that climbs to its highest node and descends on either side:
      `apex` is the highest node, `down` and `other` the chains below its left
      and right child (absent when the path does not go that way). Every path
      that visits no node twice has this shape. */
  datatype Bend = Bend(apex: Path, down: Option<Path>, other: Option<Path>)

  predicate ArmIn(c: Tree, arm: Option<Path>)
  {
    arm.Some? ==> Present(c, arm.value)
  }

  function ArmSum(c: Tree, arm: Option<Path>): int
  {
    if arm.None? then 0 else ChainSum(c, arm.value)
  }

  predicate BendIn(t: Tree, b: Bend)
  {
    Present(t, b.apex) && ArmIn(At(t, b.apex).left, b.down) && ArmIn(At(t, b.apex).right, b.other)
  }

  function BendSum(t: Tree, b: Bend): int
    requires BendIn(t, b)
  {
    var n := At(t, b.apex);
    n.val + ArmSum(n.left, b.down) + ArmSum(n.right, b.other)
  }

  /** No downward chain from the root of `t` sums to more than its gain. */
  lemma {:induction false} GainBoundsChains(t: Tree, q: Path)
    requires Present(t, q)
    ensures ChainSum(t, q) <= Gain(t)
  {
    if q != [] {
      GainBoundsChains(Child(t, q[0]), q[1..]);
    }
  }

  /** A chain whose sum is the gain, when the gain is positive. */
  function GainChain(t: Tree): (q: Option<Path>)
    ensures q.None? ==> Gain(t) == 0
    ensures q.Some? ==> Present(t, q.value) && ChainSum(t, q.value) == Gain(t)
  {
    match t
    case Nil => None
    case Node(v, l, r) =>
      if Gain(t) == 0 then None
      else if Gain(l) >= Gain(r) then Some(Extend(Left, GainChain(l)))
      else Some(Extend(Right, GainChain(r)))
  }

  function Extend(d: Dir, arm: Option<Path>): Path
  {
    if arm.None? then [] else [d] + arm.value
  }

  /** No path in the tree sums to more than `maxSum()`. */
  lemma {:induction false} BestBoundsBends(t: Tree, b: Bend)
    requires BendIn(t, b)
    ensures BendSum(t, b) <= Best(t)
  {
    if b.apex == [] {
      BestNonNegative(t);
      if b.down.Some? {
        GainBoundsChains(t.left, b.down.value);
      }
      if b.other.Some? {
        GainBoundsChains(t.right, b.other.value);
      }
    } else {
      var c := Child(t, b.apex[0]);
      BestBoundsBends(c, Bend(b.apex[1..], b.down, b.other));
    }
  }

  /** A path whose sum is `maxSum()`, unless that is 0 (the empty path). */
  function BestBend(t: Tree): (b: Option<Bend>)
    ensures b.None? ==> Best(t) == 0
    ensures b.Some? ==> BendIn(t, b.value) && BendSum(t, b.value) == Best(t)
  {
    match t
    case Nil => None
    case Node(v, l, r) =>
      if Best(t) == 0 then None
      else if Best(t) == Through(t) then Some(Bend([], GainChain(l), GainChain(r)))
      else if Best(t) == Best(l) then Lift(t, Left, BestBend(l))
      else Lift(t, Right, BestBend(r))
  }

  function Lift(t: Tree, d: Dir, b: Option<Bend>): (r: Option<Bend>)
    requires t.Node?
    requires b.Some? ==> BendIn(Child(t, d), b.value)
    ensures b.Some? ==>
      r.Some? && BendIn(t, r.value) && BendSum(t, r.value) == BendSum(Child(t, d), b.value)
    ensures b.None? ==> r.None?
  {
    if b.None? then None else Some(Bend([d] + b.value.apex, b.value.down, b.value.other))
  }

  /** maxSum() is exactly the largest sum of a path in the tree, the empty
      path counting as 0: no path exceeds it, and some path reaches it unless
      it is 0. So a tree whose values are all negative yields 0, not its
      largest value. */
  lemma MaxSumIsBestPathSum(t: Tree)
    ensures Best(t) >= 0
    ensures forall b :: BendIn(t, b) ==> BendSum(t, b) <= Best(t)
    ensures Best(t) == 0 || exists b :: BendIn(t, b) && BendSum(t, b) == Best(t)
  {
    BestNonNegative(t);
    forall b | BendIn(t, b)
      ensures BendSum(t, b) <= Best(t)
    {
      BestBoundsBends(t, b);
    }
    var w := BestBend(t);
  }

  /** With only negative values every path has a negative sum, so the
      result is 0. */
  lemma {:induction false} AllNegativeYieldsZero(t: Tree)
    requires forall v :: v in Values(t) ==> v < 0
    ensures Gain(t) == 0 && Best(t) == 0
  {
    match t
    case Nil =>
    case Node(v, l, r) =>
      assert v in Values(t);
      assert Values(l) <= Values(t) && Values(r) <= Values(t);
      AllNegativeYieldsZero(l);
      AllNegativeYieldsZero(r);
  }
}
