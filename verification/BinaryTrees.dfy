/** The tree shared by every operation of the library.
    A `BinaryTreeNode` holds an integer value and owns at most two children;
    a `BinaryTree` wraps an optional root. Because no node is shared and there
    are no cycles, a node is identified by the path that leads to it from the
    root, and every `===` comparison between nodes becomes a comparison of
    paths. A handle to a node that is not in the tree is a path that does not
    land on a node. */
module BinaryTrees {

  datatype Option<T> = None | Some(value: T)

  datatype Tree = Nil | Node(val: int, left: Tree, right: Tree)

  datatype Dir = Left | Right

  /** A node handle: the turns taken from the root to reach the node. */
  type Path = seq<Dir>

  function Max(a: int, b: int): int { if a >= b then a else b }

  function Min(a: int, b: int): int { if a <= b then a else b }

  function Child(t: Tree, d: Dir): Tree
    requires t.Node?
  {
    if d == Left then t.left else t.right
  }

  /** The subtree reached by following `p`, or `Nil` when `p` leaves the tree. */
  function At(t: Tree, p: Path): Tree
  {
    if p == [] || t == Nil then t else At(Child(t, p[0]), p[1..])
  }

  /** `p` is a handle to a node of `t`. */
  predicate Present(t: Tree, p: Path)
  {
    At(t, p).Node?
  }

  predicate IsPrefix<T(==)>(a: seq<T>, b: seq<T>)
  {
    |a| <= |b| && b[..|a|] == a
  }

  /** `target` is a node of the subtree `t` whose root has handle `here`. */
  predicate Within(t: Tree, here: Path, target: Path)
  {
    IsPrefix(here, target) && Present(t, target[|here|..])
  }

  function Parent(p: Path): Path
    requires p != []
  {
    p[..|p| - 1]
  }

  predicate IsLeaf(t: Tree)
  {
    t.Node? && t.left == Nil && t.right == Nil
  }

  function Size(t: Tree): nat
  {
    match t
    case Nil => 0
    case Node(_, l, r) => 1 + Size(l) + Size(r)
  }

  /** Number of nodes on the longest root-to-node path (root at depth 1). */
  function Height(t: Tree): nat
  {
    match t
    case Nil => 0
    case Node(_, l, r) => 1 + Max(Height(l), Height(r))
  }

  /** Number of nodes on the shortest root-to-leaf path (root at depth 1).
      A missing child does not end a path: only a leaf does. */
  function MinLeafDepth(t: Tree): nat
  {
    match t
    case Nil => 0
    case Node(_, l, r) =>
      if l == Nil && r == Nil then 1
      else if l == Nil then 1 + MinLeafDepth(r)
      else if r == Nil then 1 + MinLeafDepth(l)
      else 1 + Min(MinLeafDepth(l), MinLeafDepth(r))
  }

  function Values(t: Tree): set<int>
  {
    match t
    case Nil => {}
    case Node(v, l, r) => {v} + Values(l) + Values(r)
  }

  /** The values in in-order: left subtree, node, right subtree. */
  function InOrder(t: Tree): seq<int>
  {
    match t
    case Nil => []
    case Node(v, l, r) => InOrder(l) + [v] + InOrder(r)
  }

  lemma {:induction false} AtAppend(t: Tree, p: Path, q: Path)
    ensures At(t, p + q) == At(At(t, p), q)
  {
    if p != [] && t != Nil {
      assert (p + q)[1..] == p[1..] + q;
      AtAppend(Child(t, p[0]), p[1..], q);
    } else if p == [] {
      assert p + q == q;
    } else {
      assert At(Nil, q) == Nil;
    }
  }

  lemma Assoc<T>(a: seq<T>, b: seq<T>, c: seq<T>)
    ensures (a + b) + c == a + (b + c)
  {
  }

  /** A node of a subtree is its root or a node of one of its two children. */
  lemma WithinSplit(t: Tree, here: Path, target: Path)
    requires t.Node?
    ensures Within(t, here, target) <==>
      target == here || Within(t.left, here + [Left], target) || Within(t.right, here + [Right], target)
  {
    if target != here && IsPrefix(here, target) {
      var rest := target[|here|..];
      assert rest == [rest[0]] + rest[1..];
      assert target[..|here| + 1] == here + [rest[0]];
      assert target[|here| + 1..] == rest[1..];
    }
    forall d: Dir | Within(Child(t, d), here + [d], target)
      ensures IsPrefix(here, target) && target[|here|..] == [d] + target[|here| + 1..]
    {
      assert target[..|here|] == (here + [d])[..|here|];
    }
  }

  /** Every node of the whole tree lies within the subtree at the root. */
  lemma WithinRoot(t: Tree, target: Path)
    ensures Within(t, [], target) <==> Present(t, target)
  {
    assert target[0..] == target;
  }

  /** Every ancestor of a node in the tree is in the tree. */
  lemma PresentPrefix(t: Tree, p: Path, q: Path)
    requires Present(t, p + q)
    ensures Present(t, p)
  {
    AtAppend(t, p, q);
  }

  /** The in-order listing holds exactly the tree's values. */
  lemma {:induction false} InOrderValues(t: Tree)
    ensures forall x :: x in InOrder(t) <==> x in Values(t)
  {
    match t
    case Nil =>
    case Node(_, l, r) =>
      InOrderValues(l);
      InOrderValues(r);
  }

  /** No node lies deeper than the height. */
  lemma {:induction false} HeightBoundsDepth(t: Tree, p: Path)
    requires Present(t, p)
    ensures |p| + 1 <= Height(t)
  {
    if p != [] {
      HeightBoundsDepth(Child(t, p[0]), p[1..]);
    }
  }

  /** A node whose depth is the height: the height is attained. */
  function DeepestPath(t: Tree): (p: Path)
    requires t.Node?
    ensures Present(t, p) && |p| + 1 == Height(t)
  {
    if t.left == Nil && t.right == Nil then []
    else if Height(t.left) >= Height(t.right) then [Left] + DeepestPath(t.left)
    else [Right] + DeepestPath(t.right)
  }

  /** No leaf lies shallower than the minimum leaf depth. */
  lemma {:induction false} MinLeafDepthBoundsLeaves(t: Tree, p: Path)
    requires IsLeaf(At(t, p))
    ensures MinLeafDepth(t) <= |p| + 1
  {
    if p != [] {
      MinLeafDepthBoundsLeaves(Child(t, p[0]), p[1..]);
    }
  }

  /** A leaf whose depth is the minimum leaf depth: it is attained. */
  function ShallowestLeaf(t: Tree): (p: Path)
    requires t.Node?
    ensures IsLeaf(At(t, p)) && |p| + 1 == MinLeafDepth(t)
  {
    if t.left == Nil && t.right == Nil then []
    else if t.left == Nil then [Right] + ShallowestLeaf(t.right)
    else if t.right == Nil then [Left] + ShallowestLeaf(t.left)
    else if MinLeafDepth(t.left) <= MinLeafDepth(t.right) then [Left] + ShallowestLeaf(t.left)
    else [Right] + ShallowestLeaf(t.right)
  }

  /** The shallowest leaf is never deeper than the deepest node; both are 0
      exactly for the empty tree and both are 1 for a single node. */
  lemma {:induction false} MinLeafDepthAtMostHeight(t: Tree)
    ensures MinLeafDepth(t) <= Height(t)
    ensures IsLeaf(t) ==> MinLeafDepth(t) == 1 && Height(t) == 1
    ensures MinLeafDepth(t) == 0 <==> t == Nil
    ensures Height(t) == 0 <==> t == Nil
  {
    if t.Node? {
      var p := ShallowestLeaf(t);
      HeightBoundsDepth(t, p);
    }
  }
}
