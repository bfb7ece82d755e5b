/** `minDepth` and `maxDepth`: breadth-first traversals driven by a queue of
    (node, depth) pairs, the root at depth 1. `queue.shift()` takes the head
    of the sequence and `queue.push(...)` appends to it. */
module Depth {
  import opened BinaryTrees

  type Entry = (Tree, int)

  /** Every queued pair holds a node (never `Nil`) at depth at least 1. */
  ghost predicate WellQueued(queue: seq<Entry>)
  {
    forall i :: 0 <= i < |queue| ==> queue[i].0.Node? && queue[i].1 >= 1
  }

  /** Depths along the queue never decrease and span at most one level. */
  ghost predicate Layered(queue: seq<Entry>)
  {
    forall i, j :: 0 <= i < j < |queue| ==> queue[i].1 <= queue[j].1 <= queue[i].1 + 1
  }

  /** The pairs pushed for the children of `node`, left first. */
  function Children(node: Tree, depth: int): seq<Entry>
    requires node.Node?
  {
    (if node.left != Nil then [(node.left, depth + 1)] else [])
      + (if node.right != Nil then [(node.right, depth + 1)] else [])
  }

  /** Nodes still to visit through the queue. */
  function QueueSize(queue: seq<Entry>): nat
  {
    if queue == [] then 0 else Size(queue[0].0) + QueueSize(queue[1..])
  }

  /** The deepest depth reachable through the queue (0 when it is empty). */
  function QueueReach(queue: seq<Entry>): (r: int)
    ensures r >= 0
  {
    if queue == [] then 0 else Max(queue[0].1 + Height(queue[0].0) - 1, QueueReach(queue[1..]))
  }

  /** The shallowest leaf depth reachable through a non-empty queue. */
  function QueueLeaf(queue: seq<Entry>): int
    requires queue != []
  {
    var here := queue[0].1 + MinLeafDepth(queue[0].0) - 1;
    if |queue| == 1 then here else Min(here, QueueLeaf(queue[1..]))
  }

  lemma {:induction false} QueueConcat(a: seq<Entry>, b: seq<Entry>)
    ensures QueueSize(a + b) == QueueSize(a) + QueueSize(b)
    ensures QueueReach(a + b) == Max(QueueReach(a), QueueReach(b))
    ensures a != [] && b != [] ==> QueueLeaf(a + b) == Min(QueueLeaf(a), QueueLeaf(b))
  {
    if a == [] {
      assert a + b == b;
    } else {
      assert (a + b)[1..] == a[1..] + b;
      QueueConcat(a[1..], b);
    }
  }

  /** Every queued depth is at least `bound`, so is every reachable leaf depth. */
  lemma {:induction false} QueueLeafAtLeast(queue: seq<Entry>, bound: int)
    requires queue != [] && WellQueued(queue)
    requires forall i :: 0 <= i < |queue| ==> queue[i].1 >= bound
    ensures QueueLeaf(queue) >= bound
  {
    MinLeafDepthAtMostHeight(queue[0].0);
    if |queue| > 1 {
      QueueLeafAtLeast(queue[1..], bound);
    }
  }

  /** One step of the loop: replacing the head pair by its children keeps the
      queue well formed, leaves one node fewer to visit, and keeps the deepest
      depth seen or reachable. */
  lemma Expand(queue: seq<Entry>, maxDepth: int)
    requires queue != [] && WellQueued(queue)
    ensures var next := queue[1..] + Children(queue[0].0, queue[0].1);
      && WellQueued(next)
      && QueueSize(next) < QueueSize(queue)
      && Max(Max(maxDepth, queue[0].1), QueueReach(next)) == Max(maxDepth, QueueReach(queue))
  {
    var (node, depth) := queue[0];
    var kids := Children(node, depth);
    KidsReach(node, depth);
    QueueConcat(queue[1..], kids);
    ReachArithmetic(maxDepth, depth, Height(node), QueueReach(queue[1..]), QueueReach(kids));
    var next := queue[1..] + kids;
    forall i | 0 <= i < |next|
      ensures next[i].0.Node? && next[i].1 >= 1
    {
      if i < |queue| - 1 {
        assert next[i] == queue[i + 1];
      }
    }
  }

  /** The arithmetic behind `Expand`: the head's own depth together with its
      children's reach covers the depth its subtree reaches. */
  lemma ReachArithmetic(seen: int, depth: int, height: int, rest: int, kids: int)
    requires depth >= 1 && height >= 1
    requires (kids == 0 && height == 1) || kids == depth + height - 1
    ensures Max(Max(seen, depth), Max(rest, kids)) == Max(seen, Max(depth + height - 1, rest))
  {
  }

  /** What the children pushed for a node hold and how deep they reach. */
  lemma KidsReach(node: Tree, depth: int)
    requires node.Node? && depth >= 1
    ensures QueueSize(Children(node, depth)) == Size(node.left) + Size(node.right)
    ensures !IsLeaf(node) ==> QueueReach(Children(node, depth)) == depth + Height(node) - 1
    ensures IsLeaf(node) ==> QueueReach(Children(node, depth)) == 0 && Height(node) == 1
  {
    var kl: seq<Entry> := [(node.left, depth + 1)];
    var kr: seq<Entry> := [(node.right, depth + 1)];
    var kids := Children(node, depth);
    Single(kl[0]);
    Single(kr[0]);
    if node.left != Nil && node.right != Nil {
      assert kids == kl + kr;
      QueueConcat(kl, kr);
    } else if node.left != Nil {
      assert kids == kl;
    } else if node.right != Nil {
      assert kids == kr;
    } else {
      assert kids == [];
    }
  }

  /** The shallowest leaf reachable through the children of a node that is
      not a leaf is the shallowest leaf of its subtree. */
  lemma KidsLeaf(node: Tree, depth: int)
    requires node.Node? && !IsLeaf(node)
    ensures Children(node, depth) != []
    ensures QueueLeaf(Children(node, depth)) == depth + MinLeafDepth(node) - 1
  {
    var kl: seq<Entry> := [(node.left, depth + 1)];
    var kr: seq<Entry> := [(node.right, depth + 1)];
    var kids := Children(node, depth);
    if node.left != Nil && node.right != Nil {
      assert kids == kl + kr;
      QueueConcat(kl, kr);
    } else if node.left != Nil {
      assert kids == kl;
    } else {
      assert kids == kr;
    }
  }

  lemma Single(e: Entry)
    ensures QueueSize([e]) == Size(e.0)
    ensures QueueReach([e]) == Max(e.1 + Height(e.0) - 1, 0)
  {
    assert [e][1..] == [];
  }

  /** For a head that is not a leaf, replacing it by its children keeps the
      queue layered and keeps the shallowest reachable leaf depth. */
  lemma ExpandInner(queue: seq<Entry>)
    requires queue != [] && WellQueued(queue) && Layered(queue)
    requires !IsLeaf(queue[0].0)
    ensures var next := queue[1..] + Children(queue[0].0, queue[0].1);
      && next != [] && Layered(next)
      && QueueLeaf(next) == QueueLeaf(queue)
  {
    var (node, depth) := queue[0];
    var kids := Children(node, depth);
    KidsLeaf(node, depth);
    if |queue| > 1 {
      QueueConcat(queue[1..], kids);
    } else {
      assert queue[1..] + kids == kids;
    }
    ExpandLayered(queue);
  }

  /** The children of the head go one level below it, at the back. */
  lemma ExpandLayered(queue: seq<Entry>)
    requires queue != [] && Layered(queue)
    requires queue[0].0.Node?
    ensures Layered(queue[1..] + Children(queue[0].0, queue[0].1))
  {
    var depth := queue[0].1;
    var kids := Children(queue[0].0, depth);
    var next := queue[1..] + kids;
    assert forall k :: 0 <= k < |kids| ==> kids[k].1 == depth + 1;
    forall i, j | 0 <= i < j < |next|
      ensures next[i].1 <= next[j].1 <= next[i].1 + 1
    {
      if j >= |queue| - 1 {
        assert next[j] == kids[j - |queue| + 1];
        if i < |queue| - 1 {
          assert next[i] == queue[i + 1];
        } else {
          assert next[i] == kids[i - |queue| + 1];
        }
      } else {
        assert next[i] == queue[i + 1] && next[j] == queue[j + 1];
      }
    }
  }

  /** When the head of a layered queue is a leaf, its depth is the
      shallowest reachable leaf depth. */
  lemma HeadLeaf(queue: seq<Entry>)
    requires queue != [] && WellQueued(queue) && Layered(queue)
    requires IsLeaf(queue[0].0)
    ensures QueueLeaf(queue) == queue[0].1
  {
    if |queue| > 1 {
      QueueLeafAtLeast(queue[1..], queue[0].1);
    }
  }

  /** minDepth(): 0 for the empty tree, otherwise the depth of the first leaf
      met breadth-first, which is the depth of the shallowest leaf. The loop
      always leaves through that return: the queue is never exhausted. */
  method MinDepth(root: Tree) returns (d: int)
    ensures d == MinLeafDepth(root)
    ensures root == Nil ==> d == 0
    ensures root != Nil ==> d >= 1
  {
    if root == Nil {
      return 0;
    }
    var queue: seq<Entry> := [(root, 1)];
    while |queue| > 0
      invariant |queue| > 0
      invariant WellQueued(queue) && Layered(queue)
      invariant QueueLeaf(queue) == MinLeafDepth(root)
      decreases QueueSize(queue)
    {
      ghost var before := queue;
      var (node, depth) := queue[0];
      queue := queue[1..];
      if node.left == Nil && node.right == Nil {
        // Found a leaf node
        HeadLeaf(before);
        return depth;
      }
      if node.left != Nil {
        queue := queue + [(node.left, depth + 1)];
      }
      if node.right != Nil {
        queue := queue + [(node.right, depth + 1)];
      }
      assert queue == before[1..] + Children(node, depth);
      Expand(before, 0);
      ExpandInner(before);
    }
    assert false;
  }

  /** maxDepth(): 0 for the empty tree, otherwise the largest depth seen
      breadth-first, which is the height of the tree. */
  method MaxDepth(root: Tree) returns (maxDepth: int)
    ensures maxDepth == Height(root)
    ensures root == Nil <==> maxDepth == 0
  {
    if root == Nil {
      return 0;
    }
    var queue: seq<Entry> := [(root, 1)];
    maxDepth := 0;
    while |queue| > 0
      invariant WellQueued(queue)
      invariant maxDepth >= 0
      invariant Max(maxDepth, QueueReach(queue)) == Height(root)
      decreases QueueSize(queue)
    {
      ghost var before := queue;
      ghost var seen := maxDepth;
      var (node, depth) := queue[0];
      queue := queue[1..];
      maxDepth := Max(maxDepth, depth);
      if node.left != Nil {
        queue := queue + [(node.left, depth + 1)];
      }
      if node.right != Nil {
        queue := queue + [(node.right, depth + 1)];
      }
      assert queue == before[1..] + Children(node, depth);
      Expand(before, seen);
    }
  }
}
