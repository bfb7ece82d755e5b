# binary-tree.js in Dafny

A model of `BinaryTree`, a binary tree of integer-valued nodes, and the eight
operations defined on it:

- `minDepth` and `maxDepth`: breadth-first walks over a queue of
  `(node, depth)` pairs, with the root at depth 1.
- `maxSum`: the best sum of a path that may bend at one node. A post-order
  recursion raises a closure variable `result`.
- `nextLarger(lowerBound)`: an in-order walk with an explicit stack. It keeps
  the least value above the bound and does not rely on search-tree order.
- `areCousins(node1, node2)` and its inner `findLevelAndParent`.
- `serialize` and `deserialize`: a pre-order listing of values, with `#` for
  each missing child, joined with commas.
- `lowestCommonAncestor(node1, node2)` and its helpers `_isNodePresent` and
  `_lowestCommonAncestorHelper`.

How the source maps onto the model:

- A tree is the value `Tree = Nil | Node(val, left, right)`. Each operation
  takes the root, because `BinaryTree` never changes its root once built.
- Node identity (`===`) is a node's path from the root, a `seq<Dir>` with
  `Dir = Left | Right`. A handle to a node outside the tree is a path that
  does not lead to a node.
- Each loop of the source is a `method` with a loop and its invariants, and
  is proved equal to a function that states what the loop computes:
  - `MinDepth` and `MaxDepth` against `MinLeafDepth` and `Height`;
  - `NextLarger` against the least value above the bound, with the popped
    values equal to the in-order listing.
- The closure state of the source is threaded in and out of recursive
  methods:
  - `result` of `maxSum`;
  - the `values` array of `serialize`;
  - the `index` of `deserialize`, whose recursive `ReadPreorder` is proved
    against the pre-order spelling `SpelledAt`;
  - the `data` record of `findLevelAndParent`.
- The two helpers of `lowestCommonAncestor` are pure recursion, so they are
  functions whose contracts rest on their recursive calls.

| module | file | contents |
|---|---|---|
| `BinaryTrees` | BinaryTrees.dfy | trees, paths, height, shallowest leaf, in-order listing |
| `Depth` | Depth.dfy | `minDepth`, `maxDepth` |
| `PathSums` | PathSums.dfy | `maxSum`, with paths as bends of two downward arms |
| `Successor` | Successor.dfy | `nextLarger` |
| `Cousins` | Cousins.dfy | `areCousins`, `findLevelAndParent` |
| `Ancestors` | Ancestors.dfy | `lowestCommonAncestor` and its helpers |
| `Text` | Text.dfy | `String(n)` and `Number(s)` on integers, `join(",")`, `split(",")` |
| `Serialization` | Serialization.dfy | `serialize`, `deserialize` |

## Model

| member | source | states |
|---|---|---|
| Depth.MinDepth | binary-tree.js:17-40 | 0 for the empty tree. Otherwise the depth of the shallowest leaf, which is at least 1. The loop always leaves through the leaf return and never runs off its end. |
| Depth.MaxDepth | binary-tree.js:44-66 | The height of the tree, counted in nodes. It is 0 exactly for the empty tree. |
| BinaryTrees.MinLeafDepthAtMostHeight | binary-tree.js:17-66 | `minDepth() <= maxDepth()`. Both are 0 exactly for the empty tree and both are 1 for a single node. |
| BinaryTrees.HeightBoundsDepth | binary-tree.js:44-66 | No node is deeper than the value `maxDepth` returns. |
| BinaryTrees.DeepestPath | binary-tree.js:44-66 | Some node lies at exactly the depth `maxDepth` returns. |
| BinaryTrees.MinLeafDepthBoundsLeaves | binary-tree.js:17-40 | No leaf is shallower than the value `minDepth` returns. |
| BinaryTrees.ShallowestLeaf | binary-tree.js:17-40 | Some leaf lies at exactly the depth `minDepth` returns. |
| PathSums.MaxSumHelper | binary-tree.js:73-79 | The return value is the best non-negative downward extension from the node. `result` rises to the best bending sum found in the subtree. |
| PathSums.MaxSum | binary-tree.js:70-83 | 0 for the empty tree and never negative. At least `val + leftGain + rightGain` at every node. |
| PathSums.MaxSumIsBestPathSum | binary-tree.js:68-83 | The result is the largest sum of any path that visits no node twice, with the empty path counting 0. No path exceeds it, and some path reaches it unless it is 0. |
| PathSums.AllNegativeYieldsZero | binary-tree.js:71-78 | A tree whose values are all negative yields 0. |
| PathSums.GainBoundsChains | binary-tree.js:78 | No downward chain from a node sums to more than the helper's return value. |
| PathSums.BestBoundsBends | binary-tree.js:77 | No path that bends at a node of the subtree sums to more than the best `result`. |
| Successor.NextLarger | binary-tree.js:87-114 | `None` (null) exactly when the tree is empty or no value exceeds the bound. Otherwise the result is a tree value above the bound and no larger than any other such value. The values the stack loop pops, in the order it pops them, are the in-order listing of the tree. |
| Successor.SmallestAboveIsLeast | binary-tree.js:104-108 | The running minimum of the loop is the least element above the bound, and is `None` exactly when there is none. |
| Successor.SmallestAboveInTree | binary-tree.js:87-114 | Over the in-order listing, that minimum is the least tree value above the bound. |
| Successor.PushStep | binary-tree.js:97-100 | Pushing a node and moving to its left child leaves the same values to visit. |
| Successor.PopStep | binary-tree.js:102-110 | A pop visits the next in-order value and leaves fewer to visit. |
| Cousins.FindLevelAndParent | binary-tree.js:122-140 | An already recorded parent is returned unchanged. Otherwise, when the node lies below the current node, its depth and its parent are recorded. When it does not, the record is unchanged. |
| Cousins.AreCousins | binary-tree.js:119-150 | True exactly for two nodes of the tree at the same depth with different parents. A handle to the root, or to a node outside the tree, gives false. |
| Cousins.CousinsAreDeep | binary-tree.js:117-150 | Cousins are distinct, lie at level 2 or more (at least two edges below the root), and have parents in the tree. The relation is symmetric. |
| Cousins.SiblingsAreNotCousins | binary-tree.js:145-149 | Two children of one parent are never cousins. |
| Ancestors.IsNodePresent | binary-tree.js:217-227 | True exactly when the handle is a node of the subtree. |
| Ancestors.LcaHelper | binary-tree.js:229-242 | With both nodes in the subtree, their lowest common ancestor. With only one of them, that node. With neither, null. |
| Ancestors.LowestCommonAncestor | binary-tree.js:209-215 | Null unless both nodes are in the tree. Otherwise a node of the tree that is an ancestor-or-self of both, namely the longest common prefix of their paths. |
| Ancestors.LcaIsLowest | binary-tree.js:206-215 | Every common ancestor of the two nodes is an ancestor-or-self of the result. |
| Ancestors.LcaOfAncestor | binary-tree.js:229-241 | When one node is an ancestor of the other, that ancestor is the result. In particular `lowestCommonAncestor(n, n)` is `n`. |
| Ancestors.CommonPrefix | binary-tree.js:237-241 | The fork point is a prefix of both paths, and the paths part right after it. |
| Ancestors.CommonPrefixIsLongest | binary-tree.js:237-241 | Every common prefix is a prefix of the fork point. |
| Serialization.WritePreorder | binary-tree.js:161-170 | Appends the pre-order tokens of the subtree to `values`, with `#` for each missing child. |
| Serialization.Serialize | binary-tree.js:154-175 | `""` for the empty tree. Otherwise the pre-order tokens joined with commas. |
| Serialization.EncodeEmptyIff | binary-tree.js:155-157 | The empty string is the encoding of the empty tree and of no other tree. |
| Serialization.EncodeInjective | binary-tree.js:154-175 | Distinct trees serialise to distinct strings. |
| Serialization.TokensCommaFree | binary-tree.js:163-167 | No token holds a comma. |
| Serialization.ReadPreorder | binary-tree.js:187-199 | On success, the consumed tokens spell the returned subtree in pre-order, and the index moves past exactly that many tokens. On failure, no tree is spelled from the index. |
| Serialization.Deserialize | binary-tree.js:179-204 | `""` gives the empty tree. The serialisation of any tree reads back as that tree. Otherwise the tree is the one spelled by the split tokens, and a failure means that none is spelled. |
| Serialization.SpelledUnique | binary-tree.js:187-199 | At most one tree is spelled from a given position, so pre-order listings with `#` are prefix-free. |
| Serialization.TokensSpelled | binary-tree.js:161-170 | The tokens `serialize` writes, read back, spell the tree. |
| Serialization.ReadNumberToString | binary-tree.js:167 | Each value token that `serialize` writes reads back as that value. |
| Text.ParseNumberToString | binary-tree.js:193 | `Number(String(v)) == v` for every integer `v`. |
| Text.NumberToStringInjective | binary-tree.js:167 | Distinct integers print differently. |
| Text.NumberToString | binary-tree.js:167 | A value token is non-empty, holds no comma and is never `#`. |
| Text.Split | binary-tree.js:184 | Gives at least one piece. Joining the pieces with commas gives the string back, and no piece holds a comma. |
| Text.JoinPieces | binary-tree.js:174 | `[]` joins to `""`. Otherwise the first piece starts the string and the last piece ends it, so there is no trailing comma. Comma-free pieces are separated by exactly `|xs| - 1` commas. |
| Text.ParseNumber | binary-tree.js:193 | `Number(s)` on integers: `""` gives 0. A value is given exactly for `""`, for a string of decimal digits, and for one sign followed by decimal digits. The value is non-positive after `-` and non-negative otherwise. Every other string gives `None`. |
| Text.ParseNumberValue | binary-tree.js:193 | The value `ParseNumber` gives: the digits after the sign, or the whole string when there is none, spell its magnitude in decimal with leading zeros allowed, and `-` negates it. |
| Text.ParseDigits | binary-tree.js:193 | Gives a value exactly for a non-empty string of decimal digits. |
| Text.ParseDigitsValue | binary-tree.js:193 | The digits are the decimal numeral of the value `ParseDigits` gives, after any leading zeros. |
| Text.DenotesUnique | binary-tree.js:193 | A digit string spells at most one number, so `ParseDigitsValue` and `ParseNumberValue` fix the value. |
| Text.ParseNegative | binary-tree.js:193 | After `-`, digits give the negation of their value. |
| Text.ParseUnsigned | binary-tree.js:193 | After `+`, or with no sign, digits give their value. |
| Text.ParseDigitsSnoc | binary-tree.js:193 | One more digit multiplies the value by ten and adds that digit. |
| Serialization.Read | binary-tree.js:188-193 | `"#"` reads as a missing child. Any other token reads as a node exactly when `ParseNumber` accepts it, carrying that number, and as not-a-number otherwise. |
| Text.SplitJoin | binary-tree.js:174-184 | Splitting a comma-join of comma-free pieces gives the pieces back. |

## Left out

- JavaScript numbers. Values are unbounded integers, so floating point, `NaN`, the limit of safe integers and exponent notation in `String(n)` are not modelled.
- Text.ParseNumber: models `Number(s)` only on the strings the model needs. The empty string is 0, and an optional sign followed by decimal digits is that integer. Every other string counts as not a number, including whitespace, hexadecimal, exponent and fractional forms, which `Number` accepts.
- Serialization.ReadPreorder: where the source reads past the last token, it goes on building `NaN` nodes and recursing without bound. On a token that is not a number it builds a `NaN` node. In both cases the model returns an explicit `Failure`. The source defines no error policy, so this choice is the model's own.
- Serialization.Deserialize: inherits those failures. Tokens left over after one complete tree are ignored, as in the source.
- Cousins.AreCousins: requires a non-empty tree. On an empty tree the source dereferences a null root inside `findLevelAndParent`. Null handles cannot be expressed as paths; in the source a null handle would match a missing child.
- PathSums.MaxSumHelper: requires `result >= 0`. `result` starts at 0 and only grows, so every call the source makes meets this.
- The "all-negative tree" claim that `maxSum` returns the largest value does not match the code, which starts `result` at 0. The model follows the code, and `AllNegativeYieldsZero` states the result.
- Node objects, aliasing and in-place linking. `new BinaryTreeNode(...)` and the `BinaryTree` constructor are the datatype constructors. `deserialize` links nodes in place, and the model builds the same tree as a value. Shared nodes and cycles cannot be expressed.
- The cost of `queue.shift()` and other performance matters are not modelled, and neither is `module.exports`.
