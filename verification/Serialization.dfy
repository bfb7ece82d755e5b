/** `serialize` and `deserialize`: a pre-order listing of the values with `#`
    for every missing child, joined with commas; the empty tree is the empty
    string. */
module Serialization {
  import opened BinaryTrees
  import opened Text

  /** The pre-order token list of a tree, `#` standing for `Nil`. */
  function Tokens(t: Tree): (ts: seq<string>)
    ensures |ts| >= 1 && (ts[0] == "#" <==> t == Nil)
  {
    match t
    case Nil => ["#"]
    case Node(v, l, r) => [NumberToString(v)] + Tokens(l) + Tokens(r)
  }

  /** No token holds a comma, so joining them with commas can be undone. */
  lemma {:induction false} TokensCommaFree(t: Tree)
    ensures forall i :: 0 <= i < |Tokens(t)| ==> ',' !in Tokens(t)[i]
  {
    match t
    case Nil =>
    case Node(v, l, r) =>
      TokensCommaFree(l);
      TokensCommaFree(r);
      var ts := Tokens(t);
      forall i | 0 <= i < |ts|
        ensures ',' !in ts[i]
      {
        if 1 <= i < 1 + |Tokens(l)| {
          assert ts[i] == Tokens(l)[i - 1];
        } else if i >= 1 + |Tokens(l)| {
          assert ts[i] == Tokens(r)[i - 1 - |Tokens(l)|];
        }
      }
  }

  /** serialize(tree) as a value: "" for the empty tree, otherwise the tokens
      joined with commas. */
  function Encode(t: Tree): string
  {
    if t == Nil then "" else Join(Tokens(t))
  }

  /** The inner `preorder(node)` of serialize: appends the tokens of `node` to
      the shared `values` array. */
  method WritePreorder(node: Tree, values: seq<string>) returns (out: seq<string>)
    ensures out == values + Tokens(node)
  {
    if node == Nil {
      out := values + ["#"];
      return;
    }
    out := values + [NumberToString(node.val)];
    out := WritePreorder(node.left, out);
    out := WritePreorder(node.right, out);
    Assoc(values, [NumberToString(node.val)], Tokens(node.left));
    Assoc(values, [NumberToString(node.val)] + Tokens(node.left), Tokens(node.right));
  }

  /** serialize(tree). */
  method Serialize(tree: Tree) returns (s: string)
    ensures s == Encode(tree)
  {
    if tree == Nil {
      return "";
    }
    var values := WritePreorder(tree, []);
    assert values == Tokens(tree);
    s := Join(values);
  }

  /** The empty string encodes the empty tree and nothing else. */
  lemma EncodeEmptyIff(t: Tree)
    ensures Encode(t) == "" <==> t == Nil
  {
    if t != Nil {
      TokensCommaFree(t);
      SplitJoin(Tokens(t));
      assert Split("") == [""];
    }
  }

  // ----- Reading tokens back -----

  /** How the inner `preorder()` of deserialize reads one token: `#` is a
      missing child, and anything else is a node whose value is `Number(token)`. */
  datatype Token = Hash | Num(value: int) | NotNumber

  /** `#` is a missing child; any other token is a node exactly when it
      parses as a number, and then carries that number. */
  function Read(token: string): (r: Token)
    ensures r == Hash <==> token == "#"
    ensures r.Num? <==> token != "#" && ParseNumber(token).Some?
    ensures r.Num? ==> ParseNumber(token) == Some(r.value)
  {
    if token == "#" then Hash
    else
      match ParseNumber(token)
      case Some(v) => Num(v)
      case None => NotNumber
  }

  /** Every token `serialize` writes reads back as what it was written for. */
  lemma ReadNumberToString(v: int)
    ensures Read(NumberToString(v)) == Num(v)
  {
    ParseNumberToString(v);
  }

  /** Each token of `values`, read. */
  function Reads(values: seq<string>): (tokens: seq<Token>)
    ensures |tokens| == |values|
  {
    if values == [] then [] else [Read(values[0])] + Reads(values[1..])
  }

  lemma {:induction false} ReadsAt(values: seq<string>, i: nat)
    requires i < |values|
    ensures Reads(values)[i] == Read(values[i])
  {
    if i > 0 {
      ReadsAt(values[1..], i - 1);
    }
  }

  /** The pre-order listing of a tree as read tokens. */
  function Shape(t: Tree): seq<Token>
  {
    match t
    case Nil => [Hash]
    case Node(v, l, r) => [Num(v)] + Shape(l) + Shape(r)
  }

  /** Reading the tokens `serialize` writes gives the tree's shape back. */
  lemma {:induction false} ReadsTokens(t: Tree)
    ensures Reads(Tokens(t)) == Shape(t)
  {
    match t
    case Nil =>
    case Node(v, l, r) =>
      ReadsTokens(l);
      ReadsTokens(r);
      ReadNumberToString(v);
      ReadsAppend([NumberToString(v)] + Tokens(l), Tokens(r));
      ReadsAppend([NumberToString(v)], Tokens(l));
  }

  lemma {:induction false} ReadsAppend(a: seq<string>, b: seq<string>)
    ensures Reads(a + b) == Reads(a) + Reads(b)
  {
    if a == [] {
      assert a + b == b;
    } else {
      assert (a + b)[1..] == a[1..] + b;
      ReadsAppend(a[1..], b);
    }
  }

  /** The number of tokens of a tree: one per node and one per missing child. */
  function Width(t: Tree): (w: nat)
    ensures w >= 1
  {
    match t
    case Nil => 1
    case Node(_, l, r) => 1 + Width(l) + Width(r)
  }

  lemma {:induction false} ShapeWidth(t: Tree)
    ensures |Shape(t)| == Width(t)
  {
    match t
    case Nil =>
    case Node(_, l, r) =>
      ShapeWidth(l);
      ShapeWidth(r);
  }

  /** The read tokens from `index` on spell `t` in pre-order. */
  ghost predicate SpelledAt(t: Tree, tokens: seq<Token>, index: nat)
    decreases t
  {
    && index < |tokens|
    && match t
       case Nil => tokens[index] == Hash
       case Node(v, l, r) =>
         && tokens[index] == Num(v)
         && SpelledAt(l, tokens, index + 1)
         && SpelledAt(r, tokens, index + 1 + Width(l))
  }

  lemma {:induction false} SpelledInRange(t: Tree, tokens: seq<Token>, index: nat)
    requires SpelledAt(t, tokens, index)
    ensures index + Width(t) <= |tokens|
    decreases t
  {
    if t.Node? {
      SpelledInRange(t.right, tokens, index + 1 + Width(t.left));
    }
  }

  /** At most one tree is spelled from a given position: pre-order listings
      with `#` markers are prefix-free. */
  lemma {:induction false} SpelledUnique(t1: Tree, t2: Tree, tokens: seq<Token>, index: nat)
    requires SpelledAt(t1, tokens, index) && SpelledAt(t2, tokens, index)
    ensures t1 == t2
    decreases t1
  {
    if t1.Node? {
      SpelledUnique(t1.left, t2.left, tokens, index + 1);
      SpelledUnique(t1.right, t2.right, tokens, index + 1 + Width(t1.left));
    }
  }

  /** A tree's shape spells the tree, whatever surrounds it. */
  lemma {:induction false} ShapeSpelled(t: Tree, before: seq<Token>, after: seq<Token>)
    ensures SpelledAt(t, before + Shape(t) + after, |before|)
    decreases t
  {
    Seam(before, Shape(t), after);
    if t.Node? {
      var n, l, r := [Num(t.val)], Shape(t.left), Shape(t.right);
      ShapeWidth(t.left);
      Regroup(before, n, l, r, after);
      ShapeSpelled(t.left, before + n, r + after);
      ShapeSpelled(t.right, before + n + l, after);
    }
  }

  lemma Seam<T>(before: seq<T>, middle: seq<T>, after: seq<T>)
    requires middle != []
    ensures (before + middle + after)[|before|] == middle[0]
  {
  }

  lemma Regroup<T>(before: seq<T>, n: seq<T>, l: seq<T>, r: seq<T>, after: seq<T>)
    ensures before + (n + l + r) + after == (before + n) + l + (r + after)
    ensures before + (n + l + r) + after == (before + n + l) + r + after
  {
  }

  /** The tokens `serialize` writes for `t`, read back, spell `t`. */
  lemma TokensSpelled(t: Tree)
    ensures SpelledAt(t, Reads(Tokens(t)), 0)
  {
    ReadsTokens(t);
    ShapeSpelled(t, [], []);
    assert [] + Shape(t) + [] == Shape(t);
  }

  /** Distinct trees serialise to distinct strings. */
  lemma EncodeInjective(t1: Tree, t2: Tree)
    requires Encode(t1) == Encode(t2)
    ensures t1 == t2
  {
    EncodeEmptyIff(t1);
    EncodeEmptyIff(t2);
    if t1 != Nil {
      TokensCommaFree(t1);
      TokensCommaFree(t2);
      SplitJoin(Tokens(t1));
      SplitJoin(Tokens(t2));
      TokensSpelled(t1);
      TokensSpelled(t2);
      SpelledUnique(t1, t2, Reads(Tokens(t1)), 0);
    }
  }

  datatype ParseError = Truncated(at: nat) | NotANumber(at: nat)

  datatype Result<T> = Success(value: T) | Failure(error: ParseError)

  /** A subtree read back, and the index of the token after it. */
  datatype Parsed = Parsed(tree: Tree, next: nat)

  /** The inner `preorder()` of deserialize, reading from `values` at the
      shared `index`: `#` is `Nil`, anything else a node whose value is the
      token's number followed by its left and then its right subtree. A
      success is the tree the consumed tokens spell; a failure means that no
      tree is spelled from `index`. */
  method ReadPreorder(values: seq<string>, index: nat) returns (r: Result<Parsed>)
    requires index <= |values|
    ensures r.Success? ==>
      SpelledAt(r.value.tree, Reads(values), index) && r.value.next == index + Width(r.value.tree)
    ensures r.Failure? ==> forall t :: !SpelledAt(t, Reads(values), index)
    decreases |values| - index
  {
    ghost var tokens := Reads(values);
    if index == |values| {
      return Failure(Truncated(index));
    }
    if values[index] == "#" {
      ReadsAt(values, index);
      return Success(Parsed(Nil, index + 1));
    }
    var v := ParseNumber(values[index]);
    TokenRead(values, index);
    if v.None? {
      NoTreeAtNotNumber(tokens, index);
      return Failure(NotANumber(index));
    }
    var left := ReadPreorder(values, index + 1);
    if left.Failure? {
      NoTreeWithoutLeft(tokens, index, index + 1);
      return Failure(left.error);
    }
    SpelledInRange(left.value.tree, tokens, index + 1);
    var right := ReadPreorder(values, left.value.next);
    if right.Failure? {
      RightAfterLeft(tokens, index, left.value.tree);
      return Failure(right.error);
    }
    r := Success(Parsed(Node(v.value, left.value.tree, right.value.tree), right.value.next));
  }

  /** A token other than `#` reads as the number `Number` gives, if any. */
  lemma TokenRead(values: seq<string>, index: nat)
    requires index < |values| && values[index] != "#"
    ensures ParseNumber(values[index]).Some? ==> Reads(values)[index] == Num(ParseNumber(values[index]).value)
    ensures ParseNumber(values[index]).None? ==> Reads(values)[index] == NotNumber
  {
    ReadsAt(values, index);
  }

  lemma NoTreeAtNotNumber(tokens: seq<Token>, index: nat)
    requires index < |tokens| && tokens[index] == NotNumber
    ensures forall t :: !SpelledAt(t, tokens, index)
  {
  }

  lemma NoTreeWithoutLeft(tokens: seq<Token>, index: nat, next: nat)
    requires index < |tokens| && tokens[index] != Hash && next == index + 1
    requires forall t :: !SpelledAt(t, tokens, next)
    ensures forall t :: !SpelledAt(t, tokens, index)
  {
  }

  /** Once the left subtree is read, any node spelled from `index` has its
      right subtree spelled right after that left subtree. */
  lemma RightAfterLeft(tokens: seq<Token>, index: nat, left: Tree)
    requires SpelledAt(left, tokens, index + 1)
    ensures forall t: Tree :: t.Node? && SpelledAt(t, tokens, index) ==>
      SpelledAt(t.right, tokens, index + 1 + Width(left))
  {
    forall t: Tree | t.Node? && SpelledAt(t, tokens, index)
      ensures SpelledAt(t.right, tokens, index + 1 + Width(left))
    {
      SpelledUnique(t.left, left, tokens, index + 1);
    }
  }

  /** deserialize(stringTree): the empty string gives the empty tree;
      otherwise the string is split at commas and one tree is read from the
      first token on (tokens after it are ignored). Reading back what
      `serialize` wrote gives the original tree. */
  method Deserialize(stringTree: string) returns (r: Result<Tree>)
    ensures stringTree == "" ==> r == Success(Nil)
    ensures forall t :: stringTree == Encode(t) ==> r == Success(t)
    ensures stringTree != "" && r.Success? ==> SpelledAt(r.value, Reads(Split(stringTree)), 0)
    ensures stringTree != "" && r.Failure? ==> forall t :: !SpelledAt(t, Reads(Split(stringTree)), 0)
  {
    if stringTree == "" {
      r := Success(Nil);
      EncodedEmpty(stringTree);
      return;
    }
    var values := Split(stringTree);
    var root := ReadPreorder(values, 0);
    if root.Failure? {
      r := Failure(root.error);
    } else {
      r := Success(root.value.tree);
    }
    forall t | stringTree == Encode(t)
      ensures r == Success(t)
    {
      EncodeEmptyIff(t);
      TokensCommaFree(t);
      SplitJoin(Tokens(t));
      TokensSpelled(t);
      SpelledUnique(t, r.value, Reads(values), 0);
    }
  }

  lemma EncodedEmpty(s: string)
    requires s == ""
    ensures forall t :: s == Encode(t) ==> t == Nil
  {
    forall t | s == Encode(t)
      ensures t == Nil
    {
      EncodeEmptyIff(t);
    }
  }
}
