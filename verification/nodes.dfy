/**
 * The nodes of a Huffman tree (`Node` in huffman_tree.h). The source builds them with `new` and
 * never changes them afterwards, so they are modelled as an immutable value: a leaf holds a
 * character and its frequency, an internal node its weight and both of its children.
 */
module Nodes {
  import opened Options

  datatype Tree =
    | Leaf(ch: char, weight: nat)
    | Internal(weight: nat, left: Tree, right: Tree)

  /** The `character` field of a node: the constructor stores '\0' in every internal node. */
  function Char(t: Tree): char
  {
    if t.Leaf? then t.ch else '\0'
  }

  /** The child reached from `t` by the code symbol `x` ('0' = left, '1' = right), if there is one. */
  function Child(t: Tree, x: char): (r: Option<Tree>)
    ensures r.Some? <==> t.Internal? && (x == '0' || x == '1')
  {
    match t
    case Leaf(_, _) => None
    case Internal(_, l, r) => if x == '0' then Some(l) else if x == '1' then Some(r) else None
  }

  /** The node at address `a`, a root-first string of '0'/'1' edges, if `a` stays inside `t`. */
  function At(t: Tree, a: string): Option<Tree>
    decreases a
  {
    if a == [] then Some(t)
    else match Child(t, a[0])
      case None => None
      case Some(n) => At(n, a[1..])
  }

  /** Number of nodes, used as a termination measure for the depth-first search. */
  function Size(t: Tree): (n: nat)
    ensures n >= 1
  {
    match t
    case Leaf(_, _) => 1
    case Internal(_, l, r) => 1 + Size(l) + Size(r)
  }

  /** Every internal node weighs the sum of its children's weights. */
  predicate WeightsAdd(t: Tree)
  {
    match t
    case Leaf(_, _) => true
    case Internal(w, l, r) => w == l.weight + r.weight && WeightsAdd(l) && WeightsAdd(r)
  }

  /** The characters of the leaves, with one copy per leaf. */
  function LeafChars(t: Tree): multiset<char>
  {
    match t
    case Leaf(c, _) => multiset{c}
    case Internal(_, l, r) => LeafChars(l) + LeafChars(r)
  }

  /** The text a tree stands for, up to order: each leaf contributes `weight` copies of its character. */
  function Mass(t: Tree): multiset<char>
  {
    match t
    case Leaf(c, w) => multiset{}[c := w]
    case Internal(_, l, r) => Mass(l) + Mass(r)
  }

  /** Every tree has at least one leaf. */
  lemma {:induction false} HasLeaf(t: Tree)
    ensures |LeafChars(t)| >= 1
  {
    if t.Internal? {
      HasLeaf(t.left);
    }
  }

  /** An internal node has a leaf on each side, so at least two leaves. */
  lemma InternalHasTwoLeaves(t: Tree)
    requires t.Internal?
    ensures |LeafChars(t)| >= 2
  {
    HasLeaf(t.left);
    HasLeaf(t.right);
  }

  /** In a tree whose weights add up, the weight of a node is the size of the text it stands for. */
  lemma {:induction false} WeightIsMassSize(t: Tree)
    requires WeightsAdd(t)
    ensures t.weight == |Mass(t)|
  {
    match t
    case Leaf(_, _) =>
    case Internal(_, l, r) =>
      WeightIsMassSize(l);
      WeightIsMassSize(r);
  }

  /** Following one more symbol from address `a` is taking that child of the node at `a`. */
  lemma {:induction false} AtExtend(t: Tree, a: string, x: char)
    ensures At(t, a + [x]) == if At(t, a).Some? then Child(At(t, a).value, x) else None
    decreases a
  {
    if a == [] {
      assert a + [x] == [x];
      assert At(t, [x]) == match Child(t, x) case None => None case Some(n) => At(n, []);
    } else {
      assert (a + [x])[0] == a[0];
      assert (a + [x])[1..] == a[1..] + [x];
      match Child(t, a[0])
      case None =>
      case Some(n) => AtExtend(n, a[1..], x);
    }
  }

  /** A leaf reached from `t` holds one of the leaf characters of `t`. */
  lemma {:induction false} AtLeafIsLeafChar(t: Tree, a: string)
    requires At(t, a).Some? && At(t, a).value.Leaf?
    ensures At(t, a).value.ch in LeafChars(t)
    decreases a
  {
    if a != [] {
      AtLeafIsLeafChar(Child(t, a[0]).value, a[1..]);
    }
  }

  /** Leaf addresses are prefix-free: no leaf lies on the way to another node. */
  lemma {:induction false} LeafAddressesPrefixFree(t: Tree, a: string, b: string)
    requires At(t, a).Some? && At(t, a).value.Leaf?
    requires At(t, b).Some? && a <= b
    ensures a == b
    decreases a
  {
    if a != [] {
      assert b[0] == a[0] && a[1..] <= b[1..];
      LeafAddressesPrefixFree(Child(t, a[0]).value, a[1..], b[1..]);
    }
  }

  /** When a character labels only one leaf, the address of that leaf is unique. */
  lemma {:induction false} LeafAddressUnique(t: Tree, c: char, a: string, b: string)
    requires LeafChars(t)[c] == 1
    requires At(t, a).Some? && At(t, a).value.Leaf? && At(t, a).value.ch == c
    requires At(t, b).Some? && At(t, b).value.Leaf? && At(t, b).value.ch == c
    ensures a == b
    decreases a
  {
    if a != [] && b != [] {
      var l, r := t.left, t.right;
      if a[0] == b[0] {
        var n := Child(t, a[0]).value;
        AtLeafIsLeafChar(n, a[1..]);
        assert LeafChars(n)[c] == 1 by {
          assert LeafChars(t)[c] == LeafChars(l)[c] + LeafChars(r)[c];
        }
        LeafAddressUnique(n, c, a[1..], b[1..]);
      } else {
        AtLeafIsLeafChar(Child(t, a[0]).value, a[1..]);
        AtLeafIsLeafChar(Child(t, b[0]).value, b[1..]);
      }
    }
  }
}
