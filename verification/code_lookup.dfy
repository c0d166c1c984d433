/**
 * `get_character_code` (huffman_tree.cpp:88-142). A node is identified by its address, the
 * root-first string of '0'/'1' edges that reaches it; the parent of the node at `a + [x]` is the
 * node at `a`, which is what the source's `parent` map records.
 */
module CodeLookup {
  import opened Options
  import opened Nodes

  /**
   * The address of the leftmost leaf holding `c`, found by recursive descent: the reference
   * definition the stack-driven search is proved against.
   */
  function FindPath(t: Tree, c: char): Option<string>
  {
    match t
    case Leaf(d, _) => if d == c then Some([]) else None
    case Internal(_, l, r) =>
      match FindPath(l, c)
      case Some(p) => Some("0" + p)
      case None =>
        match FindPath(r, c)
        case Some(p) => Some("1" + p)
        case None => None
  }

  /**
   * The result of `get_character_code(c)`: "0" when `c` equals the root's `character` field,
   * otherwise the address of the leaf holding `c`, or "" when there is none.
   */
  function CodeFor(t: Tree, c: char): string
  {
    if c == Char(t) then "0"
    else match FindPath(t, c)
      case Some(p) => p
      case None => ""
  }

  /** The search succeeds exactly for the leaf characters, and leads to a leaf holding `c`. */
  lemma {:induction false} FindPathCorrect(t: Tree, c: char)
    ensures FindPath(t, c).Some? <==> c in LeafChars(t)
    ensures FindPath(t, c).Some? ==>
      var n := At(t, FindPath(t, c).value); n.Some? && n.value.Leaf? && n.value.ch == c
    ensures FindPath(t, c).Some? && t.Internal? ==> |FindPath(t, c).value| >= 1
  {
    match t
    case Leaf(_, _) =>
    case Internal(_, l, r) =>
      FindPathCorrect(l, c);
      FindPathCorrect(r, c);
      match FindPath(l, c)
      case Some(p) =>
        assert ("0" + p)[0] == '0' && ("0" + p)[1..] == p;
      case None =>
        match FindPath(r, c)
        case Some(p) =>
          assert ("1" + p)[0] == '1' && ("1" + p)[1..] == p;
        case None =>
  }

  /**
   * The empty string is the "absent" answer: it is returned exactly for a character that is
   * neither a leaf nor the root's `character` field.
   */
  lemma CodeForEmptyIffAbsent(t: Tree, c: char)
    ensures CodeFor(t, c) == "" <==> c != Char(t) && c !in LeafChars(t)
  {
    FindPathCorrect(t, c);
    if t.Leaf? && c != Char(t) {
      assert LeafChars(t) == multiset{t.ch};
    }
  }

  /**
   * For a leaf character of a tree with more than one leaf, other than '\0', the code is the
   * root-to-leaf path: following it from the root ends at a leaf holding `c`.
   */
  lemma CodeForPresent(t: Tree, c: char)
    requires t.Internal? && c != '\0' && c in LeafChars(t)
    ensures CodeFor(t, c) != ""
    ensures var n := At(t, CodeFor(t, c)); n.Some? && n.value.Leaf? && n.value.ch == c
  {
    FindPathCorrect(t, c);
  }

  /** When `c` labels a single leaf, its code is the one and only address of that leaf. */
  lemma CodeIsTheLeafAddress(t: Tree, c: char, a: string)
    requires t.Internal? && c != '\0' && LeafChars(t)[c] == 1
    requires At(t, a).Some? && At(t, a).value.Leaf? && At(t, a).value.ch == c
    ensures CodeFor(t, c) == a
  {
    CodeForPresent(t, c);
    LeafAddressUnique(t, c, CodeFor(t, c), a);
  }

  /** The codes of two different leaf characters are never prefixes of one another. */
  lemma CodesPrefixFree(t: Tree, c: char, d: char)
    requires t.Internal? && c != d && c != '\0' && d != '\0'
    requires c in LeafChars(t) && d in LeafChars(t)
    ensures !(CodeFor(t, c) <= CodeFor(t, d))
  {
    CodeForPresent(t, c);
    CodeForPresent(t, d);
    if CodeFor(t, c) <= CodeFor(t, d) {
      LeafAddressesPrefixFree(t, CodeFor(t, c), CodeFor(t, d));
    }
  }

  /** A node waiting on the search stack, with the address its chain of parents gives it. */
  datatype Entry = Entry(addr: string, node: Tree)

  /** The answer of the search that starts at `e.node`, as an address from the root. */
  function FindBelow(e: Entry, c: char): Option<string>
  {
    match FindPath(e.node, c)
    case Some(p) => Some(e.addr + p)
    case None => None
  }

  /** The answer of a depth-first search whose pending nodes are `stack`, top last. */
  function SearchStack(stack: seq<Entry>, c: char): Option<string>
  {
    if stack == [] then None
    else
      match FindBelow(stack[|stack| - 1], c)
      case Some(p) => Some(p)
      case None => SearchStack(stack[..|stack| - 1], c)
  }

  /** The number of nodes still to visit, a termination measure for the search. */
  function StackSize(stack: seq<Entry>): nat
  {
    if stack == [] then 0 else StackSize(stack[..|stack| - 1]) + Size(stack[|stack| - 1].node)
  }

  /** Searching below an internal node is searching its left subtree, then its right one. */
  lemma FindBelowInternal(a: string, n: Tree, c: char)
    requires n.Internal?
    ensures FindBelow(Entry(a, n), c) ==
      var left := FindBelow(Entry(a + "0", n.left), c);
      if left.Some? then left else FindBelow(Entry(a + "1", n.right), c)
  {
    match FindPath(n.left, c)
    case Some(p) =>
      assert a + ("0" + p) == (a + "0") + p;
    case None =>
      match FindPath(n.right, c)
      case Some(p) =>
        assert a + ("1" + p) == (a + "1") + p;
      case None =>
  }

  /** The reverse of a sequence, taken from its last element. */
  function Reverse(s: string): (r: string)
    ensures |r| == |s|
  {
    if s == [] then [] else [s[|s| - 1]] + Reverse(s[..|s| - 1])
  }

  /**
   * `get_character_code`: the root special case, then a depth-first search with an explicit
   * stack (right child pushed before left, so the left one is visited first); once the leaf is
   * found, the walk back to the root collects the edges leaf-first in `stk`, and popping `stk`
   * gives them root-first. The source dereferences `theRoot` without a check, so a root is
   * required.
   */
  method CharacterCode(root: Tree, c: char) returns (code: string)
    ensures code == CodeFor(root, c)
  {
    if Char(root) == c {
      return "0";
    }
    var stack := [Entry("", root)];
    assert FindBelow(Entry("", root), c) == FindPath(root, c) by {
      match FindPath(root, c)
      case Some(p) => assert "" + p == p;
      case None =>
    }
    while stack != []
      invariant SearchStack(stack, c) == FindPath(root, c)
      decreases StackSize(stack)
    {
      ghost var pending := stack;
      var top := stack[|stack| - 1];
      stack := stack[..|stack| - 1];
      var a, current := top.addr, top.node;
      assert pending[..|pending| - 1] == stack;
      assert StackSize(pending) == StackSize(stack) + Size(current);
      if current.Leaf? && current.ch == c {
        assert a + [] == a;
        // walk back to the root, recording for each node whether it is a left or a right child
        var up := a;
        var stk: string := [];
        while up != []
          invariant up + Reverse(stk) == a
        {
          var edge := up[|up| - 1];
          assert up == up[..|up| - 1] + [edge];
          assert (stk + [edge])[..|stk|] == stk;
          stk := stk + [edge];
          up := up[..|up| - 1];
        }
        // pop the edges off `stk`, root-first
        code := [];
        while stk != []
          invariant code + Reverse(stk) == a
        {
          code := code + [stk[|stk| - 1]];
          stk := stk[..|stk| - 1];
        }
        return;
      }
      if current.Internal? {
        FindBelowInternal(a, current, c);
        var right, left := Entry(a + "1", current.right), Entry(a + "0", current.left);
        ghost var rest := stack;
        assert (stack + [right])[..|stack|] == stack;
        stack := stack + [right];
        assert StackSize(stack) == StackSize(rest) + Size(current.right);
        assert (stack + [left])[..|stack|] == stack;
        stack := stack + [left];
        assert StackSize(stack) == StackSize(rest) + Size(current.right) + Size(current.left);
      }
    }
    return "";
  }
}
