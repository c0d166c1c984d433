/**
 * The constructor of `huffman_tree` (huffman_tree.cpp:25-76): one leaf per distinct character
 * goes into a priority queue ordered by weight, and the two lightest nodes are merged under a
 * new internal node until a single node, the root, remains. The queue is a sequence whose
 * order carries no meaning; `PopMin` takes out a node of minimum weight.
 */
module Construction {
  import opened Options
  import opened Nodes
  import opened Frequencies

  /**
   * The union of `f` over the queued trees. `QueueSum(Mass, q)` is the text the queue stands
   * for; `QueueSum(LeafChars, q)` its leaf characters.
   */
  function QueueSum(f: Tree -> multiset<char>, q: seq<Tree>): multiset<char>
  {
    if q == [] then multiset{} else f(q[0]) + QueueSum(f, q[1..])
  }

  /** The sum of the weights of the queued trees. */
  function TotalWeight(q: seq<Tree>): nat
  {
    if q == [] then 0 else q[0].weight + TotalWeight(q[1..])
  }

  /** Every queued tree has weights that add up. */
  predicate QueueWeightsAdd(q: seq<Tree>)
  {
    q == [] || (WeightsAdd(q[0]) && QueueWeightsAdd(q[1..]))
  }

  lemma {:induction false} SumConcat(f: Tree -> multiset<char>, a: seq<Tree>, b: seq<Tree>)
    ensures QueueSum(f, a + b) == QueueSum(f, a) + QueueSum(f, b)
  {
    if a == [] {
      assert a + b == b;
    } else {
      assert (a + b)[1..] == a[1..] + b;
      SumConcat(f, a[1..], b);
    }
  }

  lemma {:induction false} WeightsAddConcat(a: seq<Tree>, b: seq<Tree>)
    ensures QueueWeightsAdd(a + b) == (QueueWeightsAdd(a) && QueueWeightsAdd(b))
  {
    if a == [] {
      assert a + b == b;
    } else {
      assert (a + b)[1..] == a[1..] + b;
      WeightsAddConcat(a[1..], b);
    }
  }

  /** Queueing one tree at the back adds its share. */
  lemma Enqueue(q: seq<Tree>, t: Tree)
    ensures QueueWeightsAdd(q + [t]) == (QueueWeightsAdd(q) && WeightsAdd(t))
    ensures QueueSum(Mass, q + [t]) == QueueSum(Mass, q) + Mass(t)
    ensures QueueSum(LeafChars, q + [t]) == QueueSum(LeafChars, q) + LeafChars(t)
  {
    assert [t][1..] == [];
    WeightsAddConcat(q, [t]);
    SumConcat(Mass, q, [t]);
    SumConcat(LeafChars, q, [t]);
  }

  /** The queue `q` with the tree at position `k` taken out and the others kept in order. */
  function Without(q: seq<Tree>, k: nat): (r: seq<Tree>)
    requires k < |q|
    ensures |r| == |q| - 1
    ensures forall j :: 0 <= j < k ==> r[j] == q[j]
    ensures forall j :: k <= j < |r| ==> r[j] == q[j + 1]
  {
    q[..k] + q[k + 1..]
  }

  /** Taking the tree at `j` out of a queue takes its share out of the sum. */
  lemma {:induction false} SumRemoveAt(f: Tree -> multiset<char>, b: seq<Tree>, j: nat)
    requires j < |b|
    ensures QueueSum(f, b) == f(b[j]) + QueueSum(f, Without(b, j))
  {
    if j == 0 {
      assert Without(b, j) == b[1..];
    } else {
      var tail := b[1..];
      var rest := Without(tail, j - 1);
      SumRemoveAt(f, tail, j - 1);
      assert Without(b, j) == [b[0]] + rest;
      assert ([b[0]] + rest)[0] == b[0] && ([b[0]] + rest)[1..] == rest;
    }
  }

  /** Taking the tree at `j` out of a queue keeps the others' weights adding up, and no more. */
  lemma {:induction false} WeightsAddRemoveAt(b: seq<Tree>, j: nat)
    requires j < |b|
    ensures QueueWeightsAdd(b) == (WeightsAdd(b[j]) && QueueWeightsAdd(Without(b, j)))
  {
    if j == 0 {
      assert Without(b, j) == b[1..];
    } else {
      var tail := b[1..];
      var rest := Without(tail, j - 1);
      WeightsAddRemoveAt(tail, j - 1);
      assert Without(b, j) == [b[0]] + rest;
      assert ([b[0]] + rest)[0] == b[0] && ([b[0]] + rest)[1..] == rest;
    }
  }

  /** The queue's total weight is the size of the text it stands for. */
  lemma {:induction false} TotalWeightIsMassSize(q: seq<Tree>)
    requires QueueWeightsAdd(q)
    ensures TotalWeight(q) == |QueueSum(Mass, q)|
  {
    if q != [] {
      WeightIsMassSize(q[0]);
      TotalWeightIsMassSize(q[1..]);
    }
  }

  /** `top()`: the position of a node of minimum weight. */
  method Lightest(q: seq<Tree>) returns (k: nat)
    requires q != []
    ensures k < |q|
    ensures forall j :: 0 <= j < |q| ==> q[k].weight <= q[j].weight
  {
    k := 0;
    for i := 1 to |q|
      invariant 0 <= k < |q|
      invariant forall j :: 0 <= j < i ==> q[k].weight <= q[j].weight
    {
      if q[i].weight < q[k].weight {
        k := i;
      }
    }
  }

  /** A lower bound on every weight of a queue still holds once one tree is taken out. */
  lemma LowerBoundSurvives(q: seq<Tree>, k: nat, rest: seq<Tree>, w: nat)
    requires k < |q| && rest == Without(q, k)
    requires forall j :: 0 <= j < |q| ==> w <= q[j].weight
    ensures forall j :: 0 <= j < |rest| ==> w <= rest[j].weight
  {
    forall j | 0 <= j < |rest| ensures w <= rest[j].weight {
      if j < k {
        assert rest[j] == q[j];
      } else {
        assert rest[j] == q[j + 1];
      }
    }
  }

  /**
   * `top()` followed by `pop()`: takes a node of minimum weight, at position `k`, out of the
   * queue and leaves the others, in their order. What this does to the queue's mass, leaf
   * characters and weights is stated once, for every position, by `SumRemoveAt` and
   * `WeightsAddRemoveAt`.
   */
  method PopMin(q: seq<Tree>) returns (k: nat, m: Tree, rest: seq<Tree>)
    requires q != []
    ensures k < |q| && m == q[k] && rest == Without(q, k)
    ensures forall j :: 0 <= j < |q| ==> m.weight <= q[j].weight
    ensures forall j :: 0 <= j < |rest| ==> m.weight <= rest[j].weight
  {
    k := Lightest(q);
    m := q[k];
    rest := Without(q, k);
    LowerBoundSurvives(q, k, rest, m.weight);
  }

  /** What the queue holds once the characters of `freq` outside `pending` have been seeded. */
  ghost predicate Seeded(q: seq<Tree>, freq: map<char, nat>, pending: set<char>)
  {
    && pending <= freq.Keys
    && QueueWeightsAdd(q)
    && (forall c :: QueueSum(Mass, q)[c] == if c in freq && c !in pending then freq[c] else 0)
    && (forall c :: QueueSum(LeafChars, q)[c] == if c in freq && c !in pending then 1 else 0)
  }

  /** Queueing the leaf of a pending character seeds that character. */
  lemma SeedOne(q: seq<Tree>, freq: map<char, nat>, pending: set<char>, c: char)
    requires Seeded(q, freq, pending) && c in pending
    ensures Seeded(q + [Leaf(c, freq[c])], freq, pending - {c})
  {
    var leaf := Leaf(c, freq[c]);
    Enqueue(q, leaf);
    var mass, leaves := QueueSum(Mass, q + [leaf]), QueueSum(LeafChars, q + [leaf]);
    forall d ensures mass[d] == if d in freq && d !in pending - {c} then freq[d] else 0 {
      assert mass[d] == QueueSum(Mass, q)[d] + multiset{}[c := freq[c]][d];
    }
    forall d ensures leaves[d] == if d in freq && d !in pending - {c} then 1 else 0 {
      assert leaves[d] == QueueSum(LeafChars, q)[d] + multiset{c}[d];
    }
  }

  /** Puts one leaf per entry of the frequency table into the queue (huffman_tree.cpp:40-51). */
  method SeedQueue(freq: map<char, nat>) returns (q: seq<Tree>)
    ensures forall k :: 0 <= k < |q| ==> q[k].Leaf? && q[k].ch in freq && q[k].weight == freq[q[k].ch]
    ensures QueueWeightsAdd(q)
    ensures forall c :: QueueSum(Mass, q)[c] == if c in freq then freq[c] else 0
    ensures forall c :: QueueSum(LeafChars, q)[c] == if c in freq then 1 else 0
  {
    q := [];
    var pending := freq.Keys;
    while pending != {}
      invariant Seeded(q, freq, pending)
      invariant forall k :: 0 <= k < |q| ==> q[k].Leaf? && q[k].ch in freq && q[k].weight == freq[q[k].ch]
      decreases pending
    {
      var c :| c in pending;
      SeedOne(q, freq, pending, c);
      q := q + [Leaf(c, freq[c])];
      pending := pending - {c};
    }
  }

  /**
   * One round of the construction loop (huffman_tree.cpp:56-71): the lightest tree, at `i`, and
   * then the lightest of the others, at `j` of what is left, leave the queue and come back as
   * the left and right children of a new internal node weighing their sum, pushed at the back.
   * Nothing else enters or leaves, so the queue keeps what it stands for.
   */
  method MergeLightest(q: seq<Tree>) returns (i: nat, j: nat, q': seq<Tree>)
    requires |q| > 1
    requires QueueWeightsAdd(q)
    ensures i < |q| && j < |q| - 1
    ensures forall k :: 0 <= k < |q| ==> q[i].weight <= q[k].weight
    ensures forall k :: 0 <= k < |q| - 1 ==> Without(q, i)[j].weight <= Without(q, i)[k].weight
    ensures q' == Merged(q, i, j)
    ensures QueueWeightsAdd(q')
    ensures QueueSum(Mass, q') == QueueSum(Mass, q)
    ensures QueueSum(LeafChars, q') == QueueSum(LeafChars, q)
  {
    var left, rest, right, rest';
    i, left, rest := PopMin(q);
    j, right, rest' := PopMin(rest);
    q' := rest' + [Internal(left.weight + right.weight, left, right)];
    assert q' == Merged(q, i, j);
    MergeKeepsWeightsAdding(q, i, j);
    MergeKeepsSum(Mass, q, i, j);
    MergeKeepsSum(LeafChars, q, i, j);
  }

  /**
   * The queue after a merge round: the tree at `i` and then the tree at `j` of what is left
   * are taken out, and a new internal node with them as left and right children, weighing
   * their sum, is queued at the back.
   */
  function Merged(q: seq<Tree>, i: nat, j: nat): seq<Tree>
    requires i < |q| && j < |q| - 1
  {
    Without(Without(q, i), j) + [MergedNode(q, i, j)]
  }

  /** The node a merge round builds from the tree at `i` and the tree at `j` of what is left. */
  function MergedNode(q: seq<Tree>, i: nat, j: nat): Tree
    requires i < |q| && j < |q| - 1
  {
    Internal(q[i].weight + Without(q, i)[j].weight, q[i], Without(q, i)[j])
  }

  /** A merge round keeps every queued tree's weights adding up, and breaks it nowhere. */
  lemma MergeKeepsWeightsAdding(q: seq<Tree>, i: nat, j: nat)
    requires i < |q| && j < |q| - 1
    ensures QueueWeightsAdd(Merged(q, i, j)) == QueueWeightsAdd(q)
  {
    var rest := Without(q, i);
    var node := MergedNode(q, i, j);
    WeightsAddRemoveAt(q, i);
    WeightsAddRemoveAt(rest, j);
    WeightsAddConcat(Without(rest, j), [node]);
    assert [node][1..] == [];
    AndShift(QueueWeightsAdd(q), WeightsAdd(q[i]), QueueWeightsAdd(rest), WeightsAdd(rest[j]),
             QueueWeightsAdd(Without(rest, j)), WeightsAdd(node), QueueWeightsAdd(Merged(q, i, j)));
  }

  /** The boolean bookkeeping of a merge round. */
  lemma AndShift(total: bool, a: bool, rest: bool, b: bool, rest': bool, node: bool, total': bool)
    requires total == (a && rest) && rest == (b && rest') && node == (a && b) && total' == (rest' && node)
    ensures total' == total
  {
  }

  /**
   * A merge round keeps a sum that is additive over internal nodes: what the two popped trees
   * contributed, the new node contributes.
   */
  lemma MergeKeepsSum(f: Tree -> multiset<char>, q: seq<Tree>, i: nat, j: nat)
    requires i < |q| && j < |q| - 1
    requires forall w, l, r :: f(Internal(w, l, r)) == f(l) + f(r)
    ensures QueueSum(f, Merged(q, i, j)) == QueueSum(f, q)
  {
    var rest := Without(q, i);
    var node := MergedNode(q, i, j);
    SumRemoveAt(f, q, i);
    SumRemoveAt(f, rest, j);
    SumConcat(f, Without(rest, j), [node]);
    assert [node][1..] == [];
    SumShift(QueueSum(f, q), f(q[i]), QueueSum(f, rest), f(rest[j]),
             QueueSum(f, Without(rest, j)), f(node), QueueSum(f, Merged(q, i, j)));
  }

  /** The multiset bookkeeping of a merge round. */
  lemma SumShift(total: multiset<char>, a: multiset<char>, rest: multiset<char>, b: multiset<char>,
                 rest': multiset<char>, node: multiset<char>, total': multiset<char>)
    requires total == a + rest && rest == b + rest' && node == a + b && total' == rest' + node
    ensures total' == total
  {
  }

  /** The seeded queue stands for the whole text, with one leaf per distinct character. */
  lemma SeededQueueStandsForText(text: string, freq: map<char, nat>, q: seq<Tree>)
    requires freq.Keys == set c | c in text
    requires forall c :: c in freq ==> freq[c] == multiset(text)[c]
    requires QueueWeightsAdd(q)
    requires forall c :: QueueSum(Mass, q)[c] == if c in freq then freq[c] else 0
    requires forall c :: QueueSum(LeafChars, q)[c] == if c in freq then 1 else 0
    ensures QueueSum(Mass, q) == multiset(text)
    ensures forall c :: QueueSum(LeafChars, q)[c] == if c in text then 1 else 0
    ensures TotalWeight(q) == |text|
    ensures text != [] ==> q != []
  {
    forall c ensures QueueSum(Mass, q)[c] == multiset(text)[c] {
      if c !in freq {
        assert c !in text;
      }
    }
    if text != [] {
      assert QueueSum(LeafChars, q)[text[0]] == 1;
    }
    TotalWeightIsMassSize(q);
  }

  /** The one tree left in the queue stands for the whole text, with one leaf per character. */
  lemma LastTreeIsRoot(q: seq<Tree>, text: string)
    requires |q| == 1 && QueueWeightsAdd(q) && QueueSum(Mass, q) == multiset(text)
    requires forall c :: QueueSum(LeafChars, q)[c] == if c in text then 1 else 0
    ensures text != []
    ensures WeightsAdd(q[0]) && Mass(q[0]) == multiset(text) && q[0].weight == |text|
    ensures forall c :: LeafChars(q[0])[c] == if c in text then 1 else 0
  {
    assert q[1..] == [];
    assert QueueSum(LeafChars, q) == LeafChars(q[0]) + multiset{};
    HasLeaf(q[0]);
    var c :| c in LeafChars(q[0]);
    assert QueueSum(LeafChars, q)[c] >= 1;
    WeightIsMassSize(q[0]);
  }

  /**
   * Builds the tree of `text` (huffman_tree.cpp:25-76). The source calls `top()` on an empty
   * queue when `text` is empty, which is undefined; the model gives no root there, as `decode`
   * expects.
   */
  method BuildTree(text: string) returns (root: Option<Tree>)
    ensures root.Some? <==> text != []
    ensures root.Some? ==> WeightsAdd(root.value)
    ensures root.Some? ==> root.value.weight == |text|
    ensures root.Some? ==> Mass(root.value) == multiset(text)
    ensures root.Some? ==> forall c :: LeafChars(root.value)[c] == if c in text then 1 else 0
  {
    var freq := CountFrequencies(text);
    var q := SeedQueue(freq);
    SeededQueueStandsForText(text, freq, q);
    ghost var alphabet := QueueSum(LeafChars, q);

    while |q| > 1
      invariant text != [] ==> q != []
      invariant QueueWeightsAdd(q)
      invariant QueueSum(Mass, q) == multiset(text)
      invariant QueueSum(LeafChars, q) == alphabet
      invariant TotalWeight(q) == |text|
      decreases |q|
    {
      var _, _, merged := MergeLightest(q);
      q := merged;
      TotalWeightIsMassSize(q);
    }

    if q == [] {
      root := None;
    } else {
      LastTreeIsRoot(q, text);
      root := Some(q[0]);
    }
  }
}
