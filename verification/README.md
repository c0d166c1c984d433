# Huffman codec model

A Dafny model of `huffman_tree`, a small Huffman codec over characters. The model covers:

- the constructor: it counts character frequencies, seeds a min-weight priority queue with one leaf per distinct character, and merges the two lightest trees until one root remains;
- `get_character_code`: a depth-first search with an explicit stack, then a walk back to the root through a parent map;
- `encode`, which is all or nothing;
- `decode`, which walks the tree symbol by symbol and resets to the root at every leaf.

Modules:

- `Nodes`: the `Node` struct as an immutable `Tree` value. A leaf holds a character and its frequency; an internal node holds its weight and both children. The module also defines:
  - addresses, which are root-first strings of '0'/'1' edges;
  - the weight, leaf-character and "mass" views of a tree. The mass is the multiset of characters the tree stands for.
- `Frequencies`: the frequency-counting loop.
- `Construction`:
  - The queue is a `seq<Tree>`, and `PopMin` (`top()` then `pop()`) takes out a tree of minimum weight.
  - Each merge keeps the queue's mass and its leaf characters, and every tree in the queue keeps the property that its weights add up; the queue's total weight, the size of its mass, therefore stays the input length.
  - `BuildTree` returns `None` when there is no root.
- `CodeLookup`:
  - The reference definition `CodeFor` is the root special case, then the leftmost leaf address.
  - The stack-driven method `CharacterCode` is proved equal to `CodeFor`.
  - The lemmas state that the code leads to the leaf, that a missing character gets the empty answer, and that codes are prefix-free.
- `Codec`:
  - `Encode` and `Decode` are methods proved equal to the functions `Encoding` and `Decoding`.
  - `Decoding` is the decoder's state machine: current node plus remaining symbols.
  - The round trip is proved over these functions.

Where the code and its prose description differ, the model follows the code:

- The root special case compares the queried character with the root's `character` field for every tree, not only for a single-leaf tree. Internal nodes store '\0', so in a tree of more than one leaf '\0' gets the code "0" (huffman_tree.cpp:67, 98-101). The round-trip lemmas therefore exclude '\0' from the text in that case.
- `decode` stops at the first '\0' of its input. That is also how it finds the end of the string (huffman_tree.cpp:190). `Decoding` models this directly, and `DecodingStopsAtNul` states it.
- The comment on `decode` (huffman_tree.cpp:174-176) promises an empty string for an invalid encoding. The code instead skips a symbol that leads nowhere and drops an incomplete code at the end, keeping what it decoded so far (huffman_tree.cpp:190-209). `Decoding` follows the code; `PartialPathEmitsNothing` and `TrailingPartialCodeDropped` state the two cases.
- With empty input the constructor calls `top()` on an empty queue (huffman_tree.cpp:75). The model gives no root there (`None`), which is the case `decode` checks for at huffman_tree.cpp:186-188.

## Model

| member | source | states |
|---|---|---|
| Nodes.Child | huffman_tree.cpp:191-198 | a symbol leads somewhere exactly when the node is internal and the symbol is '0' (left) or '1' (right) |
| Nodes.HasLeaf | huffman_tree.h:7-12 | every tree has at least one leaf |
| Nodes.InternalHasTwoLeaves | huffman_tree.cpp:63-71 | a node built by a merge has at least two leaves below it |
| Nodes.WeightIsMassSize | huffman_tree.cpp:63-71 | where every internal weight is the sum of its children's, a node's weight is the number of characters it stands for |
| Nodes.AtExtend | huffman_tree.cpp:114-121 | the node at address `a + [x]` is child `x` of the node at `a`, which is the parent relation the `parent` map records |
| Nodes.AtLeafIsLeafChar | huffman_tree.cpp:109-111 | a leaf reached by any address holds one of the tree's leaf characters |
| Nodes.LeafAddressesPrefixFree | huffman_tree.cpp:109-128 | no leaf address is a proper prefix of the address of another node |
| Nodes.LeafAddressUnique | huffman_tree.cpp:109-128 | a character held by exactly one leaf has exactly one leaf address |
| Frequencies.CountFrequencies | huffman_tree.cpp:29-34 | the table has a key for exactly the characters of the input, each mapped to its number of occurrences, hence at least 1 |
| Construction.SumConcat | huffman_tree.cpp:36-51 | the union of a per-tree view (mass or leaf characters) over a concatenation of queues is the union over each part |
| Construction.WeightsAddConcat | huffman_tree.cpp:36-51 | weights add up in every tree of a concatenation exactly when they do in both parts |
| Construction.Enqueue | huffman_tree.cpp:49-50 | pushing a tree adds its mass and leaf characters to the queue's, and the queue's weights add up exactly when they did before and they do in the tree |
| Construction.Without | huffman_tree.cpp:57-60 | what `pop()` leaves: one tree fewer, the trees before the position unchanged and those after it moved one place forward |
| Construction.SumRemoveAt | huffman_tree.cpp:56-60 | taking the tree at any position out of the queue takes exactly its share out of the union of a per-tree view (mass or leaf characters) |
| Construction.WeightsAddRemoveAt | huffman_tree.cpp:56-60 | the queue's weights add up exactly when they do in the removed tree and in the trees left |
| Construction.TotalWeightIsMassSize | huffman_tree.cpp:54-72 | when weights add up in every queued tree, the queue's total weight is the number of characters it stands for |
| Construction.LowerBoundSurvives | huffman_tree.cpp:56-60 | a weight no greater than any queued tree's is no greater than any tree left after a pop |
| Construction.Lightest | huffman_tree.cpp:12-18 | returns the position of a tree whose weight is at most every queued tree's weight |
| Construction.PopMin | huffman_tree.cpp:56-60 | takes out the tree at some position `k`, weighing no more than any queued tree, and leaves exactly the others in their order (`Without(q, k)`), all weighing at least as much |
| Construction.SeedOne | huffman_tree.cpp:40-51 | queueing the leaf of a pending character adds its frequency to the mass and one leaf of it, and keeps the weights adding up |
| Construction.SeedQueue | huffman_tree.cpp:36-51 | every queued tree is a leaf of a table key weighing that key's frequency, and each key has exactly one leaf, so the queue holds one leaf per table key and nothing else |
| Construction.MergeLightest | huffman_tree.cpp:54-72 | one round of the loop. The new queue is `Merged(q, i, j)`: the tree at `i` and then the tree at `j` of the others are taken out, the others stay in order, and an internal node with those two as left and right children, weighing their sum, is pushed at the back. The left child weighs no more than any queued tree, the right child no more than any other. Mass and leaf characters are unchanged and weights still add up, so the total weight is unchanged too (`Construction.TotalWeightIsMassSize`) |
| Construction.MergeKeepsWeightsAdding | huffman_tree.cpp:56-71 | after a merge round at any two positions, every queued tree's weights add up exactly when they did before |
| Construction.MergeKeepsSum | huffman_tree.cpp:56-71 | a merge round at any two positions keeps the queue's mass and its leaf characters, since the new node stands for what its two children stood for |
| Construction.SeededQueueStandsForText | huffman_tree.cpp:29-51 | the seeded queue stands for the whole input: its mass is the input's multiset, one leaf per distinct character, total weight the input length, non-empty for non-empty input |
| Construction.LastTreeIsRoot | huffman_tree.cpp:54-75 | when one tree is left, it stands for the whole input, its weight is the input length and its leaves are the distinct input characters once each |
| Construction.BuildTree | huffman_tree.cpp:25-76 | there is a root exactly when the input is non-empty. Internal weights are the sums of their children's, and the root weighs the input length. The tree's mass is the input's multiset, and each character of the input labels exactly one leaf while no other character labels any |
| CodeLookup.FindPathCorrect | huffman_tree.cpp:104-140 | the search succeeds exactly for the leaf characters; its address leads to a leaf holding the character and is non-empty below an internal root |
| CodeLookup.CodeForEmptyIffAbsent | huffman_tree.cpp:98-101 | the answer is "" exactly when the character is neither a leaf character nor the root's `character` field |
| CodeLookup.CodeForPresent | huffman_tree.cpp:109-128 | for a leaf character other than '\0' of a tree with more than one leaf, the code is non-empty and following it from the root reaches a leaf holding the character |
| CodeLookup.CodeIsTheLeafAddress | huffman_tree.cpp:113-126 | when the character labels one leaf, its code is that leaf's root-to-leaf path ('0' left, '1' right) |
| CodeLookup.CodesPrefixFree | huffman_tree.cpp:109-128 | the codes of two different leaf characters (not '\0') are never prefixes of one another |
| CodeLookup.FindBelowInternal | huffman_tree.cpp:132-139 | searching below an internal node is searching the left child first, then the right, as the push order makes the stack do |
| CodeLookup.CharacterCode | huffman_tree.cpp:88-142 | the stack-driven search with its walk back and reversal returns exactly `CodeFor`: "0" for the root's `character`, else the leftmost leaf path, else "" |
| Codec.EncodingAppend | huffman_tree.cpp:161-168 | appending a character to the text appends its code to the encoding |
| Codec.EncodingEmptyIff | huffman_tree.cpp:164-166 | an encodable text has an empty encoding exactly when it is empty, so the failure answer "" is told apart from success on non-empty text |
| Codec.LeafTextEncodable | huffman_tree.cpp:160-169 | a text made of leaf characters is encodable |
| Codec.UnknownCharacterFails | huffman_tree.cpp:164-166 | a character that is neither a leaf nor the root's `character` makes the whole text unencodable |
| Codec.Encode | huffman_tree.cpp:151-171 | "" when the input cannot be read. Otherwise, the codes of all characters in input order when every character has one, and "" as soon as one has none |
| Codec.Decode | huffman_tree.cpp:178-210 | "" without a root. Otherwise it returns `Decoding`: invalid symbols are skipped, each leaf emits its character and resets to the root, and the input ends at its end or its first '\0' |
| Codec.FollowPath | huffman_tree.cpp:190-206 | following a leaf's path from an internal node emits that leaf's character and returns to the root |
| Codec.DecodeOneCode | huffman_tree.cpp:190-206 | decoding one character's code emits that character and nothing else |
| Codec.EncodableSplit | huffman_tree.cpp:160-168 | an encodable text's first character has a code and the rest is encodable |
| Codec.DecodeEncoding | huffman_tree.cpp:151-210 | decoding the encoding of a text followed by any symbols gives the text followed by the decoding of those symbols |
| Codec.RoundTrip | huffman_tree.cpp:151-210 | whenever encoding succeeds on a text (without '\0' in a tree of more than one leaf), decoding gives the text back |
| Codec.RoundTripOverAlphabet | huffman_tree.cpp:151-210 | a text over the tree's leaf characters is encodable and round-trips |
| Codec.PartialPathEmitsNothing | huffman_tree.cpp:190-206 | symbols that lead from an internal node only to internal nodes emit nothing |
| Codec.TrailingPartialCodeDropped | huffman_tree.cpp:190-209 | an incomplete code after the last complete one is dropped without emitting a character |
| Codec.SingleLeafDecoding | huffman_tree.cpp:191-206 | in a single-leaf tree every symbol before the first '\0' emits the leaf's character |
| Codec.SingleLeafEncoding | huffman_tree.cpp:98-101 | in a single-leaf tree exactly the texts of the leaf's character are encodable, as one "0" per character |
| Codec.DecodingStopsAtNul | huffman_tree.cpp:190 | nothing after the first '\0' of the input is read |
| Codec.SingleSymbolText | huffman_tree.cpp:25-210 | for an input of one repeated character, the built tree is a single leaf; the input encodes to one "0" per character and decodes back |

## Left out

- File input: the files read by the constructor and by `encode` are replaced by the sequence of characters they yield. The open failure in `encode` (huffman_tree.cpp:155-158) is the `readable` parameter. An unreadable file in the constructor is the same as empty input.
- The `std::priority_queue` heap: the queue is a sequence and `top()` is a linear scan for a tree of minimum weight. The comparator orders by weight only (huffman_tree.cpp:12-18), so ties and the seeding order are left unspecified. No property depends on the tree's exact shape.
- The ordering of `std::map` during seeding: leaves are queued in an arbitrary order, since the queue's order carries no meaning.
- `new`, the pointers and the empty destructor, which leaks the tree: the tree is a value.
- Object identity in the `parent` map: a node is identified by its address from the root, which the map's chain of parents spells out.
- `int` frequencies: they are `nat`, so overflow on inputs of more than 2^31-1 characters is not modelled.
- The signed `char` range: characters are Dafny `char`, with no restriction to 0..127, since nothing in the codec depends on it.
- `get_character_code` dereferences the root without a null check (huffman_tree.cpp:98). `CharacterCode` takes a `Tree`, and `Encode` requires a root for non-empty readable input.
- Construction.BuildTree: states the weight, mass and leaf invariants of the result, not that the code is optimal or any bound on the encoded length; each merge is proved to take the two lightest trees (`Construction.MergeLightest`), but no global minimum-length property is proved.
