# Huffman coding and Dijkstra's cheapest path, modelled in Dafny

This project models two parts of a set of Java programming assignments.

**Huffman coding** (`HuffmanCoding.java`):
- count the ASCII characters of a text into a frequency list sorted by weight (`makeSortedList`);
- build a Huffman tree from it with the two-queue method (`makeTree`);
- derive the bit-string code of every character (`traverseTree`, `makeEncodings`);
- encode a text as the concatenation of those codes (`encode`);
- pack a string of '0' and '1' into bytes behind a padding prefix (`writeBitString`);
- read bytes back into a bit string with the padding stripped (`readBitString`);
- decode a bit string by walking the tree (`decode`).

**Locating Titan** (`LocateTitan.java`): Dijkstra's algorithm on an adjacency matrix of ints.
- `getMinCostNode` picks the next vertex.
- `dijkstra` computes the cheapest cost from Earth (vertex 0) to every generator.

The modules:
- `Wrappers` (wrappers.dfy): `Option`.
- `BitString` (bitstring.dfy): Java bytes (`JByte`, -128..127, with the `(byte)` cast and `& 0xFF` written out), `writeBitString` as a loop over a byte array and `readBitString` as a loop over the bytes read, their specifications `Packed` and `Unpacked`, and the round trip.
- `HuffmanTree` (huffman_tree.dfy): `CharFreq` and the tree as values, with tree traversal, prefix-freeness and the decoding walk.
- `Frequency` (frequency.dfy): the specification of the sorted frequency list.
- `Huffman` (huffman_coding.dfy): the class `HuffmanCoding` with the fields `sortedCharFreqList`, `huffmanRoot` and `encodings`.
  - Its methods update these fields in the order the driver calls them.
  - `MakeSortedList` and `MakeTree` delegate their loops to module-level methods that do not touch the object's fields (`SortedListOf`, `TreeOf` and the methods they call); `MakeEncodings`, `Encode` and `Decode` run their loops themselves.
  - `EncodeThenDecode` proves that decoding what was encoded gives the text back.
- `LocateTitan` (locate_titan.dfy): `GetMinCostNode` and `Dijkstra` over arrays, with 32-bit int addition written out (`Wrap32`).
  - For matrices within the edge limit (see "## Left out"), the model proves that every returned cost is the cost of a cheapest walk.
  - It also proves that the result is missing exactly when some generator cannot be reached. That is the case where the Java code throws on `DijkstraSet[-1]`.

## Model

| member | source | states |
|---|---|---|
| BitString.Padding | HuffmanCoding/HuffmanCoding/src/huffman/HuffmanCoding.java:169 | the padding is 1 to 8 bits and brings the length to the next multiple of 8 (a full byte when the length is already one) |
| BitString.MakePad | HuffmanCoding/HuffmanCoding/src/huffman/HuffmanCoding.java:169-173 | the pad built by the loop is `padding - 1` zeros followed by a one |
| BitString.PackBytes | HuffmanCoding/HuffmanCoding/src/huffman/HuffmanCoding.java:183-191 | every 8 bits become one byte |
| BitString.PackBits | HuffmanCoding/HuffmanCoding/src/huffman/HuffmanCoding.java:177-192 | the packing loop stores one byte per 8 bits, most significant bit first, and stops with nothing written at the first character that is neither '0' nor '1' |
| BitString.Feed | HuffmanCoding/HuffmanCoding/src/huffman/HuffmanCoding.java:183-191 | one bit of the packing loop keeps the packing invariant: the bytes stored so far are the packed whole bytes read, and the current byte holds the bits of the unfinished one |
| BitString.WriteBitString | HuffmanCoding/HuffmanCoding/src/huffman/HuffmanCoding.java:162-192 | the bytes written are the padded string packed; bytes are written exactly when the string holds only '0' and '1'; there are `length/8 + 1` of them |
| BitString.ReadBitString | HuffmanCoding/HuffmanCoding/src/huffman/HuffmanCoding.java:238-268 | the result is every byte as 8 binary digits, with everything up to and including the first '1' of the first byte removed; an empty file gives "" |
| BitString.UnpackPacked | HuffmanCoding/HuffmanCoding/src/huffman/HuffmanCoding.java:166-168 | reading back what `writeBitString` writes for any string of '0' and '1' gives that string |
| HuffmanTree.WeightIsLeafTotal | HuffmanCoding/HuffmanCoding/src/huffman/HuffmanCoding.java:95 | in a tree whose every node weighs the sum of its children, the root weighs the total of its leaves |
| HuffmanTree.TraverseTree | HuffmanCoding/HuffmanCoding/src/huffman/HuffmanCoding.java:115-128 | a code is found exactly for the symbols at the leaves; it is made of '0' and '1', leads from the root to that symbol's leaf, and is non-empty below a node |
| HuffmanTree.CodesArePrefixFree | HuffmanCoding/HuffmanCoding/src/huffman/HuffmanCoding.java:115-128 | no symbol's code is a prefix of another symbol's code |
| HuffmanTree.DecodeAlongPath | HuffmanCoding/HuffmanCoding/src/huffman/HuffmanCoding.java:219-225 | walking the code of a symbol emits that symbol and returns to the root for the rest of the bits |
| Frequency.Partner | HuffmanCoding/HuffmanCoding/src/huffman/HuffmanCoding.java:62-64 | the added symbol is never the only symbol of the text (127 wraps to 0) |
| Frequency.InsertByCount | HuffmanCoding/HuffmanCoding/src/huffman/HuffmanCoding.java:70 | insertion keeps every entry and adds the new one |
| Frequency.InsertSorted | HuffmanCoding/HuffmanCoding/src/huffman/HuffmanCoding.java:70 | inserting into a list sorted by weight keeps it sorted |
| Frequency.SortByCount | HuffmanCoding/HuffmanCoding/src/huffman/HuffmanCoding.java:70 | sorting is a permutation of the list |
| Frequency.SortSorted | HuffmanCoding/HuffmanCoding/src/huffman/HuffmanCoding.java:70 | the sorted list is in non-decreasing order of weight |
| Frequency.KeepPresent | HuffmanCoding/HuffmanCoding/src/huffman/HuffmanCoding.java:73-75 | the removal pass keeps exactly the entries whose symbol is marked present |
| Frequency.KeepAllPresent | HuffmanCoding/HuffmanCoding/src/huffman/HuffmanCoding.java:73-75 | when every symbol in the list is marked present, the removal pass changes nothing |
| Frequency.ObservedEntries | HuffmanCoding/HuffmanCoding/src/huffman/HuffmanCoding.java:51-57 | the first list holds exactly the symbols that occur, each with its number of occurrences, in code-point order |
| Frequency.ObservedSingle | HuffmanCoding/HuffmanCoding/src/huffman/HuffmanCoding.java:59 | `distinctC == 1` exactly when the text has one symbol, and the list is then that symbol with the text's length; the list is non-empty exactly when the text is |
| Frequency.WithPartnerEntries | HuffmanCoding/HuffmanCoding/src/huffman/HuffmanCoding.java:59-67 | after the partner step the list holds each present symbol once with its count (0 for the partner) |
| Frequency.FrequencyListSorted | HuffmanCoding/HuffmanCoding/src/huffman/HuffmanCoding.java:35-76 | the frequency list is sorted by weight |
| Frequency.InsertTies | HuffmanCoding/HuffmanCoding/src/huffman/HuffmanCoding.java:70 | inserting an entry that precedes, in code-point order, every entry of its weight keeps entries of equal weight in code-point order |
| Frequency.SortTies | HuffmanCoding/HuffmanCoding/src/huffman/HuffmanCoding.java:70 | the sort is stable: entries of equal weight that come in code-point order stay in code-point order |
| Frequency.WithPartnerTies | HuffmanCoding/HuffmanCoding/src/huffman/HuffmanCoding.java:51-67 | before sorting, entries of equal weight are in code-point order (the list is built by increasing code point; an added partner weighs 0 and the only symbol at least 1) |
| Frequency.FrequencyListTies | HuffmanCoding/HuffmanCoding/src/huffman/HuffmanCoding.java:51-70 | in the frequency list, entries of equal weight appear in increasing code-point order |
| Frequency.FrequencyListEntries | HuffmanCoding/HuffmanCoding/src/huffman/HuffmanCoding.java:35-76 | the frequency list holds exactly the present symbols, each once, with their counts |
| Frequency.FrequencyListSize | HuffmanCoding/HuffmanCoding/src/huffman/HuffmanCoding.java:59-67 | the list has at least two entries exactly when the text is non-empty |
| Frequency.FrequencyListSingle | HuffmanCoding/HuffmanCoding/src/huffman/HuffmanCoding.java:59-70 | for a text of one symbol the list is the weight-0 partner followed by that symbol |
| Huffman.CodeTable | HuffmanCoding/HuffmanCoding/src/huffman/HuffmanCoding.java:130-134 | the table has 128 slots, and a slot holds a code exactly when its symbol is in the list and in the tree |
| Huffman.CodeString | HuffmanCoding/HuffmanCoding/src/huffman/HuffmanCoding.java:149 | appending a slot gives a bit string exactly when the slot holds a bit code (a missing code appends "null") |
| Huffman.EncodedIsBitString | HuffmanCoding/HuffmanCoding/src/huffman/HuffmanCoding.java:145-150 | the encoded text is a bit string exactly when every character of the text has a bit code |
| Huffman.DecodeEncoded | HuffmanCoding/HuffmanCoding/src/huffman/HuffmanCoding.java:213-228 | decoding the concatenated codes of a text gives the text |
| Huffman.RoundTrip | HuffmanCoding/HuffmanCoding/src/huffman/HuffmanCoding.java:142-152 | with a tree over the frequency list, the encoded text is written, and reading and decoding it gives the text back |
| Huffman.CountSymbols | HuffmanCoding/HuffmanCoding/src/huffman/HuffmanCoding.java:44-49 | the counting loop leaves each symbol's number of occurrences, and marks present the symbols that occur |
| Huffman.ObservedList | HuffmanCoding/HuffmanCoding/src/huffman/HuffmanCoding.java:50-57 | the list loop builds the observed entries in code-point order and counts them |
| Huffman.AddPartner | HuffmanCoding/HuffmanCoding/src/huffman/HuffmanCoding.java:59-67 | a single symbol gets its partner added and marked present; otherwise nothing changes |
| Huffman.RemoveAbsent | HuffmanCoding/HuffmanCoding/src/huffman/HuffmanCoding.java:73-75 | the backward removal loop keeps exactly the entries marked present, in order |
| Huffman.SortedListOf | HuffmanCoding/HuffmanCoding/src/huffman/HuffmanCoding.java:35-76 | the list computed is the frequency list of the text |
| Huffman.Front | HuffmanCoding/HuffmanCoding/src/huffman/HuffmanCoding.java:98-101 | a pick takes a front no heavier than either queue's front, and the source front when the two weigh the same |
| Huffman.PickPool | HuffmanCoding/HuffmanCoding/src/huffman/HuffmanCoding.java:98-101 | a pick loses no leaf: the leaves of the two queues and of the trees taken stay the list's entries, and every tree stays well weighted |
| Huffman.MergePool | HuffmanCoding/HuffmanCoding/src/huffman/HuffmanCoding.java:97-103 | a round (two picks and their parent enqueued on the target queue) keeps every leaf in the queues |
| Huffman.BuildTree | HuffmanCoding/HuffmanCoding/src/huffman/HuffmanCoding.java:97-104 | running the loop to its end on queues holding the list's entries gives a node, every node weighing the sum of its children, whose leaves are exactly those entries |
| Huffman.HuffmanBuildTree | HuffmanCoding/HuffmanCoding/src/huffman/HuffmanCoding.java:84-104 | the tree built by the two-queue method from a list of at least two entries is a well-weighted node whose leaves are exactly the list's entries |
| Huffman.LeafQueue | HuffmanCoding/HuffmanCoding/src/huffman/HuffmanCoding.java:88-90 | the source queue holds one leaf per list entry, in list order: entry `j` of the list is the leaf at position `j` |
| Huffman.Dequeue | HuffmanCoding/HuffmanCoding/src/huffman/HuffmanCoding.java:98-101 | the tree taken is `Front` of the two queues (the source front when it weighs no more than the target front or the target is empty, otherwise the target front), and the queues left are those without it |
| Huffman.MergeRound | HuffmanCoding/HuffmanCoding/src/huffman/HuffmanCoding.java:97-103 | one round takes the two picks `Merge` describes, in order, and enqueues their parent, weighing their sum, at the back of the target queue; the source queue is what the picks left |
| Huffman.TreeOf | HuffmanCoding/HuffmanCoding/src/huffman/HuffmanCoding.java:82-105 | the tree built is the one the two-queue rule `Build` determines from the leaf queue of the list; it is a node, every node weighs the sum of its children, and its leaves are exactly the list's entries |
| Huffman.HuffmanCoding.constructor | HuffmanCoding/HuffmanCoding/src/huffman/HuffmanCoding.java:27-29 | a new object has no list, no tree and no encodings |
| Huffman.HuffmanCoding.MakeSortedList | HuffmanCoding/HuffmanCoding/src/huffman/HuffmanCoding.java:35-76 | `sortedCharFreqList` becomes the frequency list: sorted by weight, entries of equal weight in code-point order, one entry per present symbol with its count; nothing else changes |
| Huffman.HuffmanCoding.MakeTree | HuffmanCoding/HuffmanCoding/src/huffman/HuffmanCoding.java:82-105 | `huffmanRoot` becomes the tree the two-queue rule builds from the list, whose leaves are exactly the list's entries, with every node weighing the sum of its children; nothing else changes |
| Huffman.HuffmanCoding.MakeEncodings | HuffmanCoding/HuffmanCoding/src/huffman/HuffmanCoding.java:130-134 | `encodings` becomes a new array of 128 slots holding each listed symbol's code from the tree and null elsewhere |
| Huffman.HuffmanCoding.Encode | HuffmanCoding/HuffmanCoding/src/huffman/HuffmanCoding.java:142-152 | what is written is the packed concatenation of the codes of the text's characters; an empty text is written without reading `encodings`, which may then be null |
| Huffman.EmptyTextPacked | HuffmanCoding/HuffmanCoding/src/huffman/HuffmanCoding.java:145-151 | an empty text is written as the single byte 1, whatever the code table holds |
| Huffman.HuffmanCoding.Decode | HuffmanCoding/HuffmanCoding/src/huffman/HuffmanCoding.java:213-228 | the decoded text is the tree walk over the bits read back from the bytes |
| Huffman.HuffmanCoding.EncodeThenDecode | HuffmanCoding/HuffmanCoding/src/huffman/HuffmanCoding.java:205-212 | after `makeSortedList`, `makeTree`, `makeEncodings` and `encode` on a non-empty text, `decode` gives the text back |
| LocateTitan.Wrap32 | InfinityWar/InfinityWar/src/avengers/LocateTitan.java:111 | int addition wraps into the 32-bit range and is exact inside it |
| LocateTitan.GetMinCostNode | InfinityWar/InfinityWar/src/avengers/LocateTitan.java:84-94 | -1 exactly when every unvisited vertex costs `Integer.MAX_VALUE` or more; otherwise an unvisited vertex of least finite cost, the lowest-numbered among equals |
| LocateTitan.Relaxed | InfinityWar/InfinityWar/src/avengers/LocateTitan.java:111-114 | relaxing never raises a cost, and leaves it alone when there is no edge or the source vertex is unreached |
| LocateTitan.InitialCosts | InfinityWar/InfinityWar/src/avengers/LocateTitan.java:97-106 | Earth costs 0 and every other vertex `Integer.MAX_VALUE` |
| LocateTitan.Relax | InfinityWar/InfinityWar/src/avengers/LocateTitan.java:110-115 | whenever the self-loop of the picked vertex leaves its cost unchanged, the inner loop leaves every cost relaxed through the picked vertex from its cost before the loop |
| LocateTitan.CostBound | InfinityWar/InfinityWar/src/avengers/LocateTitan.java:111 | on matrices within the edge limit, a walk of at most n edges costs less than `Integer.MAX_VALUE`, so `weight` never wraps |
| LocateTitan.PickIsShortest | InfinityWar/InfinityWar/src/avengers/LocateTitan.java:108 | the vertex picked next already has its cheapest cost |
| LocateTitan.StuckUnreachable | InfinityWar/InfinityWar/src/avengers/LocateTitan.java:108-109 | when `getMinCostNode` returns -1 before every vertex is visited, some vertex cannot be reached from Earth |
| LocateTitan.RelaxKeeps | InfinityWar/InfinityWar/src/avengers/LocateTitan.java:107-116 | each round keeps the loop invariant and visits one more vertex |
| LocateTitan.Round | InfinityWar/InfinityWar/src/avengers/LocateTitan.java:108-115 | a round either finds no vertex, changing nothing, which happens only when some vertex is unreachable; or it visits the vertex `getMinCostNode` picks (previously unvisited, of least finite cost), sets exactly its mark, relaxes every cost through it, and keeps the invariant with one more vertex visited |
| LocateTitan.Dijkstra | InfinityWar/InfinityWar/src/avengers/LocateTitan.java:96-118 | a result exists exactly when every vertex is reachable from Earth, and then each entry is the cost of a cheapest walk to that vertex |

## Left out

- File and console I/O are left out. This covers `StdIn`/`StdOut`, the file name in `HuffmanCoding`, and the error messages printed by `writeBitString` and `readBitString`. Texts and byte arrays are parameters, and `writeBitString`'s "nothing written" is `None`.
- Probabilities are doubles in the source. The model uses the integer count of occurrences instead. The source's probabilities are those counts divided by the text length, so comparisons, sums and order are the same up to floating-point rounding. Floating point is not modelled.
- Characters are code points 0..127 (`Symbol`). A character of 128 or above makes the source index out of its 128-entry arrays; the model does not represent such input.
- The source reads the text character by character. The model takes the text as a sequence, and `makeSortedList` and `encode` receive it as a parameter.
- `Collections.sort` relies on `CharFreq.compareTo`, which is not part of this model. The model assumes it compares probabilities and models it as a stable insertion sort by count.
- `Queue` and `TreeNode` are not part of this model. Queues are sequences (enqueue at the back, dequeue at the front), and a tree is a value whose node stores its weight. An internal node has a `CharFreq` with a null character, represented by the `Node` case.
- Huffman.HuffmanCoding.MakeTree: requires at least two list entries. The source dequeues twice unconditionally and throws on an empty text (an empty list). The model does not describe that failure.
- Huffman.HuffmanCoding.Decode: requires a tree whose root is a node. The source would follow a null child with a single-leaf tree, which `makeSortedList` never produces for a non-empty text.
- Huffman.HuffmanCoding.Encode: requires that `makeEncodings` has run when the text is not empty. The source throws on a null `encodings` for a non-empty text. For an empty text the loop never reads `encodings`, and the single byte 1 is written; the model covers that case.
- Huffman.HuffmanCoding.MakeEncodings: requires a built tree when the list is not empty (`sortedCharFreqList != [] ==> huffmanRoot.Some?`). When `makeTree` has not run, the source calls `traverseTree(null, …)` at HuffmanCoding.java:133 and throws a NullPointerException on `root.getData()` at :116; the model does not describe that failure. When `makeSortedList` has not run either, the null list makes the source throw at the for-each at :133, while the model, which represents that list as the empty list, returns 128 empty slots.
- The tree built by `makeTree` has the minimum weighted code length over all prefix codes for the list (Huffman optimality). The model proves the tree's shape, weights and leaves, not this optimality.
- A `sortedCharFreqList` and `huffmanRoot` that are still null are modelled as the empty list and `None`.
- Integer overflow of the occurrence counters (more than 2^31 - 1 occurrences of one character) is not modelled.
- The loops of `makeSortedList`, `makeTree` and `dijkstra` run in separate module-level methods, one per loop or round. The class methods assign their results to the fields.
- `main` of `LocateTitan` is left out: argument checks, reading the input, scaling every edge by two double functionality values, and printing `minCost[n-1]`. `Dijkstra` takes the already scaled matrix.
- LocateTitan.Relax: requires that relaxing the picked vertex `cs` through its own self-loop leaves its cost unchanged. When a negative or wrapping self-loop lowers `minCost[cs]` partway through the loop at LocateTitan.java:110-115, the source relaxes the vertices after `cs` from the lowered cost; the model does not describe that case. Its only caller, `Round`, runs within the matrices `Dijkstra` admits, where self-loops are non-negative and sums do not wrap.
- LocateTitan.Dijkstra: proves its result only for square matrices whose entries are between 0 and `(Integer.MAX_VALUE - 1) / n`. Within that limit no path sum wraps. With larger entries the source's int sums may wrap, and its costs then need not be cheapest-path costs; larger entries whose sums stay in range are fine in the source but not covered here. Negative entries can make the greedy choice of `getMinCostNode` wrong. The model does not describe the result for such matrices.
- The getters of `HuffmanCoding` are left out: they only return fields.
