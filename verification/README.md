# Huffman code construction — a Dafny model

This project models the core of a small Python script, `project.py`, that
reads a story, counts its characters and derives a Huffman code for them.
The model covers the pure part of that pipeline:

- **normalisation** — each character is lower-cased and kept only when it is
  a lower-case ASCII letter, a digit, a space or a full stop;
- **counting** — a `Counter` over the normalised text, in first-occurrence
  order, whose space key is then relabelled `"Space"`;
- **tree building** — `build_huffman_tree` seeds a priority queue with one
  leaf per key and merges the two lightest nodes until one root is left;
- **codeword derivation** — `generate_huffman_codes` walks the tree,
  appending `0` for a left and `1` for a right branch, and stores each leaf's
  path as its codeword;
- **the bit total** `Nhuffman` — the sum over the keys of count × codeword
  length.

Everything is an immutable datatype with pure functions: a `Tree` is
`Leaf(sym, weight) | Node(weight, left, right)`, a frequency table is a
sequence of `Entry(sym, count)` in dictionary order, and the priority queue
is a sequence of `Item(tree, seqNo)`.

Modelling decisions:

- **Tie-breaking.** `HuffmanNode.__lt__` compares frequencies only, so the
  order among equal weights is up to `heapq`. The model fixes one total
  order: weight first, then a sequence number (leaves numbered in table
  order, merged nodes after them in creation order). The first node popped
  becomes the left child, as in the source. The proofs of the weights, the
  leaves, prefix-freeness and the bounds on `Nhuffman` use only that the two
  items popped come before every item left, not how equal weights are
  ordered. The monotonicity proof also uses that a newly merged node comes
  after every older item of the same weight. The sample scenario's codeword
  lengths and bits are proved only for the tree this order builds.
- **Single key.** With one key the root is a leaf and its codeword is the
  empty string; `generate_huffman_codes` then returns `None` instead of the
  dictionary (see Findings). Many Huffman coders give a lone symbol the
  codeword `"0"`; this code gives it `""`, and the model follows the code.
  Past that point the model carries the corrected code book, the dictionary
  the walk fills, rather than `None`.
- **Empty text.** With nothing left after normalisation the queue is empty
  and `priority_queue[0]` raises; the model returns `Failure(EmptyQueue)`.
- **Shared accumulator.** The mutable default `codes={}` is shared between
  calls. The walk takes the accumulator as a parameter; `CodeBook` starts it
  empty, and `WalkKeepsAccumulator` shows what a non-empty one does: earlier
  entries survive.
- **Lower-casing.** Python's `str.lower` is modelled only as far as the
  filter can tell: `A`–`Z` and the Kelvin sign (U+212A, which lowers to `k`)
  are lowered; no other character lowers into the allowed set, so leaving
  them unchanged gives the same verdict.
- **What `Nhuffman` counts.** The source computes the sum only; the model
  also shows (`EncodedText.AnalysisBits`) that it is the length of the
  normalised text encoded symbol by symbol, a space written as "Space".
- **No decoder in the source.** `Encode`, `ReadSymbol`, `Decode` and the
  round-trip lemma are additions of the model, to show what the prefix-free
  property buys: the source never encodes or decodes anything.

## Model

| member | source | states |
|---|---|---|
| Normalization.Normalize | project.py:63-64 | the normalised text holds only allowed characters and is no longer than the input |
| Normalization.NormalizeOne | project.py:63-64 | a single character survives exactly when it is allowed, an upper-case ASCII letter or the Kelvin sign, and comes out lowered |
| Normalization.NormalizeConcat | project.py:64 | normalisation works character by character: it distributes over concatenation, so with `NormalizeOne` it keeps the lowered survivors in their input order |
| Normalization.NormalizeFixesAllowed | project.py:63-64 | text made only of allowed characters is unchanged |
| Normalization.NormalizeIdempotent | project.py:63-64 | normalising twice is normalising once |
| Frequencies.Tally | project.py:67 | the counter has one distinct one-character key per character of the text, holding its number of occurrences (so positive), no other key, and the counts sum to the text length |
| Frequencies.Bump | project.py:67 | counting one more character adds 1 to its key (adding the key at the end when new), leaves every other key alone, and raises the total by 1 |
| Frequencies.Remove | project.py:71 | `pop` drops the key's first entry, leaves other keys' counts alone and lowers the total by the popped count |
| Frequencies.Put | project.py:71 | assigning a key stores the value under it, leaves other keys alone, appends a new key at the end and changes the total by the difference |
| Frequencies.Relabel | project.py:70-71 | after relabelling no space key is left, "Space" holds the space count, every other key keeps its count, keys stay distinct, and the total is unchanged |
| Frequencies.RemoveDropsKey | project.py:71 | after `pop(k)` a dictionary with distinct keys no longer holds `k` and its keys stay distinct |
| HuffmanTree.LeafCount | project.py:25-33 | every internal node has two children, so a tree with n leaves has n - 1 internal nodes |
| HuffmanTree.WeightIsLeafTotal | project.py:31 | a tree whose internal weights are sums weighs the total count of its leaves |
| HuffmanTree.MinIndex | project.py:16-17 | the item `heappop` returns precedes every item of the queue in the (weight, sequence number) order |
| HuffmanTree.PopOrder | project.py:26-28 | everything left after two pops comes after both popped items, and the first precedes the second |
| HuffmanTree.PopTwo | project.py:26-28 | greedy choice: the two items popped precede, and weigh no more than, every item left; the queue loses exactly those two |
| HuffmanTree.Merge | project.py:25-36 | one iteration shrinks the queue by exactly one |
| HuffmanTree.MergeStep | project.py:30-36 | one iteration keeps the queue's total weight and its leaves, keeps internal weights equal to child sums, and adds exactly one internal node |
| HuffmanTree.BuildFrom | project.py:25-39 | the loop ends with a tree weighing the queue's total, whose leaves are the queue's leaves, with one more internal node per iteration, and with internal weights equal to child sums |
| HuffmanTree.Build | project.py:19-39 | an empty table fails; otherwise the root weighs the table total, its leaves are exactly the table's entries, internal weights are child sums, and n - 1 merges built it |
| HuffmanTree.SeedFacts | project.py:21-22 | the seeded queue holds one leaf per entry, in table order, with the table's total weight and no internal node |
| HuffmanTree.BuildKeepsKeysDistinct | project.py:21 | distinct table keys label distinct leaves, so each key appears at exactly one leaf |
| HuffmanTree.Seed | project.py:21-22 | the queue is seeded with one leaf per table entry, carrying its key and count, numbered in table order; its leaves are the table in order, with the table's total weight and no internal node |
| HuffmanCodes.Walk | project.py:45-52 | the walk adds exactly the tree's keys to the dictionary and leaves every other entry as it was |
| HuffmanCodes.GenerateCodes | project.py:41-54 | the shared dictionary ends up as the old one overlaid with every leaf's path, a leaf root included; the call returns None exactly when the root is a leaf and otherwise that dictionary; on a first call with distinct keys it holds exactly the leaf keys, each under the path leading to its leaf, and is prefix-free |
| HuffmanCodes.CodeBook | project.py:83 | the dictionary the walk fills from empty, for any root including a lone leaf, holds exactly the tree's keys |
| HuffmanCodes.FreshCodes | project.py:41-54 | with distinct keys, the code book holds exactly the leaf keys, each codeword leads to its key's leaf, and it is prefix-free |
| HuffmanCodes.WalkSound | project.py:45-52 | every codeword stored is the walk's path followed by the path leading from the subtree's root to that key's leaf |
| HuffmanCodes.WalkComplete | project.py:45-52 | every path leading to a leaf is stored, after the walk's path, under that leaf's key |
| HuffmanCodes.CodeBookIsPaths | project.py:41-54 | the code book holds exactly the leaf keys; each codeword leads from the root to its key's leaf, and every path to a leaf is that leaf's codeword, so its length is the leaf's depth |
| HuffmanCodes.CodeBookShape | project.py:41-54 | codewords are strings of 0 and 1, at most n - 1 long, non-empty when the root is internal, and no codeword is a prefix of another |
| HuffmanCodes.FollowStopsAtLeaf | project.py:46-48 | a path that reaches a leaf cannot be extended to reach another |
| HuffmanCodes.WalkKeepsAccumulator | project.py:41 | with the shared default dictionary, a walk adds its entries on top of whatever earlier calls left there |
| BitCount.Nhuffman | project.py:135 | every key's count × codeword length is part of the total, and the total is 0 exactly when no counted key has a non-empty codeword |
| BitCount.WalkBits | project.py:135 | charged with the walk's codewords, the leaves cost their weight times their depth |
| BitCount.DepthIsMergeCost | project.py:31-33 | the weighted depth of the leaves equals the sum of the internal weights |
| BitCount.MergeCostBounds | project.py:31-33 | the internal weights sum to at least the root weight (if the root is internal) and at most n - 1 times it |
| BitCount.HuffmanBits | project.py:135 | for the code built from a table with distinct keys, `Nhuffman` equals the sum of the weights the merges produced |
| BitCount.HuffmanBitsBounds | project.py:135 | that `Nhuffman` lies between the total and (n - 1) × total for n >= 2 keys, and is 0 for one key |
| Monotonicity.SeedOrdered | project.py:21-22 | the seeded queue of leaves meets the ordering invariant: distinct items numbered below n, depth- and level-ordered by weight, merged nodes bounded |
| Monotonicity.MergeKeepsOrder | project.py:25-36 | one iteration keeps that invariant: the new node, no heavier than any two items left, fits it against itself and every item that stays queued |
| Monotonicity.BuildOrdered | project.py:25-39 | the loop ends with a root in which every node weighs at least as much as every deeper node |
| Monotonicity.Monotone | project.py:19-54 | of two counted keys, the one with the strictly lower count never gets a strictly shorter codeword than the other |
| Decoding.Encode | project.py:41-54 | (model-side) encoding succeeds exactly when every symbol has a codeword, and otherwise names a missing one |
| Decoding.ReadAfterPath | project.py:45-52 | (model-side) reading a codeword off the front of a bit string returns its key and the rest |
| Decoding.RoundTrip | project.py:41-54 | (model-side) decoding the encoding of any message over the tree's keys gives the message back |
| TextAnalysis.Analyze | project.py:62-83 | empty normalised text fails; otherwise the counts are those of the normalised text with the space relabelled, the total is the normalised length, the tree is the one the merge loop builds from those counts, the code book holds exactly the counted keys, each under the path to its own leaf of that tree, it is prefix-free, a strictly lower count never gets a strictly shorter codeword, `Nhuffman` is the merge cost and, for n >= 2 keys, between one and n - 1 bits per character |
| TextAnalysis.CodeTable | project.py:80-83 | no counts fail; otherwise the analysis carries the counts and their total, the tree built from them at line 80, a code book holding exactly the counted keys, each under the path to its own leaf, prefix-free and monotone in the counts, and an `Nhuffman` equal to the merge cost and within the bounds |
| TextAnalysis.SourceCodes | project.py:80-83 | for two or more keys the dictionary `generate_huffman_codes` returns on a first call is exactly the analysis's code book; it returns None exactly when there is one key |
| TextAnalysis.LeafRootIffOneKey | project.py:25-39 | the loop leaves a lone leaf as root exactly when the table has one key |
| TextAnalysis.CodedTable | project.py:80-83 | the code book of the tree built from a table with distinct keys holds exactly its keys, each under the path that leads to its leaf, is prefix-free, gives a strictly lower count a codeword at least as long, and costs the merge cost |
| TextAnalysis.CodedAnalysis | project.py:80-83 | the analysis made of a table, the tree built from it and that tree's code book has every property `CodeTable` promises for a successful result |
| TextAnalysis.CountedTablesEmpty | project.py:67-74 | the relabelled counts are empty exactly when the text is |
| TextAnalysis.CountedTablesTotal | project.py:67-74 | the relabelled counts add up to the length of the text: relabelling the space loses no count |
| EncodedText.EncodeLength | project.py:135 | a message whose keys all have codewords encodes, into as many bits as its codeword lengths add up to |
| EncodedText.BumpBits | project.py:67 | one more occurrence of a character adds its codeword's length to the counter's bit cost |
| EncodedText.TallyBits | project.py:67 | the counter's bit cost is the sum of the codeword lengths of the text's symbols |
| EncodedText.RelabelBits | project.py:70-71 | relabelling the space moves its cost to "Space" and leaves the bit cost unchanged |
| EncodedText.EncodedLength | project.py:67-74 | with a codeword for each symbol, `Nhuffman` of the relabelled counts is exactly the length of the encoded text |
| EncodedText.AnalysisBits | project.py:62-83 | when some character survives normalisation the analysis succeeds, every symbol of the normalised text has a codeword, and `Nhuffman` is the length of that text encoded with the code book |
| Scenarios.SampleTree | project.py:19-39 | the table {a:5, b:2, c:1, d:1} builds the tree ((b, (c, d)), a) |
| Scenarios.SampleCode | project.py:41-54 | for that tree the codeword lengths are a:1, b:2, c:3, d:3 and `Nhuffman` is 15 |
| Scenarios.LoneKeyGetsNoDictionary | project.py:46-48 | as written, a single-key table builds a lone leaf and `generate_huffman_codes` returns None for it |
| Scenarios.LoneKeyCodeBook | project.py:41-54 | the corrected code book of a lone leaf maps its key to the empty codeword, costing 0 bits |

## Left out

- File reading, the `FileNotFoundError` handling and all printing (project.py:56-60, 101-103, 109-119, 122-180): input/output.
- The pandas table, its sorting and the CSV export (project.py:85-97, 131): presentation through a foreign library.
- `calculate_ascii_bits` (project.py:106-119): it measures the raw file through I/O; the multiplication by 8 is not modelled.
- Probabilities, the hard-coded probability and code-length tables, entropy, average length and compression percentage (project.py:77, 150-178): floating-point reporting over illustrative constants.
- The heap layout of `heapq`: replaced by extraction of the minimum under the fixed (weight, sequence number) order.
- The `root is None` branch of `generate_huffman_codes` (project.py:42-43): unreachable, since every internal node is built with two children.
- Optimality of the code (no prefix code has a smaller `Nhuffman`) and the entropy bounds: not stated, because optimality needs the exchange argument over all prefix codes. The bounds total ≤ `Nhuffman` ≤ (n - 1) × total and monotonicity in the counts are proved.
- TextAnalysis.Analyze: for text with one distinct character it uses the corrected code book of the Findings row, mapping the lone key to `""`. The source gets `None` from line 83 there and raises at line 90. `TextAnalysis.SourceCodes` shows the two agree for two or more keys.
- TextAnalysis.CodeTable: for a lone key it uses the corrected code book of the Findings row, where the source gets `None` at line 83.
- EncodedText.AnalysisBits: "the analysis succeeds" includes one-character text, because it rests on the corrected code book of the Findings row. The source raises at line 90 there.
- BitCount.HuffmanBitsBounds: its "0 bits for one key" clause is about the corrected code book of the Findings row. As written, the source has no dictionary there, and line 135 would fail on `None`.

## Findings

| source | as written | input that shows it | evidently intended | confidence | as-written member | corrected member |
|---|---|---|---|---|---|---|
| project.py:46-48 | `generate_huffman_codes` returns `None` when the root itself is a leaf, so `analyze_text` calls `.get` on `None` (line 90) | a text with one distinct character after normalisation, e.g. "aaa" | return the dictionary, here {"a": ""} | high; not executed | Scenarios.LoneKeyGetsNoDictionary | Scenarios.LoneKeyCodeBook |
