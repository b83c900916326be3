# Huffman coder of FusionCompressionHuffman, modelled in Dafny

The Java program merges four HTML files and compresses their common header and their merged body with a Huffman coder. This project models that coder and proves properties of it. The coder has five parts:

- `calculerFrequences` counts how often each character occurs in a text.
- `ArbreBinaire` is the tree node: a leaf holds a letter, an internal node holds two children.
- `genererCodesHuffman` and `reconstruireArbre` build the tree. They seed a `PriorityQueue` ordered by frequency with one leaf per table entry, then merge the two lowest nodes until at most one node is left.
- `construireCodes` derives the code table by a depth-first walk. A left edge adds `'0'` and a right edge adds `'1'`.
- `compresserTexte` encodes by appending codes, and `decomprimerTexte` decodes by walking a cursor through the tree. `compresserEntete` chains count, build, derive and encode.

Modules, one per component:

- `wrappers.dfy` (`Wrappers`): `Option` models a Java reference that may be null. `Result` is either a value or a thrown `NullPointerException`.
- `trees.dfy` (`HuffmanTrees`): the node type as a datatype, with the two constructors and `estFeuille`.
- `frequencies.dfy` (`FrequencyTable`): frequency counting. It also fixes the order in which the table's entries are visited: ascending by character.
- `queue.dfy` (`PriorityQueues`): the priority queue as a class whose field is a sequence. `poll` takes the first element of least frequency.
- `builder.dfy` (`TreeBuilder`): the build loop. It is written once as a method and as the deterministic function that specifies it. Both Java builders run this same computation, so the decoding tree equals the encoding tree.
- `codes.dfy` (`CodeTables`): code-table derivation.
- `codec.dfy` (`HuffmanCodec`): encoding, decoding and `compresserEntete`.
- `corrected.dfy` (`CorrectedCodec`): the behaviour the code evidently intends at the two edge cases listed under Findings.

Each loop of the source is a method with loop invariants. Each is proved equal to a specification function, and the lemmas are stated about those functions. Null dereferences become `NullPointerError` results rather than preconditions.

At three edges the code does not do what a textbook Huffman coder does, and the model follows the code:

- A text with one distinct letter gets the empty code, not a one-bit code.
- The decoder silently drops a trailing partial code. It does not report a malformed bit stream.
- An empty text makes `compresserEntete` throw. It does not report an explicit empty-input error.

## Model

| member | source | states |
|---|---|---|
| FrequencyTable.Frequencies | src/main/java/org/example/FusionCompressionHuffman.java:173-179 | the table has an entry for exactly the characters of the text, each count between 1 and the text's length |
| FrequencyTable.CountFrequencies | src/main/java/org/example/FusionCompressionHuffman.java:173-179 | the counting loop (getOrDefault(c, 0) + 1 per character) builds exactly the frequency table of the text |
| FrequencyTable.FrequenciesCountOccurrences | src/main/java/org/example/FusionCompressionHuffman.java:174-178 | each entry equals the number of positions holding that character (an independent recursive count); absent characters occur nowhere; the empty text gives the empty table |
| FrequencyTable.FrequenciesSnoc | src/main/java/org/example/FusionCompressionHuffman.java:176 | one more character raises its count by one, or inserts it with count 1 |
| FrequencyTable.FrequenciesTotal | src/main/java/org/example/FusionCompressionHuffman.java:175-176 | the counts of the table add up to the length of the text |
| FrequencyTable.SortedKeys | src/main/java/org/example/FusionCompressionHuffman.java:188 | the order in which the builder visits entrySet(): every key exactly once, ascending |
| FrequencyTable.OccurrencesMultiplicity | src/main/java/org/example/FusionCompressionHuffman.java:175-177 | the recursive occurrence count agrees with the text's multiset |
| HuffmanTrees.IsLeafExactlyLeaf | src/main/java/org/example/FusionCompressionHuffman.java:301-303 | estFeuille (both children null) holds exactly for leaves; an internal node has both children |
| HuffmanTrees.MergeProperties | src/main/java/org/example/FusionCompressionHuffman.java:290-295 | the internal-node constructor gives a non-leaf owning both arguments, with frequency the sum of theirs, keeping every internal frequency equal to its children's sum |
| HuffmanTrees.InternalFewerThanLeaves | src/main/java/org/example/FusionCompressionHuffman.java:268-303 | every tree of ArbreBinaire nodes has one internal node fewer than leaves |
| HuffmanTrees.DistinctChildren | src/main/java/org/example/FusionCompressionHuffman.java:290-295 | distinct letters at a node split into two disjoint, distinct subtrees |
| PriorityQueues.MinIndex | src/main/java/org/example/FusionCompressionHuffman.java:187 | the comparator's choice: a position of least frequency, the first such |
| PriorityQueues.Lowest | src/main/java/org/example/FusionCompressionHuffman.java:192 | poll returns a queued node whose frequency is no higher than any queued node's |
| PriorityQueues.Rest | src/main/java/org/example/FusionCompressionHuffman.java:192 | poll leaves one node fewer |
| PriorityQueues.PollRemovesLowest | src/main/java/org/example/FusionCompressionHuffman.java:192-193 | poll removes exactly one copy of its result and every remaining node has a frequency at least as high |
| PriorityQueues.MinQueue.constructor | src/main/java/org/example/FusionCompressionHuffman.java:187 | a new queue is empty |
| PriorityQueues.MinQueue.Add | src/main/java/org/example/FusionCompressionHuffman.java:189 | add appends the node to the queue's contents |
| PriorityQueues.MinQueue.Poll | src/main/java/org/example/FusionCompressionHuffman.java:192-193 | poll returns null on an empty queue, otherwise removes and returns the lowest node |
| TreeBuilder.LeafQueue | src/main/java/org/example/FusionCompressionHuffman.java:189 | one leaf per listed key |
| TreeBuilder.InitialQueue | src/main/java/org/example/FusionCompressionHuffman.java:188-190 | the seeded queue holds one leaf per table entry |
| TreeBuilder.SeedQueue | src/main/java/org/example/FusionCompressionHuffman.java:187-190 | the seeding loop leaves in a fresh queue exactly one leaf per key, with that key's count, in iteration order |
| TreeBuilder.MergeLowest | src/main/java/org/example/FusionCompressionHuffman.java:192-195 | the loop body (poll, poll, add the merge) turns the queue's contents into one merge step of them |
| TreeBuilder.Step | src/main/java/org/example/FusionCompressionHuffman.java:191-196 | one iteration shrinks the queue by one |
| TreeBuilder.StepMergesTwoLowest | src/main/java/org/example/FusionCompressionHuffman.java:191-196 | an iteration removes two nodes no higher than any remaining node, the first no higher than the second, and adds their merge at the back |
| TreeBuilder.PollFreq | src/main/java/org/example/FusionCompressionHuffman.java:192 | poll takes the polled node's frequency out of the queue's total |
| TreeBuilder.PollLetters | src/main/java/org/example/FusionCompressionHuffman.java:192 | poll takes the polled node's letters out of the queue's letters |
| TreeBuilder.StepPreservesTotal | src/main/java/org/example/FusionCompressionHuffman.java:191-196 | an iteration keeps the queue's total frequency |
| TreeBuilder.StepPreservesLetters | src/main/java/org/example/FusionCompressionHuffman.java:191-196 | an iteration keeps the multiset of the queue's letters |
| TreeBuilder.StepPreservesWellFormed | src/main/java/org/example/FusionCompressionHuffman.java:194-195 | an iteration keeps every queued tree's internal frequencies equal to its children's sums |
| TreeBuilder.BuildFromQueueProperties | src/main/java/org/example/FusionCompressionHuffman.java:255-261 | the loop ends with no node exactly for an empty queue, otherwise with one tree holding the queue's total frequency and all of its letters |
| TreeBuilder.ReconstructTree | src/main/java/org/example/FusionCompressionHuffman.java:250-262 | reconstruireArbre (seed, loop while size() > 1, final poll) returns exactly the Huffman tree of the table |
| TreeBuilder.HuffmanTreeExists | src/main/java/org/example/FusionCompressionHuffman.java:261 | the builder returns null exactly for an empty table |
| TreeBuilder.HuffmanTreeRoot | src/main/java/org/example/FusionCompressionHuffman.java:252-261 | for a non-empty table the root's frequency is the total of all counts, and every internal frequency is the sum of its children's |
| TreeBuilder.HuffmanTreeLetters | src/main/java/org/example/FusionCompressionHuffman.java:252-261 | the letters of a non-empty table's tree are its keys |
| TreeBuilder.HuffmanTreeLeaves | src/main/java/org/example/FusionCompressionHuffman.java:252-261 | every key sits at exactly one leaf and nothing else does; the tree has one internal node fewer than the table has entries |
| TreeBuilder.HuffmanTreeDistinct | src/main/java/org/example/FusionCompressionHuffman.java:252-261 | the built tree's letters are distinct and are exactly the table's keys |
| TreeBuilder.HuffmanTreeShape | src/main/java/org/example/FusionCompressionHuffman.java:255-261 | two or more entries give an internal root; a single entry gives the lone leaf of that entry |
| CodeTables.BuildCodes | src/main/java/org/example/FusionCompressionHuffman.java:209-216 | construireCodes adds to the shared table exactly the entries of the walk from the given node and path |
| CodeTables.GenerateCodes | src/main/java/org/example/FusionCompressionHuffman.java:186-201 | genererCodesHuffman returns the code table of the Huffman tree, and throws for an empty table |
| CodeTables.CodeTableKeys | src/main/java/org/example/FusionCompressionHuffman.java:209-215 | the code table has an entry for exactly the leaf letters |
| CodeTables.NodeEntry | src/main/java/org/example/FusionCompressionHuffman.java:213-214 | at an internal node a letter's entry comes from the right walk if its leaf is there, else from the left one |
| CodeTables.CodeTableExtend | src/main/java/org/example/FusionCompressionHuffman.java:213-214 | extending the starting path puts the extension in front of every entry |
| CodeTables.CodeTableShift | src/main/java/org/example/FusionCompressionHuffman.java:199 | each entry of the walk from a path is that path followed by the root walk's entry |
| CodeTables.CodesOfNode | src/main/java/org/example/FusionCompressionHuffman.java:213-214 | with distinct letters, left-subtree letters get '0' then their code there, right-subtree letters get '1' then theirs |
| CodeTables.CodeIsPathToLeaf | src/main/java/org/example/FusionCompressionHuffman.java:209-215 | each code consists of '0' and '1' and leads from the root to the leaf holding its letter |
| CodeTables.CodeLengths | src/main/java/org/example/FusionCompressionHuffman.java:210-211 | a lone-leaf tree gives its letter the empty code; with an internal root every code is non-empty |
| CodeTables.PrefixFree | src/main/java/org/example/FusionCompressionHuffman.java:209-215 | with distinct letters no code is a prefix of another letter's code |
| HuffmanCodec.Compress | src/main/java/org/example/FusionCompressionHuffman.java:141-147 | compresserTexte returns the in-order concatenation of the letters' codes, "null" for a letter without one |
| HuffmanCodec.EncodeConcat | src/main/java/org/example/FusionCompressionHuffman.java:142-145 | encoding a concatenation concatenates the encodings |
| HuffmanCodec.Decompress | src/main/java/org/example/FusionCompressionHuffman.java:155-166 | decomprimerTexte returns the result of the cursor machine: '0' goes left, anything else right, a leaf emits and resets, a null cursor throws |
| HuffmanCodec.DecodeOneCode | src/main/java/org/example/FusionCompressionHuffman.java:158-163 | reading one letter's code emits exactly that letter and puts the cursor back at the root |
| HuffmanCodec.DecodeEncoded | src/main/java/org/example/FusionCompressionHuffman.java:157-164 | reading an encoded text from the root emits that text and ends at the root |
| HuffmanCodec.DecodeTotal | src/main/java/org/example/FusionCompressionHuffman.java:158-165 | with an internal root decoding never throws, and emits at most one letter per bit (trailing partial codes dropped) |
| HuffmanCodec.DecodeInvertsEncode | src/main/java/org/example/FusionCompressionHuffman.java:155-166 | on a tree with an internal root and distinct letters, decoding undoes encoding for every text over those letters |
| HuffmanCodec.RoundTrip | src/main/java/org/example/FusionCompressionHuffman.java:141-166 | with two or more distinct letters, the text encoded with its codes decodes back on the tree rebuilt from its frequencies |
| HuffmanCodec.CompressHeader | src/main/java/org/example/FusionCompressionHuffman.java:129-133 | compresserEntete returns the text encoded with the codes of its own tree, and throws for the empty text |
| HuffmanCodec.HeaderRoundTrip | src/main/java/org/example/FusionCompressionHuffman.java:129-133 | the header compressor throws exactly on the empty text; with two or more distinct letters its output decodes back to the text |
| HuffmanCodec.SingleLetterTextLost | src/main/java/org/example/FusionCompressionHuffman.java:209-211 | a text of one repeated letter compresses to the empty string, which decodes to the empty string |
| HuffmanCodec.EncodeSingle | src/main/java/org/example/FusionCompressionHuffman.java:142-145 | a text of one repeated letter with the empty code encodes to nothing |
| CorrectedCodec.FixedCodesPrefixFree | src/main/java/org/example/FusionCompressionHuffman.java:209-215 | with the one-bit fallback every code is non-empty and the table stays prefix-free |
| CorrectedCodec.EncodeRepeated | src/main/java/org/example/FusionCompressionHuffman.java:142-145 | one repeated letter with code "0" encodes to one '0' per letter |
| CorrectedCodec.OnlyLetter | src/main/java/org/example/FusionCompressionHuffman.java:173-179 | a text whose frequency table has the single entry c consists of c only |
| CorrectedCodec.FixedRoundTripSingle | src/main/java/org/example/FusionCompressionHuffman.java:209-211 | with the fallback a text of one repeated letter survives compression and decompression |
| CorrectedCodec.FixedRoundTrip | src/main/java/org/example/FusionCompressionHuffman.java:129-166 | with the fallback every text, including the empty one, survives compression and decompression on the rebuilt tree |

## Left out

- `main`, `extraireEntete`, `lireCorpsSansEntete` and `ecrireFichierFusionne` are not modelled. They are file reading, file writing and console printing with hard-coded paths.
- `calculerTauxDeCompression` is not modelled. It is double-precision arithmetic followed by printing, with nothing to verify.
- The heap inside `java.util.PriorityQueue` is not modelled. The model fixes one choice among nodes of equal frequency: the first such node in insertion order. Java leaves this order unspecified.
- The iteration order of `HashMap.entrySet()` is not modelled. It is replaced by ascending character order.
- HuffmanTrees.Merge: does not model the 32-bit wrap-around of `frequence`. Counts from `calculerFrequences` add up to at most the text's length, which a Java `String` keeps below 2^31.
- A text is modelled as a sequence of non-surrogate UTF-16 code units, because a Dafny `char` cannot hold a surrogate. Any text containing a surrogate code unit is not covered. That includes every character outside the Basic Multilingual Plane, which `toCharArray()` splits into two surrogates.
- The `'\0'` letter stored in internal nodes is not kept, because nothing reads it.
- `construireCodes` updates a `HashMap` through a shared reference. The model passes the map's value in and returns the updated value, so aliasing is not modelled.
- `genererCodesHuffman` repeats the build loop of `reconstruireArbre`. The model's `GenerateCodes` calls `ReconstructTree` instead of repeating it.
- Optimality of the code (minimal weighted length) is not proved. The source does not claim it.

## Findings

| source | as written | input that shows it | evidently intended | confidence | as-written member | corrected member |
|---|---|---|---|---|---|---|
| src/main/java/org/example/FusionCompressionHuffman.java:209-211 | a tree that is a single leaf gives its letter the empty code, so compresserTexte emits nothing and decomprimerTexte returns "" | "aaaa" | a one-bit code "0", each bit decoding to the letter, so the text comes back | not executed | HuffmanCodec.SingleLetterTextLost | CorrectedCodec.FixedRoundTrip |
| src/main/java/org/example/FusionCompressionHuffman.java:197-199 | for an empty text the queue is empty, poll returns null and construireCodes dereferences it (NullPointerException) | "" | the empty text compresses to the empty bit string | not executed | HuffmanCodec.HeaderRoundTrip | CorrectedCodec.FixedRoundTrip |
