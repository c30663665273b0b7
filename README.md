# hypertrie core, modelled in Dafny

hypertrie is a C++ library for sparse tensors. A tensor of depth d is stored as
a trie over d-part keys whose nodes are shared and reference counted. On top of
it sits an einsum engine that evaluates subscripts such as `ab,bc->ac` against
such tensors. This project models the sequential core of both:

- **Keys and positions** (`raw_key.dfy`, `raw_key_positions.dfy`, `keys.dfy`).
  - Raw keys and raw slice keys: the fixed values of a slice key, `subkey`, `slice` and `subkey_i`.
  - The `RawKeyPositions` bit set of diagonal positions.
  - `SliceKey::get_fixed_depth` and the `NonZeroEntry` of an integer-valued hypertrie.
- **Node identifiers** (`identifier.dfy`). A `RawIdentifier` is a 64-bit order-independent fingerprint of a node's entries. Its tag bit (bit 63) separates single-entry nodes (SEN) from full nodes (FN); the seed 0 means "no node".
- **Tagged words** (`tagged_pointer.dfy`). `KeyPartTaggedPointer` and `CompressedBoolHyperTrieTaggedPointer` keep a tag in the low bits of an aligned word.
- **Node edges** (`with_edges.dfy`, `edges_masked.dfy`). `WithEdges` gives child lookup and the "position with fewest children" queries used to plan slices.
- **Reference-count bookkeeping** (`context_level_changes.dfy`, `moveables.dfy`, `node_storage.dfy`).
  - `ContextLevelChanges` records, for one depth, the planned reference-count deltas, new nodes and node changes.
  - `calc_moveables` picks the full nodes that can be changed in place.
  - `NodeStorage::update_or_create_sen` applies a delta to a single-entry node and deletes the node when its count reaches 0; `lookup` finds nodes.
- **Einsum subscripts** (`raw_subscript.dfy`, `subscript.dfy`, `undirected_graph.dfy`).
  - `RawSubscript` gives label sets, label positions, label removal, its string form and `!=`.
  - `Subscript` adds the `from_string` parser, the operator classification (`calcState`) and the label facts its constructor precomputes.
  - The label dependency graph and its connected components come from `UndirectedGraph`.
- **Odometer** (`product.dfy`). The test utility `Product` enumerates every tuple of a given size over a candidate list.

`wrappers.dfy` holds the `Option`, `Result` and `Outcome` datatypes used for
null pointers, thrown exceptions and rejected values.

Code that changes state step by step is modelled as methods with loops:
`subkey`, `slice`, `hash_iterable`, `from_string`, the graph search,
`calc_moveables`, `operator++`, and so on. Each method is proved against a
specification function. Objects whose fields the source updates are classes:
`ContextLevelChanges`, `NodeStorage`, `UndirectedGraph`,
`Product::iterator`, `NonZeroEntry`, `Subscript` and the two tagged pointers.
Identifiers are values: the source uses them as map keys and copies them.

## Model

| member | source | states |
|---|---|---|
| RawKeys.Subkey | libs/hypertrie/src/dice/hypertrie/internal/raw/RawKey.hpp:20-27 | the subkey has depth-1 parts and is the key with position removePos taken out, order kept |
| RawKeys.FromSliceKey | libs/hypertrie/src/dice/hypertrie/internal/raw/RawKey.hpp:44-54 | the loop builds exactly the fixed values of the slice key, and there are fixed_depth of them |
| RawKeys.FixedValuesCount | libs/hypertrie/src/dice/hypertrie/internal/raw/RawKey.hpp:44-54 | a slice key has as many fixed values as get_fixed_depth says |
| RawKeys.FixedValuesFaithful | libs/hypertrie/src/dice/hypertrie/internal/raw/RawKey.hpp:44-54 | the fixed values name the fixed positions in strictly ascending order with their key parts, and every fixed part of the slice key appears |
| RawKeys.UnfixedNothing | libs/hypertrie/src/dice/hypertrie/internal/raw/RawKey.hpp:67-69 | with no fixed position the slice is the key itself |
| RawKeys.Slice | libs/hypertrie/src/dice/hypertrie/internal/raw/RawKey.hpp:64-86 | None exactly when some fixed position's key part differs; otherwise the non-fixed parts in their original order, depth - fixed_depth of them |
| RawKeys.SubkeyI | libs/hypertrie/src/dice/hypertrie/internal/raw/RawKey.hpp:119-132 | the i-th fixed value is dropped, earlier ones are kept, and later ones move one position down (8-bit position arithmetic) |
| RawKeys.SubkeyIWellFormed | libs/hypertrie/src/dice/hypertrie/internal/raw/RawKey.hpp:119-132 | subkey_i of a well-formed raw slice key is well-formed for keys one part shorter, and later positions drop by exactly one |
| RawKeyPositions.Empty | libs/hypertrie/src/dice/hypertrie/internal/raw/RawDiagonalPositions.hpp:10-18 | the default bit set, with depth below 8, holds no position |
| RawKeyPositions.SetTrue | libs/hypertrie/src/dice/hypertrie/internal/raw/RawDiagonalPositions.hpp:14-18 | set_true adds the one position and keeps all others |
| RawKeyPositions.FromPositions | libs/hypertrie/src/dice/hypertrie/internal/raw/RawDiagonalPositions.hpp:26-37 | after construction from P, operator[](p) holds iff p is in P |
| RawKeyPositions.FirstPos | libs/hypertrie/src/dice/hypertrie/internal/raw/RawDiagonalPositions.hpp:39-47 | given that some position is set, the result is set and no smaller position is |
| RawKeyPositions.SubRawKeyPositions | libs/hypertrie/src/dice/hypertrie/internal/raw/RawDiagonalPositions.hpp:49-62 | the result has depth-1 positions; position i holds this[i] for i below the removed position and this[i+1] from it on |
| RawKeyPositions.CountBelowCardinality | libs/hypertrie/src/dice/hypertrie/internal/raw/RawDiagonalPositions.hpp:64-70 | the running count below n is the number of set positions below n |
| RawKeyPositions.Count | libs/hypertrie/src/dice/hypertrie/internal/raw/RawDiagonalPositions.hpp:64-70 | count() is the number of set positions |
| RawKeyPositions.CountAllIsSize | libs/hypertrie/src/dice/hypertrie/internal/raw/RawDiagonalPositions.hpp:64-70 | the count over the whole depth is the size of the set of positions |
| RawKeyPositions.Slice | libs/hypertrie/src/dice/hypertrie/internal/raw/RawDiagonalPositions.hpp:72-93 | fixed depth 0 gives the key back; otherwise None iff a set position holds a part other than the fixed one, else the unset parts in order |
| Identifiers.Default | libs/hypertrie/src/dice/hypertrie/internal/raw/node/Identifier.hpp:45-51 | a default identifier holds the seed 0, is empty, and is neither SEN nor FN |
| Identifiers.TagsExclusive | libs/hypertrie/src/dice/hypertrie/internal/raw/node/Identifier.hpp:66-82 | empty iff neither SEN nor FN; never both SEN and FN |
| Identifiers.TagAsSen | libs/hypertrie/src/dice/hypertrie/internal/raw/node/Identifier.hpp:129-131 | the tag bit is set, the other bits are kept, and the result is never the seed |
| Identifiers.TagAsFn | libs/hypertrie/src/dice/hypertrie/internal/raw/node/Identifier.hpp:133-135 | the tag bit is cleared and the other bits are kept |
| Identifiers.HashAndCombine | libs/hypertrie/src/dice/hypertrie/internal/raw/node/Identifier.hpp:147-159 | combining the entry's hash in again gives back the seed: seed == hash_and_combine(e, hash_and_combine(e, seed)) |
| Identifiers.EncodeSingleEntry | libs/hypertrie/src/dice/hypertrie/internal/raw/node/Identifier.hpp:137-145 | the identifier of a one-entry node is a SEN |
| Identifiers.EncodeIsFromOne | libs/hypertrie/src/dice/hypertrie/internal/raw/node/Identifier.hpp:137-181 | encode_single_entry(e) is the identifier hash_iterable builds from [e] |
| Identifiers.HashIterable | libs/hypertrie/src/dice/hypertrie/internal/raw/node/Identifier.hpp:162-181 | the loop's identifier is the specification FromEntries of the entries |
| Identifiers.FromEntriesTags | libs/hypertrie/src/dice/hypertrie/internal/raw/node/Identifier.hpp:162-181 | 0 entries give the empty identifier; exactly 1 entry iff SEN; 2 or more clear the tag bit and give an FN unless the hashes cancel |
| Identifiers.AddEntry | libs/hypertrie/src/dice/hypertrie/internal/raw/node/Identifier.hpp:268-280 | adding to an empty identifier gives a SEN; adding to a non-empty one clears the tag |
| Identifiers.RemoveEntry | libs/hypertrie/src/dice/hypertrie/internal/raw/node/Identifier.hpp:288-298 | from an FN, the result is SEN-tagged when it becomes a single entry and untagged otherwise |
| Identifiers.AddThenRemove | libs/hypertrie/src/dice/hypertrie/internal/raw/node/Identifier.hpp:268-298 | removing an entry just added restores the identifier |
| Identifiers.RemoveThenAdd | libs/hypertrie/src/dice/hypertrie/internal/raw/node/Identifier.hpp:268-298 | adding back an entry just removed restores the FN identifier |
| Identifiers.AddEntryExtends | libs/hypertrie/src/dice/hypertrie/internal/raw/node/Identifier.hpp:162-181 | addEntry on the identifier of es gives the identifier of es + [e] |
| Identifiers.FromEntriesByAdding | libs/hypertrie/src/dice/hypertrie/internal/raw/node/Identifier.hpp:162-181 | building from a list equals adding its entries one by one to the default identifier |
| Identifiers.FromEntriesPermutation | libs/hypertrie/src/dice/hypertrie/internal/raw/node/Identifier.hpp:162-181 | the identifier depends only on the multiset of entries, not their order |
| Identifiers.ChangeValue | libs/hypertrie/src/dice/hypertrie/internal/raw/node/Identifier.hpp:213-226 | changeValue keeps the SEN tag of a SEN and keeps the tag of any other identifier clear |
| Identifiers.ChangeValueRebuilds | libs/hypertrie/src/dice/hypertrie/internal/raw/node/Identifier.hpp:213-226 | changing entry i's value gives the identifier of the entry list with entry i replaced |
| Identifiers.Combine | libs/hypertrie/src/dice/hypertrie/internal/raw/node/Identifier.hpp:234-249 | combining with an empty identifier returns the other one; two non-empty identifiers give an untagged result |
| Identifiers.CombineFromEntries | libs/hypertrie/src/dice/hypertrie/internal/raw/node/Identifier.hpp:234-249 | combining the identifiers of two entry lists gives the identifier of their concatenation |
| Keys.FixedDepthCountsFixedParts | libs/hypertrie/src/dice/hypertrie/Key.hpp:79-81 | get_fixed_depth equals the number of fixed (present) parts of the slice key |
| Keys.FixedDepthExtremes | libs/hypertrie/src/dice/hypertrie/Key.hpp:79-81 | all parts fixed gives the full size; none fixed gives 0 |
| Keys.MakeEntry | libs/hypertrie/src/dice/hypertrie/Key.hpp:106-111 | construction fails exactly for a zero value; otherwise the entry holds the key and value |
| Keys.MakeFilled | libs/hypertrie/src/dice/hypertrie/Key.hpp:113-115 | the entry's key has size parts, each equal to the given part; a zero value fails |
| Keys.NonZeroEntry.Init | libs/hypertrie/src/dice/hypertrie/Key.hpp:106-111 | a non-zero value is stored with the key |
| Keys.NonZeroEntry.SetValue | libs/hypertrie/src/dice/hypertrie/Key.hpp:129-139 | fails exactly for zero, leaving the value unchanged; any other value is stored; the key is kept |
| Keys.NonZeroEntry.Fill | libs/hypertrie/src/dice/hypertrie/Key.hpp:161-163 | every key part becomes the given part; size and value are kept |
| RawSubscripts.OperandLabelsUnion | libs/einsum/src/dice/einsum/internal/RawSubscript.hpp:130-138 | the operand label set is the union of the labels of all operands |
| RawSubscripts.GetOperandsLabelSet | libs/einsum/src/dice/einsum/internal/RawSubscript.hpp:130-138 | the loop's set holds exactly the labels occurring in some operand |
| RawSubscripts.GetResultLabelSet | libs/einsum/src/dice/einsum/internal/RawSubscript.hpp:143-149 | the set holds exactly the labels of the result |
| RawSubscripts.Occurrences | libs/einsum/src/dice/einsum/internal/RawSubscript.hpp:155-168 | the positions listed are exactly the positions holding the label, ascending |
| RawSubscripts.OccurrencesCount | libs/einsum/src/dice/einsum/internal/RawSubscript.hpp:155-168 | one position per occurrence of the label |
| RawSubscripts.GetLabelPossInOperands | libs/einsum/src/dice/einsum/internal/RawSubscript.hpp:155-168 | one ascending position list per operand, stored as uint8_t |
| RawSubscripts.ShortOperandPositions | libs/einsum/src/dice/einsum/internal/RawSubscript.hpp:155-168 | for operands of at most 256 labels no stored position wraps |
| RawSubscripts.GetLabelPossInResult | libs/einsum/src/dice/einsum/internal/RawSubscript.hpp:173-179 | keys are exactly the result labels, each mapped to its first position (as uint8_t) |
| RawSubscripts.RemoveFromContents | libs/einsum/src/dice/einsum/internal/RawSubscript.hpp:186-201 | no operand is left empty or added, and the remaining labels are the old ones minus the removed label |
| RawSubscripts.WithoutContents | libs/einsum/src/dice/einsum/internal/RawSubscript.hpp:190-195 | each operand loses every occurrence of the label and keeps every other label with its multiplicity |
| RawSubscripts.DropLabel | libs/einsum/src/dice/einsum/internal/RawSubscript.hpp:190-195 | the inner loop keeps the labels other than the removed one, in order |
| RawSubscripts.RemoveLabel | libs/einsum/src/dice/einsum/internal/RawSubscript.hpp:186-201 | the label must occur; every occurrence is deleted, emptied operands are dropped and the result is kept |
| RawSubscripts.ToString | libs/einsum/src/dice/einsum/internal/RawSubscript.hpp:203-218 | the string is the operands joined by ',', then "->", then the result labels |
| RawSubscripts.SplitJoin | libs/einsum/src/dice/einsum/internal/RawSubscript.hpp:203-218 | cutting the joined operands at ',' gives the operands back |
| RawSubscripts.FormatOperands | libs/einsum/src/dice/einsum/internal/RawSubscript.hpp:203-218 | in the string form the first '-' ends the joined operands, which split back into the operands, and the result follows "->" |
| RawSubscripts.NotEqual | libs/einsum/src/dice/einsum/internal/RawSubscript.hpp:226-257 | != is false exactly when operands and result are equal element by element |
| Subscripts.ReadOperands | libs/einsum/src/dice/einsum/Subscript.hpp:349-362 | the operand loop stops at the first '-' with the first-appearance mapping and the operands read up to there |
| Subscripts.ScanMeaning | libs/einsum/src/dice/einsum/Subscript.hpp:344-362 | the parser's variables after any prefix are the first-appearance mapping, the next label, the completed operands and the current one |
| Subscripts.FromString | libs/einsum/src/dice/einsum/Subscript.hpp:341-373 | the parse is the operand part cut at ',' and renamed by first appearance, plus the renamed result after "->" |
| Subscripts.FirstAppearanceLabel | libs/einsum/src/dice/einsum/Subscript.hpp:344-356 | the k-th distinct character to appear is renamed to the k-th label from 'a' |
| Subscripts.FirstLabelIsA | libs/einsum/src/dice/einsum/Subscript.hpp:347-353 | the first character of a subscript becomes 'a' |
| Subscripts.MappingInjective | libs/einsum/src/dice/einsum/Subscript.hpp:344-356 | distinct characters of a byte string get distinct labels |
| Subscripts.NoOperands | libs/einsum/src/dice/einsum/Subscript.hpp:363-365 | a string with no operands yields one empty operand |
| Subscripts.ParseFormat | libs/einsum/src/dice/einsum/Subscript.hpp:337-373 | parsing the string form of a subscript gives back its operands and result, renamed by first appearance |
| Subscripts.DistinctCount | libs/einsum/src/dice/einsum/Subscript.hpp:394-395 | an operand's label count equals the size of its label set iff no label repeats |
| Subscripts.CalcState | libs/einsum/src/dice/einsum/Subscript.hpp:385-422 | 0 operands: EntryGenerator. 1 operand without a repeated label: all labels in the result gives Resolve, none gives Count, else Join. 2 or more operands: Cartesian iff more than one connected component, else Join |
| Subscripts.CalcAllResultDone | libs/einsum/src/dice/einsum/Subscript.hpp:266-270 | true iff no result label is an operand label |
| Subscripts.UsedResultPoss | libs/einsum/src/dice/einsum/Subscript.hpp:278-287 | the ascending result positions whose label occurs in some operand |
| Subscripts.AllResultDoneIffNoneUsed | libs/einsum/src/dice/einsum/Subscript.hpp:266-287 | all_result_done holds iff used_result_poss_ is empty |
| Subscripts.UsedPositionsCount | libs/einsum/src/dice/einsum/Subscript.hpp:278-287 | at most every result position is used, and all of them iff every result label occurs in an operand |
| Subscripts.IsValid | libs/einsum/src/dice/einsum/Subscript.hpp:442-445 | valid() iff every result label occurs in some operand |
| Subscripts.ValidUsesAllPositions | libs/einsum/src/dice/einsum/Subscript.hpp:442-445 | valid() iff every result position is a used one |
| Subscripts.PossOfOperandsWithLabels | libs/einsum/src/dice/einsum/Subscript.hpp:291-295 | the nested loop builds the specification map of operand positions per label |
| Subscripts.PossMapMeaning | libs/einsum/src/dice/einsum/Subscript.hpp:291-295 | the map's keys are the operand labels, and each label's list holds an operand's position once per occurrence in it, ascending |
| Subscripts.LonelyNonResultLabels | libs/einsum/src/dice/einsum/Subscript.hpp:297-307 | every label reported lonely is an operand label absent from the result that occurs exactly once; with at most 256 operands, every such label is reported |
| Subscripts.LonelyOperand | libs/einsum/src/dice/einsum/Subscript.hpp:297-307 | a label occurring once overall sits in exactly one operand, once |
| Subscripts.CalcDependencyGraph | libs/einsum/src/dice/einsum/Subscript.hpp:424-430 | the nodes are the operand labels and two labels are adjacent iff some operand holds both |
| Subscripts.SameOperandSameComponent | libs/einsum/src/dice/einsum/Subscript.hpp:276-277 | labels of one operand lie in the same connected component |
| Subscripts.CartesianSplitsOperands | libs/einsum/src/dice/einsum/Subscript.hpp:414-419 | labels of two different components never share an operand, so several components mean a Cartesian product |
| Subscripts.Operand2ResultMapping | libs/einsum/src/dice/einsum/Subscript.hpp:316-321 | for Resolve, each label of the single operand is mapped to its first result position |
| Subscripts.ResolveMappingFindsLabel | libs/einsum/src/dice/einsum/Subscript.hpp:316-321 | with a result of at most 256 labels, the mapped position holds that very label |
| Subscripts.Subscript.constructor | libs/einsum/src/dice/einsum/Subscript.hpp:272-332 | the label sets, the dependency graph and its components, used_result_poss_, the type (CarthesianMapping kept when requested), all_result_done, the lonely labels and the Resolve mapping |
| Subscripts.Subscript.GetPossOfOperandsWithLabel | libs/einsum/src/dice/einsum/Subscript.hpp:186-192 | fails (throws) iff the label occurs in no operand; otherwise its operand positions |
| Subscripts.Subscript.GetLabelPosInResult | libs/einsum/src/dice/einsum/Subscript.hpp:215-221 | succeeds iff label_poss_in_result was filled (Join or Resolve) and the label is in the result, giving its first position |
| Subscripts.Subscript.IsResultLabel | libs/einsum/src/dice/einsum/Subscript.hpp:211-213 | true iff the label occurs in the result |
| UndirectedGraphs.UndirectedGraph.constructor | include/Dice/einsum/internal/util/UndirectedGraph.hpp:24 | a new graph has no nodes and no edges |
| UndirectedGraphs.UndirectedGraph.AddEdge | include/Dice/einsum/internal/util/UndirectedGraph.hpp:57-67 | both nodes are added, b becomes a neighbour of a and a of b |
| UndirectedGraphs.AddPairSymmetric | include/Dice/einsum/internal/util/UndirectedGraph.hpp:57-67 | addEdge keeps the adjacency symmetric |
| UndirectedGraphs.UndirectedGraph.AddEdgesFrom | include/Dice/einsum/internal/util/UndirectedGraph.hpp:48-49 | the inner loop joins a to every listed node in turn |
| UndirectedGraphs.StarFoldAdj | include/Dice/einsum/internal/util/UndirectedGraph.hpp:48-49 | the inner loop joins a to every listed node and to nothing else |
| UndirectedGraphs.UndirectedGraph.AddCompleteGraph | include/Dice/einsum/internal/util/UndirectedGraph.hpp:42-50 | the nodes gain the given ones, every two of them are joined, self loops included, and symmetry is kept |
| UndirectedGraphs.CliqueFoldAdj | include/Dice/einsum/internal/util/UndirectedGraph.hpp:42-50 | the two loops join every listed node to every listed node and add no other edge |
| UndirectedGraphs.CompleteGraph | include/Dice/einsum/internal/util/UndirectedGraph.hpp:42-50 | after both loops over the same nodes, exactly those nodes are added and form a clique, and the graph stays symmetric |
| UndirectedGraphs.UndirectedGraph.Neighbors | include/Dice/einsum/internal/util/UndirectedGraph.hpp:113-115 | edges.at(node) is present iff the node is; each neighbour is a node adjacent back to it |
| UndirectedGraphs.UndirectedGraph.GetNodes | include/Dice/einsum/internal/util/UndirectedGraph.hpp:121-123 | the nodes are the keys of the adjacency |
| UndirectedGraphs.UndirectedGraph.Clear | include/Dice/einsum/internal/util/UndirectedGraph.hpp:128-131 | no nodes and no edges remain |
| UndirectedGraphs.UndirectedGraph.VisitNeighbours | include/Dice/einsum/internal/util/UndirectedGraph.hpp:92-99 | every unfinished neighbour joins the current component and the open list, reachable from its root |
| UndirectedGraphs.UndirectedGraph.Explore | include/Dice/einsum/internal/util/UndirectedGraph.hpp:81-101 | one breadth-first round yields a component that contains its start, is connected from it, and has no edge leaving it |
| UndirectedGraphs.UndirectedGraph.GetConnectedComponents | include/Dice/einsum/internal/util/UndirectedGraph.hpp:73-106 | the components are non-empty, pairwise disjoint and cover every node; each is internally connected and no edge leaves one |
| Edges.Find | libs/hypertrie/src/dice/hypertrie/internal/raw/node/WithEdges.hpp:95-103 | the flag is true iff the key part has a child at that position |
| Edges.Child | libs/hypertrie/src/dice/hypertrie/internal/raw/node/WithEdges.hpp:105-114 | the mapped child if present; true for a key set (depth-1 bool node); the default value otherwise |
| Edges.FirstMinIndexIsFirstMin | libs/hypertrie/src/dice/hypertrie/internal/raw/node/WithEdges.hpp:116-128 | the chosen index has the least size and every earlier index has a strictly larger size |
| Edges.MinCardPos | libs/hypertrie/src/dice/hypertrie/internal/raw/node/WithEdges.hpp:116-128 | of a non-empty position list, the first listed position with the least size |
| Edges.MinCardPosAll | libs/hypertrie/src/dice/hypertrie/internal/raw/node/WithEdges.hpp:130-145 | the least index of a least-size position; 0 at depth 1 |
| Edges.MinFixedKeypartI | libs/hypertrie/src/dice/hypertrie/internal/raw/node/WithEdges.hpp:148-166 | the index, among the fixed values, of the first fixed position with the least size |
| Edges.GetCards | libs/hypertrie/src/dice/hypertrie/internal/raw/node/WithEdges.hpp:168-176 | cards[i] is the size of the children at positions[i] |
| EdgesMasked.MinCardPosMasked | libs/hypertrie/src/dice/hypertrie/internal/raw/node/WithEdges.hpp:178-191 | the first least size over the masked positions, unmasked ones counting as size_t max |
| EdgesMasked.MaskedMinimumNone | libs/hypertrie/src/dice/hypertrie/internal/raw/node/WithEdges.hpp:178-191 | 0 when no masked position has a size below size_t max |
| EdgesMasked.MaskedMinimumSome | libs/hypertrie/src/dice/hypertrie/internal/raw/node/WithEdges.hpp:178-191 | otherwise a masked position whose size is least among the masked ones and strictly less than every earlier masked one |
| TaggedPointers.IntRoundTrip | include/Dice/hypertrie/internal/util/TaggedPointerWrapper.hpp:66-81 | setInt on a number with clear tag bits: getInt returns it and getTag is INT_TAG |
| TaggedPointers.SetIntBits | include/Dice/hypertrie/internal/util/TaggedPointerWrapper.hpp:66-81 | for any number, setInt keeps the high bits and leaves an odd tag |
| TaggedPointers.PointerRoundTrip | include/Dice/hypertrie/internal/util/TaggedPointerWrapper.hpp:56-77 | setPointer on an aligned pointer: getPointer returns it and getTag is POINTER_TAG |
| TaggedPointers.KeyPartTaggedPointer.FromPointer | include/Dice/hypertrie/internal/util/TaggedPointerWrapper.hpp:42-44 | an aligned pointer comes back with POINTER_TAG |
| TaggedPointers.KeyPartTaggedPointer.FromInt | include/Dice/hypertrie/internal/util/TaggedPointerWrapper.hpp:46-48 | a number with clear tag bits comes back with INT_TAG |
| TaggedPointers.KeyPartTaggedPointer.SetPointer | include/Dice/hypertrie/internal/util/TaggedPointerWrapper.hpp:56-64 | the pointer must be aligned; afterwards getPointer returns it and the tag is POINTER_TAG, whatever was stored before |
| TaggedPointers.KeyPartTaggedPointer.SetInt | include/Dice/hypertrie/internal/util/TaggedPointerWrapper.hpp:66-69 | the number with INT_TAG or-ed in; getInt returns its high bits, or the number itself when its tag bits are clear |
| TaggedPointers.KeyPartTaggedPointer.GetPointer | include/Dice/hypertrie/internal/util/TaggedPointerWrapper.hpp:71-73 | the word with the tag bits masked off, a multiple of alignedTo |
| TaggedPointers.KeyPartTaggedPointer.GetTag | include/Dice/hypertrie/internal/util/TaggedPointerWrapper.hpp:75-77 | the tag is always below alignedTo |
| TaggedPointers.KeyPartTaggedPointer.GetInt | include/Dice/hypertrie/internal/util/TaggedPointerWrapper.hpp:79-81 | the word with the tag bits masked off |
| TaggedPointers.CompressedBoolHyperTrieTaggedPointer.FromCompressedNode | include/Dice/hypertrie/internal/util/TaggedPointerWrapper.hpp:116-120 | the tag is COMPRESSED_TAG, getCompressedNode recovers the pointer, and the word is not empty |
| TaggedPointers.CompressedBoolHyperTrieTaggedPointer.FromNode | include/Dice/hypertrie/internal/util/TaggedPointerWrapper.hpp:122-126 | the tag is NON_COMPRESSED_TAG and getNode recovers an aligned pointer; empty iff the node is null |
| TaggedPointers.CompressedBoolHyperTrieTaggedPointer.FromTagged | include/Dice/hypertrie/internal/util/TaggedPointerWrapper.hpp:132-135 | the tagged word is kept as it is |
| TaggedPointers.CompressedBoolHyperTrieTaggedPointer.Null | include/Dice/hypertrie/internal/util/TaggedPointerWrapper.hpp:137-139 | the default is the null word, which is empty |
| TaggedPointers.CompressedBoolHyperTrieTaggedPointer.ClearTag | include/Dice/hypertrie/internal/util/TaggedPointerWrapper.hpp:160-162 | the tag bits are cleared and the high bits kept |
| TaggedPointers.CompressedBoolHyperTrieTaggedPointer.GetTag | include/Dice/hypertrie/internal/util/TaggedPointerWrapper.hpp:165-167 | the tag is always below alignedTo |
| TaggedPointers.CompressedBoolHyperTrieTaggedPointer.GetCompressedNode | include/Dice/hypertrie/internal/util/TaggedPointerWrapper.hpp:177-179 | the word without its tag bits |
| TaggedPointers.CompressedBoolHyperTrieTaggedPointer.GetNode | include/Dice/hypertrie/internal/util/TaggedPointerWrapper.hpp:181-183 | the word without its tag bits |
| ContextLevels.IncRefDeltas | libs/hypertrie/src/dice/hypertrie/internal/raw/node_context/ContextLevelChanges.hpp:62-69 | inc_ref moves exactly one delta by n: the FN's entry in fn_deltas or the SEN's entry in SEN_changes |
| ContextLevels.IncRefKeeps | libs/hypertrie/src/dice/hypertrie/internal/raw/node_context/ContextLevelChanges.hpp:62-69 | an FN is recorded in fn_incs; nothing else changes |
| ContextLevels.IncRefAccumulates | libs/hypertrie/src/dice/hypertrie/internal/raw/node_context/ContextLevelChanges.hpp:62-69 | inc_ref(id, n) then inc_ref(id, m) is inc_ref(id, n + m) |
| ContextLevels.ContextLevelChanges.constructor | libs/hypertrie/src/dice/hypertrie/internal/raw/node_context/ContextLevelChanges.hpp:34-60 | all member maps and sets start empty |
| ContextLevels.ContextLevelChanges.IncRefBy | libs/hypertrie/src/dice/hypertrie/internal/raw/node_context/ContextLevelChanges.hpp:62-69 | the members change as inc_ref specifies |
| ContextLevels.AddNodeIdentifier | libs/hypertrie/src/dice/hypertrie/internal/raw/node_context/ContextLevelChanges.hpp:71-92 | the returned identifier is the one RawIdentifier builds from the entries |
| ContextLevels.AddNodeSingle | libs/hypertrie/src/dice/hypertrie/internal/raw/node_context/ContextLevelChanges.hpp:71-79 | with one entry, that SEN's delta grows by n, the entry is recorded and its identifier returned |
| ContextLevels.AddNodeRegistersOnce | libs/hypertrie/src/dice/hypertrie/internal/raw/node_context/ContextLevelChanges.hpp:80-91 | with two or more entries the FN is registered in FN_new_ones once; a later call only adds to its count |
| ContextLevels.ContextLevelChanges.AddNodeWith | libs/hypertrie/src/dice/hypertrie/internal/raw/node_context/ContextLevelChanges.hpp:71-92 | the members and the returned identifier are those add_node specifies |
| ContextLevels.InsertIdentifier | libs/hypertrie/src/dice/hypertrie/internal/raw/node_context/ContextLevelChanges.hpp:94-96 | with RawIdentifier, the node after insertion is the node of the old entries plus the new ones |
| ContextLevels.InsertFnDeltas | libs/hypertrie/src/dice/hypertrie/internal/raw/node_context/ContextLevelChanges.hpp:94-123 | the after-node's FN delta grows by 1 and before's FN delta drops by 1 only when decrementBefore is set |
| ContextLevels.InsertSenDeltas | libs/hypertrie/src/dice/hypertrie/internal/raw/node_context/ContextLevelChanges.hpp:94-123 | the only SEN delta that changes is a decremented SEN before |
| ContextLevels.NoDecrementWithoutFlag | libs/hypertrie/src/dice/hypertrie/internal/raw/node_context/ContextLevelChanges.hpp:103-115 | without decrementBefore no delta except after's changes |
| ContextLevels.FirstChangeKept | libs/hypertrie/src/dice/hypertrie/internal/raw/node_context/ContextLevelChanges.hpp:116-119 | an FN_changes[before][after] already recorded is never overwritten |
| ContextLevels.ChangeRecorded | libs/hypertrie/src/dice/hypertrie/internal/raw/node_context/ContextLevelChanges.hpp:113-119 | inserting into a non-SEN before records the entries as FN_changes[before][after] when none was recorded |
| ContextLevels.SenBecomesFull | libs/hypertrie/src/dice/hypertrie/internal/raw/node_context/ContextLevelChanges.hpp:98-111 | inserting into a SEN before registers after as a new FN built from before's entry and the new entries |
| ContextLevels.ContextLevelChanges.InsertIntoNodeWith | libs/hypertrie/src/dice/hypertrie/internal/raw/node_context/ContextLevelChanges.hpp:94-123 | returns combine(id(entries), before) and changes the members as insert_into_node specifies |
| Moveables.MoveablesAfterHolds | libs/hypertrie/src/dice/hypertrie/internal/raw/node_context/ContextLevelChanges.hpp:133-142 | in whatever order the befores are visited, each visited one gains exactly its unstored afters when its count plus delta is at most 0 |
| Moveables.MoveablesDone | libs/hypertrie/src/dice/hypertrie/internal/raw/node_context/ContextLevelChanges.hpp:131-144 | once every before is visited, moveables_fns holds exactly the marked pairs |
| Moveables.DeltasReadHolds | libs/hypertrie/src/dice/hypertrie/internal/raw/node_context/ContextLevelChanges.hpp:134 | reading fn_deltas[before] keeps every delta and inserts 0 for the missing befores |
| Moveables.MarkUnstored | libs/hypertrie/src/dice/hypertrie/internal/raw/node_context/ContextLevelChanges.hpp:135-141 | the inner loop adds exactly the afters that are not stored |
| Moveables.CalcMoveablesOf | libs/hypertrie/src/dice/hypertrie/internal/raw/node_context/ContextLevelChanges.hpp:131-144 | the loops mark (before, after) iff before's refcount + delta <= 0 and after is not stored; fn_deltas gains the 0 entries read |
| ContextLevels.ContextLevelChanges.CalcMoveables | libs/hypertrie/src/dice/hypertrie/internal/raw/node_context/ContextLevelChanges.hpp:131-144 | moveables_fns becomes what calc_moveables specifies, fn_deltas gains the 0 entries read, and the other members are unchanged |
| NodeStorages.UpdateSen | libs/hypertrie/src/dice/hypertrie/internal/raw/node/NodeStorage.hpp:70-95 | delta 0 changes nothing. For an existing node, the count moves by delta, sen is set to its entry, and the node is deleted exactly when the count reaches 0. An absent node is created with count delta. Counts stay positive |
| NodeStorages.UpdateExisting | libs/hypertrie/src/dice/hypertrie/internal/raw/node/NodeStorage.hpp:77-86 | an update whose count stays positive changes only that node's count |
| NodeStorages.UpdatesAddUp | libs/hypertrie/src/dice/hypertrie/internal/raw/node/NodeStorage.hpp:77-86 | two updates of an existing node add up to one |
| NodeStorages.CreateThenRelease | libs/hypertrie/src/dice/hypertrie/internal/raw/node/NodeStorage.hpp:76-93 | creating a node with count n and releasing n references leaves the storage as it was |
| NodeStorages.NodeStorage.constructor | libs/hypertrie/src/dice/hypertrie/internal/raw/node/NodeStorage.hpp:70-95 | an empty storage |
| NodeStorages.NodeStorage.UpdateOrCreateSen | libs/hypertrie/src/dice/hypertrie/internal/raw/node/NodeStorage.hpp:71-95 | the single-entry nodes and sen change as UpdateSen says; full nodes are kept; no stored count reaches 0 |
| NodeStorages.NodeStorage.LookupSen | libs/hypertrie/src/dice/hypertrie/internal/raw/node/NodeStorage.hpp:105-113 | the stored single-entry node, or None (null) iff absent |
| NodeStorages.NodeStorage.LookupFull | libs/hypertrie/src/dice/hypertrie/internal/raw/node/NodeStorage.hpp:105-113 | the stored full node, or None (null) iff absent |
| NodeStorages.NodeStorage.Lookup | libs/hypertrie/src/dice/hypertrie/internal/raw/node/NodeStorage.hpp:122-139 | an empty identifier gives the empty container; FN identifiers look in the full nodes, the others in the single-entry nodes; absent gives empty |
| NodeStorages.NotFnIsSen | libs/hypertrie/src/dice/hypertrie/internal/raw/node/NodeStorage.hpp:127-132 | a non-empty identifier that is not FN is SEN, as the else branch assumes |
| Products.Range | tests/utils/Product.hpp:81-84 | the candidates min, min + 1, ..., excl_max - 1 (none when excl_max <= min) |
| Products.MakeProduct | tests/utils/Product.hpp:81-84 | product(size, excl_max, min) has tuple size size over [min, excl_max) |
| Products.ProductIterator.constructor | tests/utils/Product.hpp:42-47 | every slot is at the first candidate; ended iff there are no candidates |
| Products.ProductIterator.Next | tests/utils/Product.hpp:53-65 | the positions make one odometer turn (last tuple slot fastest) and the tuple follows them; ended becomes true once all slots wrap around |
| Products.StepWrapsAtLast | tests/utils/Product.hpp:53-65 | a turn reports the end iff every position was at the last candidate |
| Products.StepCounts | tests/utils/Product.hpp:53-63 | a turn counts the positions, read as a base-b number, up by one, wrapping to 0 after the last |
| Products.NumberInjective | tests/utils/Product.hpp:53-63 | two position lists with the same number are equal |
| Products.RunEnumerates | tests/utils/Product.hpp:42-65 | from the start, turn k reaches the k-th tuple without ending, and turn b^n ends back at the start |
| Products.EveryTupleVisited | tests/utils/Product.hpp:42-65 | every tuple of candidates is visited before the end, at the turn given by its number |

## Left out

- Concurrency (bulk inserters, queues), coroutines and generators, floating-point cardinality estimates, allocators and fancy pointers, boost graph wrappers, the update engine (UpdateRequests, ApplyUpdate, insert_impl_RawNodeContext), RawHypertrieContext and EntrySetGenerator are not part of this model. The code under include/Dice/... that newer headers supersede is not modelled either, except for the TaggedPointerWrapper and UndirectedGraph headers.
- Hash functions: the entry hash is a function parameter, and the invertible combine is bitwise exclusive or over a 64-bit word stored as 64 booleans. Subscript::operator!= compares hashes and is not modelled; RawSubscript's element-wise != is.
- RawSliceKey::subkey (RawKey.hpp:101-114) is not modelled: it compares a FixedValue with a position and calls a member that does not exist, so it does not compile.
- RawSliceKey::operator[] (RawKey.hpp:88-96) is sequence indexing with i < fixed_depth, which Dafny's indexing checks. RawKeyPositions::operator[] is the predicate RawKeyPositions.Has.
- RawKeyPositions stores one boolean per position instead of bit pos % 8 of byte pos / 8. The set of positions is the same.
- RawKeys.FixedValuesFaithful: proved only for slice keys of at most 256 parts, because the position is a uint8_t and wraps beyond that.
- Identifiers: only the variant that stores the tag in bit 63 is modelled. The in-place variant for bool-valued depth-1 nodes, which keeps the key part in the word, is left out. Identifiers are values, so "this changes" becomes "a new identifier is returned".
- Identifiers.FromEntriesByAdding: requires that no proper prefix of the entries cancels out to the seed. Below that, addEntry takes an empty identifier for "no entries" and the two constructions differ.
- NodeStorage: nodes are represented only by their entry and reference count, pointers become map values, and node creation and deletion are map updates.
- Subscripts.LonelyNonResultLabels: the converse (every once-occurring non-result label is reported) is proved only for at most 256 operands, because operand positions are stored as uint8_t and wrap.
- Subscripts.Subscript.constructor: the same 256-operand bound applies to its lonely-label clause. cartesian_sub_subscripts (the Cartesian case) and the lazily cached getLabelPossInOperands of Subscript are not modelled. RawSubscripts.GetLabelPossInOperands models the uncached computation.
- Subscripts.FromString: requires every result character to occur in the operand part, where the source only asserts it; a release build would map such a character to label '\0'.
- Products.ProductIterator.constructor: positions are indices into the candidate list instead of C++ iterators. Empty candidates are accepted only with size 0, since `*cbegin()` of an empty vector is undefined.
- TaggedPointers: words are unbounded naturals below 2^64. Masking is `% alignedTo` for the tag and subtraction of the tag for the pointer, which equals `&` with the masks for a power-of-two alignment. The or-ed tags are 0 and 1.
- Edges: the child collections are sets (bool) or maps; their hashing and storage are not modelled.
