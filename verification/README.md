# Verified model of TVM cells, dictionaries, bags of cells and the ABI type language

This Dafny project models the core of a library for TVM cells and proves what that core is for. Nothing here runs the
library; every statement below is about the model, and the model follows the code branch by branch.

* **Cells and hashes** (`cells`, `cell_hash`, `cell_exotic`, `cell_graph`, `cell_io`). A `Cell` is a tree of bits, a
  level mask and up to four children. `ReprHash`, `HashAt` and `DepthAt` are the recursive specification of hashes and
  depths by level; the finalizer's two loops are proved to compute exactly these, and to feed the hasher exactly the
  bytes the format asks for. SHA-256 is a function parameter. The `Reach` of a cell is its set of subtrees, and
  `CollisionFree` says of such a set that equal hashes belong to equal trees.
* **Pruning and Merkle proofs** (`pruning`, `pruning_invariance`, `merkle_build`, `merkle_depths`, `merkle_proof`,
  `merkle_necessity`, `merkle_sharing`). `PrunedFrom(o, p, d)` says that `p` is `o` with any of its subtrees replaced
  by pruned branches, at Merkle depth `d` and one more below each Merkle cell. Pruned trees answer like the original
  and are still accepted. The proof builder, an explicit-stack walk with a cache of finished cells, produces such a
  tree for every filter exactly when the root is `Safe`: cells worth pruning lie under at most two Merkle cells, and
  none of them is a child of a cell that lies at two Merkle depths. `SharedAcrossDepths` is a root that is not safe
  and whose proof is refused.
* **Dictionaries** (`labels`, `label_choice`, `dict_trie`, `dict_ops`, `dict_laws`, `dict_raw`, `dict_canonical`,
  `dict_success`, `dict_iter`, `dict_order`, `dict_union`, `dict_union_order`, `dict_aug`, `dict_aug_extra`). A root
  cell denotes a finite map through `Lookup`. Insertion and removal are map update and map removal, succeed under
  exact conditions and keep the canonical form; the canonical form of a map is unique, so that the root depends on the
  entries and never on their history. Iterators are state machines whose remaining output is `Rest()`; their whole
  output is the sorted list of entries.
* **Bags of cells** (`boc_fill`, `boc_numbering`, `boc_order`, `boc_cells`, `boc_encode`, `boc_decode`, `boc_format`,
  `boc_round_trip`, `boc_checksum`). Numbering, header, cell records and the decoder, down to the bytes; the file
  format on arbitrary bytes; and the round trip with the exact condition under which it holds.
* **Storage statistics** (`storage_stat`). The stack walk that counts distinct cells up to a limit.
* **ABI types** (`abi_types`, `abi_text`, `abi_round_trip`, `abi_spelling`, `abi_json`, `abi_signature`). Printer,
  parser and the JSON form of named types, each against a grammar of strings.
* **Bit buffers** (`bit_bytes`, `bit_order`, `bit_scan`, `bit_runs`, `bit_builder`, `bit_read`, `bitstring`,
  `bitstring_format`). Byte-wise, word-wise and masked routines refine plain operations on `seq<bool>`, through
  `Window(bytes, start, length)`.

Functions on values are the specification; each method is the imperative code of the source and is tied to one of
these functions, and the lemmas then say what the function means, where it is a format by a description of the bytes
or characters that does not mention it.

Where the code does something other than one would expect, the model keeps the code as it is:

* The Merkle proof builder looks finished cells up by hash alone, although a pruned branch depends on the Merkle
  depth. A cell shared between two depths is taken from the cache at the wrong one, and the proof is then refused
  (`SharedAcrossDepths`; `PrunesWellIffSafe` has the exact condition).
* A root that is added twice is listed twice in the bag but does not make a second cell; with more roots than cells
  the decoder refuses the bag (`DuplicateRootLost`, and the condition in `RoundTrip`).
* The parser of hexadecimal bit strings admits 256 characters. A string of 1021 to 1023 bits is printed with 257
  (`HexRoundTrip`).
* `store_raw` counts the bits of its value in sixteen bits. From eight kilobytes on, a value whose remaining count is
  smaller than the number of bits to store loses its first bits (`RawBitsIntended`, and `LongValueLost` for a value).

## Model

| member | source | states |
|---|---|---|
| CellHash.CheckCell | src/cell/cell_context.rs:76-186 | the validation branches accept exactly the well-formed cells: type, size, references, mask and, for Merkle and pruned cells, the stored hashes and depths |
| CellHash.FeedChildren | src/cell/cell_context.rs:217-233 | all depths go into the hasher before all hashes; fails exactly when some child is at the depth limit |
| CellHash.HashLevel | src/cell/cell_context.rs:192-237 | one turn of the level loop yields the specified hash and depth of that level, and fails exactly when a child is too deep |
| CellHash.HashLevels | src/cell/cell_context.rs:188-238 | the loop pushes one entry per level of the mask, and the list looked up by hash index answers every level 0 to 3 with the recursive specification |
| CellHash.ComputeHashes | src/cell/cell_context.rs:74-241 | succeeds exactly for finalizable cells and says which error otherwise; the list answers all levels; its lowest digest is that of the descriptor, the data and the children's answers, every other one that of the descriptor, the digest below it and the children's answers, byte by byte, and each depth is one above the deepest child |
| CellHash.TypeByte | src/cell/cell_context.rs:90-150 | in an accepted exotic cell the first byte and the descriptor name the same type |
| ExoticCells.ExoticIff | src/cell/cell_context.rs:93-183 | an exotic cell is accepted exactly when it is, bit for bit, the proof of its child, the update between its two children, a library reference, or a pruned branch of the right size |
| Cells.MaskByteRoundTrip | src/cell/mod.rs:1387-1447 | a level mask survives its byte |
| Cells.MaskBits | src/cell/mod.rs:1432-1472 | levels are the bits of the mask byte, joining masks joins levels, and looking through a Merkle cell is a shift by one |
| Cells.HashIndexCounts | src/cell/mod.rs:1422-1429 | the hash index is the number of levels present from one up to the level |
| Cells.HashIndexOfSignificant | src/cell/mod.rs:1427-1434 | a level has the same hash index as the highest level of the mask at or below it |
| Cells.MaskUnionContains | src/cell/builder.rs:1476-1483 | joining the masks of the children contains exactly the levels of some child |
| Cells.BitsOfPack | src/cell/builder.rs:492-557 | the finished data are the bits followed by the completion tag, nothing lost |
| Cells.PackOfBits | src/cell/builder.rs:492-557 | whole bytes are packed as they are |
| Pruning.StoreHashes | src/merkle/pruned_branch.rs:26-30 | the hashes are appended in order and a fourth one does not fit |
| Pruning.WritePruned | src/merkle/pruned_branch.rs:5-37 | the data of a pruned branch: type, new mask, kept hashes, kept depths, with the exact length |
| Pruning.MakePrunedBranch | src/merkle/pruned_branch.rs:5-37 | succeeds exactly when the new mask has as many levels as hashes were kept, which is when no bit lies above the new level |
| Pruning.LengthTells | src/merkle/pruned_branch.rs:5-37 | the length check of the finalizer accepts the written bytes exactly when the cell can be pruned |
| Pruning.CountMatches | src/merkle/pruned_branch.rs:15-26 | kept hashes and mask levels agree in number exactly when the cell can be pruned |
| PruningInvariance.PrunedAnswers | src/merkle/pruned_branch.rs:15-36 | a pruned branch answers, from its own data, every level up to its Merkle depth like the cell it stands for |
| PruningInvariance.PrunedBranchAgrees | src/merkle/pruned_branch.rs:15-36 | a pruned branch is valid, agrees with its original up to the Merkle depth and adds one level only |
| PruningInvariance.DepthFollowsChildren | src/cell/cell_context.rs:188-238 | the depth at any level is one above the deepest child at that very level |
| PruningInvariance.RebuiltAnswers | src/cell/cell_context.rs:188-238 | a cell rebuilt over children that agree one level further keeps its own hash and depth, for every cell type |
| PruningInvariance.RebuiltAgrees | src/cell/cell_context.rs:74-241 | a cell rebuilt over agreeing children is accepted again, Merkle cells above it included |
| PruningInvariance.PruningInvariance | src/merkle/pruned_branch.rs:5-37 | replacing any set of subtrees by pruned branches, through nested Merkle cells, keeps all hashes and depths up to `d` and the validity of the whole tree |
| MerkleBuild.Build | src/merkle/proof.rs:463-574 | the explicit-stack builder with its cache computes the recursive specification of the builder for every filter and option, errors included |
| MerkleProofs.BuiltFollows | src/merkle/proof.rs:486-574 | on a safe root the result follows the filter everywhere: a subtree to be included is in its place, a skipped cell with children (or of more than 288 bits, if large ones count) is pruned for its Merkle depth, every other cell is rebuilt |
| MerkleProofs.IncludedWhole | src/merkle/proof.rs:503-505 | an included subtree is the very subtree of the original, unless two cells differ in storage flags only |
| MerkleProofs.BuiltIsPruned | src/merkle/proof.rs:463-574 | on a safe root the builder fails exactly when the root itself is skipped and may not be, and otherwise returns the root pruned: same hash and depth at level zero, and valid |
| MerkleNecessity.PrunesWellIffSafe | src/merkle/proof.rs:463-574 | for a valid root without levels: every filter makes the builder succeed with a pruning of the root exactly when every cell worth pruning lies where it can be pruned and no cell at two Merkle depths has a child worth pruning |
| MerkleNecessity.NodeShares | src/merkle/proof.rs:493-497 | with a filter that skips one cell, every finished cell holds what the cache has for its children, and nothing finished is replaced |
| MerkleNecessity.MustLieOnce | src/merkle/proof.rs:493-497 | a cell with a child worth pruning that lies at two depths is wrong at one of them when that child is skipped |
| MerkleNecessity.MustBePrunable | src/merkle/proof.rs:512-526 | skipping a cell works only where the cell can be pruned |
| MerkleDepths.PrunableDepth | src/merkle/pruned_branch.rs:9-26 | below a root without levels a cell can be pruned exactly under at most two Merkle cells |
| MerkleDepths.MerkleFreeSafe | src/merkle/proof.rs:463-574 | valid trees without levels and without Merkle cells are safe |
| MerkleProofs.ProofAccepted | src/merkle/proof.rs:151-161 | a proof cell over an agreeing tree is well-formed exactly when the root's own hash is its hash at level zero |
| MerkleProofs.ProofOfBuilt | src/merkle/proof.rs:288-310 | for a safe root without levels the builder succeeds unless the root is skipped and may not be, and the proof is well-formed |
| MerkleSharing.SharedAcrossDepths | src/merkle/proof.rs:493-497 | a valid root with a cell shared between two Merkle depths for which the builder succeeds and its proof is refused |
| MerkleSharing.RootUnsafe | src/merkle/proof.rs:493-497 | that root is not safe |
| MerkleSharing.SharedIsPruned | src/merkle/proof.rs:555-571 | the cached cell is a correct pruning for the depth at which it was built |
| CellIo.CellBuilder.StoreSlice | src/cell/builder.rs:471-487 | appends all bits and references or nothing |
| CellIo.CellBuilder.Build | src/cell/builder.rs:492-557 | an ordinary cell: joins the children's masks, packs the data, and finalizes |
| Labels.LabelRoundTrip | src/dict/mod.rs:584-729 | reading a written label gives it back and consumes exactly its bits, for every label and key width |
| Labels.LabelShortest | src/dict/mod.rs:584-615 | no bit string that reads as the label is shorter than the one written, with the one exception of the empty string when no key bits remain |
| Labels.LabelWritable | src/dict/mod.rs:584-729 | a label is refused exactly when no applicable encoding fits into a cell |
| LabelChoice.LabelLeast | src/dict/mod.rs:584-654 | of all equally short strings that read as the label the written one is the lexicographically least: short before long before same |
| LabelChoice.ParseLabelIff | src/dict/mod.rs:656-729 | a string reads as a label exactly when it has one of the three forms, given bit by bit |
| CellIo.WriteLabel | src/dict/mod.rs:584-615 | writes exactly the label code, or fails exactly when there is none |
| CellIo.WriteLabelParts | src/dict/mod.rs:617-654 | writes for a prefix, a bit and a rest what would be written for the three joined |
| CellIo.ReadLabel | src/dict/mod.rs:656-668 | returns the label and leaves the slice right behind it, with the same error otherwise |
| CellIo.ReadHmlShort | src/dict/mod.rs:688-696 | reads a unary length and that many bits |
| CellIo.WriteSame | src/dict/mod.rs:711-719 | writes the run-length form of a label |
| DictTrie.LookupDefined | src/dict/ops/get.rs:6-56 | every key of the right width has an answer in a well-formed trie |
| DictTrie.CanonicalUnique | src/dict/typed.rs:1730-1743 | two canonical tries with the same entries are the same cell tree |
| DictOps.SplitEdgeCell | src/dict/mod.rs:300-332 | splitting an edge yields the fork of the cut old edge and the new leaf |
| DictOps.RebuildForkCell | src/dict/mod.rs:447-474 | a fork is rebuilt with one branch replaced and the other kept |
| DictOps.RebuildFromStack | src/dict/mod.rs:447-474 | the path to the root is rebuilt segment by segment around the new cell |
| RawDicts.RawDict.Get | src/dict/ops/get.rs:6-56 | the descending loop is `Lookup`; a key of the wrong width is refused |
| RawDicts.RawDict.Set | src/dict/raw.rs:381-410 | set always stores, replace only over a key that is there, add only a key that is not; otherwise it answers false; the map changes at this key only, and not at all on false or on an error |
| RawDicts.RawDict.RemoveKey | src/dict/raw.rs:414-420 | returns the value the map holds for the key and takes the key from the map; on an error the root is unchanged |
| DictOps.InsertInto | src/dict/ops/insert.rs:10-109 | the loop with its stack computes the recursive insertion |
| DictOps.RebuildAsRemoved | src/dict/mod.rs:536-581 | the remaining edge gets the joined label and the remaining branch's payload; the removed cell is handed out by the caller |
| DictOps.RemoveFrom | src/dict/ops/remove.rs:10-43 | search, edge joining and path rebuild compute the recursive removal |
| DictLaws.InsertMeaning | src/dict/ops/insert.rs:10-109 | a successful insertion is map update: the new value at the key, every other key as before |
| DictLaws.InsertRefused | src/dict/mod.rs:246-258 | nothing is changed exactly when the mode forbids it for a key that is present or absent |
| DictLaws.ModeMeaning | src/dict/mod.rs:236-258 | set always changes a trie, replace exactly when the key is present, add exactly when it is absent |
| DictLaws.SplitMeaning | src/dict/mod.rs:300-332 | splitting an edge adds one key and keeps all others |
| DictLaws.MergeMeaning | src/dict/mod.rs:536-581 | joining two edges loses no key of the remaining branch |
| DictLaws.RemoveMeaning | src/dict/ops/remove.rs:10-147 | removal returns the value of the key and takes this key only from the map |
| DictSuccess.InsertSucceeds | src/dict/ops/insert.rs:10-109 | an insertion that the mode permits succeeds exactly when the new leaf can be written and the changed path does not exceed the greatest depth; cutting an edge always leaves room for its rest |
| DictSuccess.RemoveSucceeds | src/dict/ops/remove.rs:10-147 | a removal fails exactly when the joined edge does not fit into a cell, and never makes the trie higher |
| DictSuccess.PieceFits | src/dict/mod.rs:584-615 | a piece of a label takes no more space than the label |
| DictCanonical.InsertCanonical | src/dict/mod.rs:300-332 | insertion keeps the canonical form |
| DictCanonical.RemoveCanonical | src/dict/mod.rs:536-581 | removal keeps the canonical form |
| DictCanonical.InsertThenRemove | src/dict/typed.rs:1730-1743 | adding a new key and removing it gives back the very same root |
| DictCanonical.RunRepresents | src/dict/raw.rs:381-420 | every successful run of sets and removals is the same run on a finite map |
| DictCanonical.RepresentationUnique | src/dict/typed.rs:1730-1743 | a finite map has at most one root |
| DictCanonical.HistoryIndependence | src/dict/typed.rs:1730-1743 | two successful histories with the same final entries end in the same root |
| DictIter.RawIter.Select | src/dict/raw.rs:833-874 | leaving finished forks and entering the next branch does not change what is still to come, and the key builder is the path of the stack |
| DictIter.RawIter.TakeLabel | src/dict/raw.rs:876-911 | reading an edge yields the next entry or opens a fork in the order of the mode |
| DictIter.RawIter.Next | src/dict/raw.rs:816-925 | yields exactly the first of the remaining entries, ends for good after the last one or after an error |
| DictOrder.ModeOrder | src/dict/raw.rs:846-852 | the four modes are the numeric orders on unsigned and two's complement keys and their reverses |
| DictOrder.WalkGood | src/dict/raw.rs:816-925 | the walk below any path yields every entry below it once, sorted, with its full key |
| DictOrder.IterationIsSortedMap | src/dict/raw.rs:816-925 | over a trie the iterator yields exactly the entries of the map, in strict order, without error |
| DictOrder.WalkFails | src/dict/raw.rs:816-925 | the iteration ends with an error exactly when the cells are no trie of this width |
| DictOrder.WalkSound | src/dict/raw.rs:816-925 | what it yields before an error is in the dictionary under that key |
| DictOrder.SortedDistinct | src/dict/raw.rs:816-925 | no key is yielded twice |
| DictUnion.KeyCmpIsOrder | src/dict/raw.rs:1089-1106 | the comparison of the two peeked keys is the order in which each side is iterated |
| DictUnion.Peek | src/dict/raw.rs:1013-1031 | a peeked entry is kept until it is taken, and an exhausted side is not asked again |
| DictUnion.UnionRawIter.PeekBoth | src/dict/raw.rs:1055-1074 | both slots hold the next entries, or the iteration ends with the error of one side |
| DictUnion.UnionRawIter.Next | src/dict/raw.rs:1044-1132 | yields the first step of merging what is left on both sides, and leaves the rest |
| DictUnionOrder.MergePairs | src/dict/raw.rs:1044-1132 | merging two sorted lists yields exactly the keys of either, with both values |
| DictUnionOrder.MergeSorted | src/dict/raw.rs:1044-1132 | the merged keys are strictly ordered |
| DictUnionOrder.UnionIsBothMaps | src/dict/raw.rs:1034-1132 | over two dictionaries every key of either comes once, in order, with exactly what each holds for it |
| DictAug.SkipLabelFull | src/dict/mod.rs:517-525 | skips the label and the two branches of a fork and leaves the extra |
| DictAug.MakeAugFork | src/dict/mod.rs:335-380 | a fork over two branches carries the combination of their extras |
| DictAug.SplitAugEdgeCell | src/dict/mod.rs:335-380 | the split of an augmented edge |
| DictAug.RebuildAugFromStack | src/dict/mod.rs:476-515 | the path is rebuilt with new combinations up to the root |
| DictAug.AugInsertInto | src/dict/ops/insert.rs:114-231 | the loop computes the recursive augmented insertion |
| DictAug.AugRemoveFrom | src/dict/ops/remove.rs:47-147 | search, edge joining and path rebuild compute the recursive augmented removal |
| DictAug.AugSplitMeaning | src/dict/mod.rs:335-380 | after a split every fork's extra is the combination of its branches' extras, and one key was added |
| DictAug.AugInsertMeaning | src/dict/ops/insert.rs:114-231 | the same for a whole insertion, with map update |
| DictAug.AugModeMeaning | src/dict/ops/insert.rs:114-231 | the same three modes for an augmented trie |
| DictAug.AugRemoveMeaning | src/dict/ops/remove.rs:47-83 | removal keeps all combinations and takes one key only |
| DictAugExtra.FoldConcat | src/dict/aug.rs:25-31 | an associative combination folds over a joined list as over its parts |
| DictAugExtra.ExtraIsFold | src/dict/mod.rs:476-525 | the extra of any edge is the in-order fold of all leaf extras below it |
| DictAugExtra.AugDict.UpdateRootExtra | src/dict/aug.rs:188-201 | reads the root extra from the root edge, or the empty one without a root |
| DictAugExtra.AugDict.Insert | src/dict/aug.rs:572-598 | stores, replaces or adds as the mode says; a change updates the map at one key and leaves the root extra equal to the fold of all leaves; after an error the extra is as before, and so is the root unless its new extra could not be read |
| DictAugExtra.AugDict.Remove | src/dict/aug.rs:600-621 | the same for a removal, which returns the value of the key |
| BocFill.BocHeader.AddRoot | src/boc/ser.rs:175-178 | numbers a root's tree and appends its number to the root list |
| BocFill.BocHeader.Fill | src/boc/ser.rs:402-418 | a known tree gets its old number, a new one is numbered by recursion or by stack, whichever its depth asks for, with the same result |
| BocFill.BocHeader.FillRecursive | src/boc/ser.rs:420-434 | the recursive numbering, from any state |
| BocFill.BocHeader.FillDeep | src/boc/ser.rs:437-462 | the stack numbering leaves the very same state as the recursive one, for every tree and every prior state |
| BocFill.FillRoots | src/boc/ser.rs:71-105 | a header filled with a list of roots |
| BocNumbering.NumberKeeps | src/boc/ser.rs:420-434 | the indices stay the inverse of the cell list, no cell is listed twice, children come before parents, and the given cell comes last |
| BocNumbering.NumberRefsKeeps | src/boc/ser.rs:437-462 | the same for the children from any position on |
| BocNumbering.FilledKeeps | src/boc/ser.rs:402-462 | after any list of roots the numbering holds and the reference count is at least the cell count less the roots |
| BocOrder.FilledInOrder | src/boc/ser.rs:402-462 | the cells are listed in post-order over the roots in turn, each where it is first met |
| BocCells.UintRoundTrip | src/boc/de.rs:341-361 | a number written in n bytes reads back modulo 256^n |
| BocCells.BytesToFit | src/boc/ser.rs:493-495 | the byte width is enough for the number and no smaller width is |
| BocCells.DescriptorFields | src/boc/ser.rs:363-389 | the two written descriptor bytes carry every field of the cell |
| BocCells.StoredAt | src/boc/ser.rs:363-389 | stored hashes and depths stand behind the descriptor, one of each for every level present |
| BocCells.DataBitsOfPack | src/boc/de.rs:396-455 | the data bits are recovered from the padded bytes, and a written tag is never one the reader refuses |
| BocCells.ReadRefsBack | src/boc/de.rs:396-455 | child indices lead back to the finished cells |
| BocCells.ReadRawBack | src/boc/de.rs:459-521 | the reader finds the end of a written cell whatever follows, and refuses exactly the cells it should |
| BocCells.FromRawBack | src/boc/de.rs:396-455 | a written and read cell is the same but for its resolved children |
| BocEncode.LittleEndianRoundTrip | src/boc/ser.rs:392-400 | the checksum bytes spell the checksum |
| BocEncode.ComputeStats | src/boc/ser.rs:294-327 | widths and sizes announced by the encoder |
| BocEncode.EncodeHeader | src/boc/ser.rs:330-360 | header bytes, with roots counted from the end |
| BocEncode.EncodeCell | src/boc/ser.rs:363-389 | the record of one cell |
| BocEncode.EncodeCellsChunk | src/boc/ser.rs:363-389 | the records of a chunk, last cell first |
| BocEncode.Encode | src/boc/ser.rs:197-207 | appends header, cells and the checksum of what was appended |
| BocDecode.DecodeLayout | src/boc/de.rs:38-99 | tag, flags and widths are read and checked in the order of the code |
| BocDecode.DecodeRootList | src/boc/de.rs:173-191 | the root list, each root checked against the cell count |
| BocDecode.ReadCellList | src/boc/de.rs:207-223 | cuts the cell records |
| BocDecode.DecodeCellList | src/boc/de.rs:193-249 | the cell part with its checksum |
| BocDecode.DecodeHeader | src/boc/de.rs:38-250 | the advancing reader computes the decoding specification, with the same error at the same place |
| BocFormat.DecodeIff | src/boc/de.rs:38-250 | on arbitrary bytes: the decoder returns a header exactly when the file has the format, stated by byte positions: tag, flags, widths, counts and their bounds, roots, records that fill the announced size, and the checksum where one is announced |
| BocFormat.FinalizeIff | src/boc/de.rs:253-455 | the trees are built exactly when every record describes its tree field by field, children come later in the file, and the finalizer accepts all cells |
| BocDecode.RawCellFits | src/boc/de.rs:396-455 | no raw record describes more than a cell can hold |
| BocDecode.FinalizeCells | src/boc/de.rs:253-279 | assembles the trees from the last record to the first |
| BocDecode.FinalizeLength | src/boc/de.rs:253-279 | one tree for every record |
| BocRoundTrip.CellsBytesLength | src/boc/ser.rs:294-327 | the cell records take exactly the bytes the announced totals promise |
| BocRoundTrip.TotalsFit | src/boc/de.rs:147-171 | the widths are the least that hold the numbers, between 1 and 4 and between 1 and 8, and the decoder's lower and upper bounds on the total size are met |
| BocRoundTrip.DecodeBack | src/boc/de.rs:38-250 | the decoder accepts a written bag exactly when its limits admit the roots and no cell is refused, whatever bytes follow |
| BocRoundTrip.RoundTrip | src/boc/de.rs:38-279 | decoding an encoded list of valid roots gives back the same trees in order exactly when there are between one and the allowed number of roots, no more than cells, and no refused cell |
| BocChecksum.ChecksumGuards | src/boc/de.rs:231-243 | an acceptable bag with any other four bytes in the place of its checksum is refused for its checksum |
| BocChecksum.EncodedLength | src/boc/ser.rs:294-327 | the announced size of the whole bag is the number of bytes written |
| BocRoundTrip.EmptyRejected | src/boc/de.rs:88-90 | a bag without roots is refused because of its reference size |
| BocRoundTrip.DuplicateRootLost | src/boc/ser.rs:175-178 | the empty cell added twice as a root does not come back |
| CellGraph.ReachLeast | src/cell/mod.rs:1829-1854 | the subtrees of a cell are the least closed set that holds it |
| CellGraph.EraseAnswers | src/cell/cell_context.rs:188-238 | the store-hashes flag changes no hash and no depth |
| StorageStats.StorageStat.AddCell | src/cell/mod.rs:1805-1816 | adds the distinct cells of a tree to those counted, and fails exactly when the limit is exceeded |
| StorageStats.StorageStat.AddSlice | src/cell/mod.rs:1821-1827 | the same for a slice, whose own bits always count |
| StorageStats.StorageStat.ReduceStack | src/cell/mod.rs:1829-1854 | the stack loop ends on every tree, counts each distinct cell once, and stops exactly when the limit would be exceeded |
| StorageStats.ComputeForCell | src/cell/mod.rs:1773-1780 | cell count and bit sum of the distinct cells, exactly when these are at most the limit, or one |
| StorageStats.ComputeForSlice | src/cell/mod.rs:1758-1768 | the same for a slice without a cell of its own |
| StorageStats.DistinctUniverse | src/cell/mod.rs:1829-1854 | among trees whose hashes do not collide, visited hashes stand for visited cells |
| AbiTypes.ParseUintDecimal | src/abi/ty.rs:572-652 | a printed number parses back below its bound |
| AbiTypes.DecimalInjective | src/abi/ty.rs:667-703 | different numbers print differently |
| AbiTypes.Fmt | src/abi/ty.rs:667-703 | appends the full signature to the formatter |
| AbiTypes.FmtTuple | src/abi/ty.rs:682-694 | the loop with its first-item flag writes all items with commas between them |
| AbiText.ShowIff | src/abi/ty.rs:667-703 | the printer writes exactly the signature that a grammar of strings assigns to the type |
| AbiRoundTrip.PlainRoundTrip | src/abi/ty.rs:900-910 | key types parse back |
| AbiRoundTrip.SimpleRoundTrip | src/abi/ty.rs:572-652 | the short form parses to the type without its tuple items, for every nesting |
| AbiSpelling.ParseIff | src/abi/ty.rs:572-652 | the parser accepts exactly the texts of a grammar of strings, as the types they spell |
| AbiRoundTrip.ComponentsBack | src/abi/ty.rs:436-458 | taking the components out and putting them back is the identity, and only tuples below arrays, maps, optionals and refs have any |
| AbiRoundTrip.JsonRoundTrip | src/abi/ty.rs:71-154 | every named type survives its JSON form |
| AbiJson.FromJsonIff | src/abi/ty.rs:94-154 | reading gives a named type exactly when the object has its name, its text, and its items where there is a tuple |
| AbiSignature.SignatureUnambiguous | src/abi/ty.rs:725-761 | two types have equal signatures exactly when they are equal without names |
| BitOrder.LexIsNumeric | src/cell/slice.rs:771-804 | strings of one length compare like the numbers they spell |
| BitOrder.LexFirstDiffers | src/cell/slice.rs:785-797 | the first pieces that differ decide |
| BitScan.LongestCommonDataPrefix | src/cell/slice.rs:947-1029 | the length of the longest common prefix of two windows at any alignment, capped by both lengths and the hint |
| BitRuns.BitsMemscan | src/cell/slice.rs:1982-2062 | leading bits equal to a given one, however bytes and words divide the data |
| BitRuns.ScanBytes | src/cell/slice.rs:2010-2061 | the byte phase, up to a word boundary or to the end |
| BitRuns.BitsMemscanRev | src/cell/slice.rs:2067-2124 | trailing bits equal to a given one |
| BitRuns.TestUniform | src/cell/slice.rs:1097-1160 | the common bit exactly when the window is not empty and all its bits are equal |
| BitRead.GetSmallUint | src/cell/slice.rs:1450-1487 | the big-endian value of up to eight bits of the window, or an underflow exactly when they are not there |
| BitRead.GetUint | src/cell/slice.rs:1504-1551 | the same for up to 64 bits |
| BitRead.GetRaw | src/cell/slice.rs:1638-1700 | at offset zero: the bytes written spell the next bits with a cleared tail, and no other byte is touched |
| BitRead.LoadRaw | src/cell/slice.rs:1704-1712 | the target starts with the next bits, left aligned, and the window moves behind them; on an underflow nothing moves |
| BitRead.LexCompare | src/cell/slice.rs:771-804 | comparing 32 bits at a time is the lexicographic order, a proper prefix being smaller |
| BitBuilder.CellDataBuilder.StoreRaw | src/cell/builder.rs:1387-1453 | appends the raw bits at any alignment and leaves everything behind them zero; nothing changes on overflow |
| BitBuilder.CellDataBuilder.StoreBit | src/cell/builder.rs:899-931 | appends one bit |
| BitBuilder.CellDataBuilder.StoreZeros | src/cell/builder.rs:882-889 | appends zeros without writing |
| BitBuilder.CellDataBuilder.StoreUint | src/cell/builder.rs:1079-1134 | appends the low bits of a 64-bit number, zero-padded when wider |
| BitBuilder.CellDataBuilder.StoreWide | src/cell/builder.rs:749-777 | appends a number of a whole number of bytes at any alignment |
| BitBuilder.CellDataBuilder.StoreSmallUint | src/cell/builder.rs:1036-1073 | appends the low bits of a byte, zero-padded when wider |
| BitBuilder.CellDataBuilder.RewindBits | src/cell/builder.rs:851-878 | takes the last bits away and clears them |
| BitBuilder.CellDataBuilder.PrependRaw | src/cell/builder.rs:1352-1383 | puts raw bits in front of what is there |
| BitBuilder.RawBitsMeaning | src/cell/builder.rs:1387-1453 | as long as the bit length of the value survives the cut to sixteen bits, the stored bits are the first bits of the value, or all of it behind zeros |
| BitBuilder.RawBitsIntended | src/cell/builder.rs:1394-1400 | all values of one length are stored as intended exactly when that length is below eight kilobytes or enough bits are left of it after the cut |
| BitBuilder.LongValueLost | src/cell/builder.rs:1387-1400 | of eight kilobytes of ones the first byte is stored as zeros |
| Bitstrings.FmtHex | src/util.rs:424-471 | the chunked printer writes the specified text |
| Bitstrings.FromHexStr | src/util.rs:364-422 | the parser computes the specified result |
| HexFormat.ShowHexIs | src/util.rs:424-471 | for all bytes and lengths: one digit for every four bits, upper or lower case, then one for the rest with a tag, and an underscore |
| HexFormat.ParseHexIff | src/util.rs:364-422 | the parser returns exactly what a text of at most 256 characters spells, with the tag removed if it asks for that |
| Bitstrings.HexRoundTrip | src/util.rs:364-471 | printed bits parse back, with a cleared tail, exactly when there are at most 1020 of them or 1024 |

## Left out

- MerkleBuild.Build: the set of pruned branches that the builder can record besides is not modelled.
- Pruning.MakePrunedBranch: Merkle depths from eight on, at which the shift leaves its byte, are not modelled; the builder's specification refuses to prune there.
- BitRead.GetRaw: modelled at offset zero only, as `load_raw` calls it.
- BitRead.LexCompare: the 32-bit read is the 32-bit case of `get_uint`.
- BocRoundTrip.RoundTrip: bags of at least 2^32 cells and 64-bit size overflow are not modelled; hashes are assumed not to collide on the cells concerned.
- Cell contexts other than the empty one: library resolution, gas, and virtual cells.
- The data-length and completion checks of the finalizer on malformed parts: parts are built by the builder and the decoder only, which keep them; absent cells are refused by the decoder model.
- SHA-256 and CRC32C are function parameters.
- The recorded subtrees of a Merkle filter that includes whole subtrees at once, the parallel builders, and the Merkle update builder.
- Dictionary drivers that build, merge, split, modify in bulk, or find by bound or by extra; they use the same edges and labels.
- Dictionary code works on bit sequences with capacity checks; that the byte buffers refine such sequences is proved in the bit-buffer modules and not linked again at each call.
- `RawValues`, `RawKeys` and the owned iterators: the first keeps a shorter state and the others wrap `RawIter`.
- Parallel and streaming encoders of bags of cells.
- `get_u256`, `store_u256`, big integers and var-integers.
- `components_mut` edits in place; the model replaces the components by a functional update.
- The text layer of JSON, the ABI value serializer, type hashing and size bounds.
- The usage tree, procedural macros, base64, signatures and message building.
