# AoliaoDB storage core in Dafny

This project models the storage core of AoliaoDB, a small SQL engine, and
proves properties of the model. It covers four parts:

- The disk-backed B+ tree of namespace `bpt`:
  - keys and their comparison (`key_t`, `keycmp`);
  - the owned byte buffer `value_t` and its file codec;
  - the blocks of the tree file and the byte layout of a leaf;
  - every operation of `bplus_tree`: search, range search, insert with
    leaf and index splits, update, and remove with borrowing and merging.
- `TableDef::calculateRecordSize`.
- The pure parts of `TableManager`:
  - the row codec (`serializeValues`, `deserializeValues`);
  - the WHERE parser, the condition matcher and the field lookup;
  - the join-condition parser;
  - the table-name clean-up of `dropTable`;
  - the record remapping of `rebuildTable`.
- The `TextTable` formatter: cells, rows, column widths, alignments and
  the ruler line.

How the source maps to the model:

- The tree file is a map from offsets to blocks.
- `bplus_tree` is a class. Its fields are that map, the in-memory meta
  block, and the nesting state of the file handle.
- Each operation is a method whose postcondition ties the new file to a
  specification function or predicate of the old one.
- `value_t` and `TextTable` are classes. `TableDef` is a class, because
  `calculateRecordSize` sets its field.
- The table-manager functions are functions, or methods where the source
  loops.

Module by file:

| file | module | contents |
|---|---|---|
| `bytes.dfy` | `Bytes` | bytes, `Option`, little-endian integers |
| `keys.dfy` | `Keys` | `key_t` and `keycmp` |
| `blocks.dfy` | `Blocks` | block datatypes, `upper_bound` / `lower_bound` / `binary_search` |
| `value_buf.dfy` | `ValueBuffer` | `value_t`; a `FILE*` as `Stream` |
| `leaf_codec.dfy` | `LeafCodec` | leaf `map` / `unmap` byte codec |
| `node_ops.dfy` | `NodeOps` | in-node insertion, split, deletion and merge |
| `tree_spec.dfy` | `TreeSpec` | the file, the descent, the leaf chain, search results |
| `range_spec.dfy` | `RangeSpec` | what `search_range` collects |
| `tree.dfy` | `Tree` | class `BPlusTree` and the tree-level lemmas |
| `table_def.dfy` | `TableDefs` | `TableDef`, `calculateRecordSize` |
| `table_manager.dfy` | `TableManager` | the table-manager functions |
| `text_table.dfy` | `TextTables` | class `TextTable` |

Sizes follow the 64-bit Windows build the engine targets:

- `off_t` is 4 bytes, `size_t` 8 bytes, a pointer 8 bytes.
- Meta block: 64 bytes. Internal node: 1024 bytes. Leaf: 1624 bytes.
- `BP_ORDER` is 50.

## Model

| member | source | states |
|---|---|---|
| `Bytes.DecodeEncodeLE` | AoliaoDB/predefined.h:36-88 | a size written little-endian in `w` bytes reads back as the same number |
| `Keys.KeyBuffer` | AoliaoDB/predefined.h:146-150 | the key buffer is 16 bytes; it holds the string, then zeros to the end |
| `Keys.CStringOfTerminated` | AoliaoDB/predefined.h:153-157 | `strlen` of a NUL-terminated buffer stops at the terminator, so it reads back the stored string |
| `Keys.StrCmpZero` | AoliaoDB/predefined.h:153-157 | `strcmp` is 0 exactly on equal strings |
| `Keys.StrCmpAntisymmetric` | AoliaoDB/predefined.h:153-157 | swapping the arguments of `strcmp` negates the result |
| `Keys.StrCmpTransitive` | AoliaoDB/predefined.h:153-157 | `strcmp` order is transitive |
| `Keys.StrCmpIsLex` | AoliaoDB/predefined.h:153-157 | `strcmp` < 0 exactly when the first string is lexicographically smaller |
| `Keys.KeyCmpZeroIffEqual` | AoliaoDB/predefined.h:153-157 | `keycmp` is 0 exactly on equal keys |
| `Keys.ShorterKeyIsLess` | AoliaoDB/predefined.h:153-157 | a shorter key is smaller; `keycmp` then returns the length difference |
| `Keys.KeyCmpSameLength` | AoliaoDB/predefined.h:153-157 | keys of equal length compare lexicographically, in all three outcomes |
| `Keys.KeyCmpAntisymmetric` | AoliaoDB/predefined.h:153-157 | swapping the keys flips the sign of `keycmp` |
| `Keys.KeyLessTransitive` | AoliaoDB/predefined.h:159-175 | the `<` of OPERATOR_KEYCMP is transitive |
| `Keys.KeyTrichotomy` | AoliaoDB/predefined.h:159-175 | any two keys are ordered one way, equal, or ordered the other way, exclusively; `<` is irreflexive |
| `Blocks.UpperBound` | AoliaoDB/bpt.cpp:34-37 | `upper_bound`: every key before the result is not above the key, and the key at the result is above it |
| `Blocks.LowerBound` | AoliaoDB/bpt.cpp:38-41 | `lower_bound`: every key before the result is below the key, and the key at the result is not below it |
| `Blocks.FindIndex` | AoliaoDB/bpt.cpp:34-37 | internal-node `find` searches all entries but the last, so it always names an existing child |
| `Blocks.FindRecord` | AoliaoDB/bpt.cpp:38-41 | leaf `find`: the first record whose key is not below the key |
| `Blocks.BinarySearchIffPresent` | AoliaoDB/bpt.cpp:218 | in a sorted leaf, `binary_search` succeeds exactly when some record has the key |
| `Blocks.FindRecordOfPresent` | AoliaoDB/bpt.cpp:480-482 | in a sorted leaf, `find` lands on the record holding the key |
| `Blocks.UpperBoundOfAbsent` | AoliaoDB/bpt.cpp:735 | for an absent key, `upper_bound` and `lower_bound` agree, so insertion happens where lookup searches |
| `ValueBuffer.EncodeValue` | AoliaoDB/predefined.h:36-53 | `serialize` writes the 8-byte size, then exactly the payload bytes |
| `ValueBuffer.DecodeValue` | AoliaoDB/predefined.h:56-88 | `deserialize` yields a payload that lies in the file right after its size |
| `ValueBuffer.DecodeEncodeValue` | AoliaoDB/predefined.h:36-88 | `deserialize` reads back exactly what `serialize` wrote, wherever it sits in the file |
| `ValueBuffer.Value.constructor` | AoliaoDB/predefined.h:21 | a new value has no buffer and size 0 |
| `ValueBuffer.Value.Clear` | AoliaoDB/predefined.h:28-33 | after `clear` there is no buffer and the size is 0 |
| `ValueBuffer.Value.IsValid` | AoliaoDB/predefined.h:90-93 | true exactly for a buffer of 1 byte up to 1 MiB (exclusive) |
| `ValueBuffer.Value.Serialize` | AoliaoDB/predefined.h:36-53 | fails only without a file; otherwise the file gets the encoding at its position and the position advances past it |
| `ValueBuffer.Value.Deserialize` | AoliaoDB/predefined.h:56-88 | the file is unchanged; on success the value holds the decoded payload in a fresh buffer; on a short read the buffer is null and the call fails |
| `ValueBuffer.Value.Copy` | AoliaoDB/predefined.h:95-103 | a copy gets its own fresh buffer with the same bytes, or stays empty when the source is empty |
| `ValueBuffer.Value.Assign` | AoliaoDB/predefined.h:105-118 | self-assignment changes nothing; otherwise the target holds a fresh copy of the source's bytes, or is empty |
| `ValueBuffer.Value.Move` | AoliaoDB/predefined.h:120-124 | the new value takes over the source's buffer; the source is left empty |
| `ValueBuffer.Value.MoveAssign` | AoliaoDB/predefined.h:126-137 | self-move changes nothing; otherwise the buffer moves over and the source is left empty |
| `LeafCodec.DecodeEncodeOffT` | AoliaoDB/bpt.h:532-553 | an offset written as a 4-byte `off_t` reads back as itself |
| `LeafCodec.EncodeRecord` | AoliaoDB/bpt.h:152-163 | a record takes its 16-byte key buffer plus the 8-byte size plus its value bytes |
| `LeafCodec.DecodeRecord` | AoliaoDB/bpt.h:166-177 | a record read at `pos` ends after `pos`, inside the file |
| `LeafCodec.DecodeEncodeLeaf` | AoliaoDB/bpt.h:474-497 | `map` of a leaf reads back exactly the leaf `unmap` wrote, wherever it sits |
| `LeafCodec.HeaderFields` | AoliaoDB/bpt.h:532-553 | the leaf header holds parent, next, prev and the count, in that order |
| `LeafCodec.LeafEncodingCanOverrun` | AoliaoDB/bpt.h:532-553 | a full leaf of 50 records with 16-byte values encodes to 2020 bytes, more than the 1624-byte leaf block, so it does not satisfy `LeafFits` |
| `LeafCodec.EncodeLeafSize` | AoliaoDB/bpt.h:532-553 | a leaf's encoding is the 20-byte header plus each record's 24 bytes and value; it fits the leaf block exactly when `LeafFits` holds |
| `LeafCodec.SerializeRecord` | AoliaoDB/bpt.h:152-163 | writes the record's encoding at the file position and advances past it |
| `LeafCodec.UnmapLeaf` | AoliaoDB/bpt.h:532-553 | writes the leaf's whole encoding at its offset and answers 0 |
| `LeafCodec.DeserializeRecord` | AoliaoDB/bpt.h:166-177 | succeeds exactly when a record decodes at the position; the result and new position are the decoded ones |
| `LeafCodec.DeserializeRecords` | AoliaoDB/bpt.h:487-494 | reads `n` records in a row, failing exactly when one of them does not decode |
| `LeafCodec.MapLeaf` | AoliaoDB/bpt.h:474-497 | answers 0 with the decoded leaf exactly when a leaf decodes at the offset, else -1 |
| `NodeOps.InsertedIsSortedInsertion` | AoliaoDB/bpt.cpp:716-817 | inserting an absent key into a sorted leaf keeps it sorted and adds exactly that record |
| `NodeOps.InsertedIsFound` | AoliaoDB/bpt.cpp:735-810 | after the insertion, `binary_search` finds the key, at its `upper_bound` position, with the new value |
| `NodeOps.InsertedKeepsOtherKeys` | AoliaoDB/bpt.cpp:716-817 | the insertion keeps every other key, and every record holding one, in the leaf |
| `NodeOps.LeafSplitPoint` | AoliaoDB/bpt.cpp:394-397 | the leaf split point is half the count, one more when the new key goes right |
| `NodeOps.SplitThenInsertIsInsert` | AoliaoDB/bpt.cpp:380-452 | the two halves of a leaf split, concatenated, are the sorted insertion into the whole leaf |
| `NodeOps.LeafSplitSizes` | AoliaoDB/bpt.cpp:380-452 | each half of a leaf split keeps at least half the records, and no record is lost or added but the new one |
| `NodeOps.InsertIndexEntryPlaces` | AoliaoDB/bpt.cpp:897-911 | a separator goes in at `upper_bound` and its new child right after it; all other entries shift |
| `NodeOps.InsertIndexEntryKeepsSeparatorsSorted` | AoliaoDB/bpt.cpp:897-911 | inserting an absent separator keeps the separators sorted |
| `NodeOps.IndexSplitPoint` | AoliaoDB/bpt.cpp:849-870 | the internal split point is half the count, one more when the key goes right, and leaves both halves non-empty |
| `NodeOps.SplitIndexThenInsertIsInsert` | AoliaoDB/bpt.cpp:849-889 | the two halves of an internal split, concatenated, are the entry insertion into the whole node |
| `NodeOps.IndexSplitSizes` | AoliaoDB/bpt.cpp:849-889 | each half of an internal split keeps at least half the entries |
| `NodeOps.RemoveIndexEntryDrops` | AoliaoDB/bpt.cpp:504-512 | removing the entry at `find` drops its separator and the child after it |
| `NodeOps.RemoveLastIndexEntryDrops` | AoliaoDB/bpt.cpp:504-512 | removing the last entry only drops the last child and the last key |
| `NodeOps.DeleteRecordRemovesKey` | AoliaoDB/bpt.cpp:218-229 | deleting the record `binary_search` found removes exactly that key; the leaf stays sorted |
| `NodeOps.DeleteAtKeepsOtherKeys` | AoliaoDB/bpt.cpp:218-229 | the deletion keeps every other key, and every record holding one |
| `NodeOps.MergeLeafsSorted` | AoliaoDB/bpt.cpp:700-704 | merging a leaf with a right sibling whose keys are all larger keeps the records sorted, loses none, and keeps the left leaf's links |
| `RangeSpec.LastSegmentInRange` | AoliaoDB/bpt.cpp:176-184 | the last leaf contributes exactly its records between the left and right keys |
| `RangeSpec.RangeInOneLeaf` | AoliaoDB/bpt.cpp:144-201 | with both keys in one sorted leaf, `search_range` answers that leaf's in-range values in key order, at most `max` of them; `next` says whether any was left out |
| `RangeSpec.NextCorrectedIffMore` | AoliaoDB/bpt.cpp:187-198 | the corrected `next` flag is set exactly when records remain past the first `max` |
| `RangeSpec.NextAsWrittenSound` | AoliaoDB/bpt.cpp:187-198 | the `next` flag as written never claims records that are not there |
| `RangeSpec.NextAsWrittenWhenInside` | AoliaoDB/bpt.cpp:187-198 | the flag as written is right whenever `max` does not fall on a leaf boundary |
| `RangeSpec.NextAsWrittenAt` | AoliaoDB/bpt.cpp:187-198 | the flag as written only looks at the leaf where the copying stopped |
| `RangeSpec.NextAsWrittenMissesBoundary` | AoliaoDB/bpt.cpp:187-198 | leaves [a, b] and [c] with `max` 2: the flag as written is unset although c remains |
| `TreeSpec.SetParentsEffect` | AoliaoDB/bpt.cpp:913-928 | re-parenting succeeds exactly when every child is a node; then only their `parent` fields change |
| `TreeSpec.SetParentsKeepLeaves` | AoliaoDB/bpt.cpp:913-928 | re-parenting keeps the file's offsets, every leaf's records and links, and which blocks are internal |
| `TreeSpec.DescendPath` | AoliaoDB/bpt.cpp:930-943 | `search_index` follows a path of internal nodes; each step takes the child `find` picks |
| `TreeSpec.SearchFindsExactly` | AoliaoDB/bpt.cpp:106-142 | in a sorted leaf, `search` answers 0 exactly when the key is there, and returns that record's value |
| `TreeSpec.ChainRecordsHas` | AoliaoDB/bpt.h:253-285 | a record is collected exactly when it is in some leaf along the walk |
| `TreeSpec.FreshTreeIsEmpty` | AoliaoDB/bpt.cpp:994-1019 | a fresh tree has one empty leaf that every key leads to; `search` fails, and the file is well-formed |
| `Tree.CopyValues` | AoliaoDB/bpt.cpp:169-172 | copies values from `b` until `max` are held or the leaf's range ends; the copied values are the records' values in order |
| `Tree.BPlusTree.Access` | AoliaoDB/bpt.h:457-460 | after the implicit open, a handle is open and the level is at least 1 |
| `Tree.BPlusTree.OpenFile` | AoliaoDB/bpt.h:351-399 | nested opens only count; a first open that succeeds sets level 1, and "wb+" empties the file; a failed one changes nothing |
| `Tree.BPlusTree.CloseFile` | AoliaoDB/bpt.h:401-418 | the level drops by one, never below 0; the handle is released only when level 1 closes |
| `Tree.BPlusTree.CloseTreeFile` | AoliaoDB/bpt.h:231-245 | the handle is closed and the level reset to 0 |
| `Tree.BPlusTree.constructor` | AoliaoDB/bpt.cpp:43-104 | keeps a file that has a meta block; recreates a fresh tree when forced or when there is none; without a handle nothing is touched |
| `Tree.BPlusTree.InitFromEmpty` | AoliaoDB/bpt.cpp:994-1019 | writes the fresh meta block, root and leaf |
| `Tree.BPlusTree.Traverse` | AoliaoDB/bpt.h:253-285 | without a handle, no records; otherwise the records of the leaves along the `next` chain, in order |
| `Tree.BPlusTree.Alloc` | AoliaoDB/bpt.h:421-426 | returns the old `slot` and advances it by the size |
| `Tree.BPlusTree.AllocLeaf` | AoliaoDB/bpt.h:428-433 | counts one more leaf and reserves a leaf-sized block |
| `Tree.BPlusTree.AllocInternal` | AoliaoDB/bpt.h:435-440 | counts one more internal node and reserves an internal-sized block |
| `Tree.BPlusTree.UnallocLeaf` | AoliaoDB/bpt.h:442-445 | counts one leaf less; nothing else changes |
| `Tree.BPlusTree.UnallocInternal` | AoliaoDB/bpt.h:447-450 | counts one internal node less; nothing else changes |
| `Tree.BPlusTree.WriteBlock` | AoliaoDB/bpt.h:518-570 | `unmap` of a block replaces the block at the offset and nothing else; a leaf written must fit its block |
| `Tree.BPlusTree.WriteMeta` | AoliaoDB/bpt.h:518-570 | `unmap` of the meta block stores the in-memory meta at offset 0 |
| `Tree.BPlusTree.WriteParent` | AoliaoDB/bpt.h:518-570 | a header-only `unmap` changes only the node's `parent`; it fails with no change when there is no node |
| `Tree.BPlusTree.WritePrev` | AoliaoDB/bpt.h:518-570 | a header-only `unmap` changes only the node's `prev`; it fails with no change when there is no node |
| `Tree.BPlusTree.SearchIndex` | AoliaoDB/bpt.cpp:930-943 | finds the internal node `Descend` reaches from the root through height - 1 levels |
| `Tree.BPlusTree.SearchLeaf` | AoliaoDB/bpt.cpp:945-958 | finds the child `find` picks in the given internal node |
| `Tree.BPlusTree.SearchLeafOf` | AoliaoDB/bpt.h:303-306 | finds the leaf the key belongs to |
| `Tree.BPlusTree.Search` | AoliaoDB/bpt.cpp:106-142 | answers and returns exactly what the key's leaf holds, as `SearchFindsExactly` characterises |
| `Tree.BPlusTree.Update` | AoliaoDB/bpt.cpp:474-495 | -1 past the last record, 1 when `find` stops at another key, and otherwise 0 with only that record's value replaced |
| `Tree.BPlusTree.ResetIndexChildrenParent` | AoliaoDB/bpt.cpp:913-928 | succeeds exactly when every child is a node; then the file is the re-parented one; leaves' records and links are never touched |
| `Tree.BPlusTree.NodeCreateLeaf` | AoliaoDB/bpt.cpp:960-977 | the new leaf is linked right after the node at the old slot, the old next leaf points back to it, and one leaf more is counted |
| `Tree.BPlusTree.NodeCreateInternal` | AoliaoDB/bpt.cpp:960-977 | the same linking for a new internal node; one internal node more is counted |
| `Tree.BPlusTree.NodeRemoveLeaf` | AoliaoDB/bpt.cpp:979-992 | unlinks the leaf, with `prev` skipping to its next and that next pointing back; one leaf less is counted |
| `Tree.BPlusTree.NodeRemoveInternal` | AoliaoDB/bpt.cpp:979-992 | the same unlinking for an internal node |
| `Tree.BPlusTree.InsertRecordNoSplit` | AoliaoDB/bpt.cpp:716-817 | a full leaf is left alone; otherwise the leaf becomes the sorted insertion of the record |
| `Tree.BPlusTree.NewRoot` | AoliaoDB/bpt.cpp:822-843 | a new root at the old slot holds the key between the two children, which both get it as parent; the height grows by one |
| `Tree.BPlusTree.SplitInternal` | AoliaoDB/bpt.cpp:849-889 | the node keeps the low half and a new right sibling takes the high half of the entry insertion; the middle key is the one pushed up |
| `Tree.BPlusTree.InsertKeyToIndex` | AoliaoDB/bpt.cpp:819-895 | at offset 0 a new root; into a node with room the entry is inserted in place; leaves are never touched |
| `Tree.BPlusTree.SplitLeaf` | AoliaoDB/bpt.cpp:380-452 | on success, the leaf keeps the low half, a new leaf at the old slot takes the high half, and the `next` chain runs through it |
| `Tree.BPlusTree.Insert` | AoliaoDB/bpt.cpp:289-472 | -1 when the open fails; otherwise `InsertOutcome`: 1 and no change for a present key, in-place insertion into a leaf with room, else a leaf split |
| `Tree.BPlusTree.ChangeParentChild` | AoliaoDB/bpt.cpp:683-698 | `Undefined` where no internal node is, offset 0 past the root included; when `find` stops before the last entry, exactly that separator becomes the new key; a 0 answer has changed only separator keys |
| `Tree.BPlusTree.BorrowLeafKey` | AoliaoDB/bpt.cpp:641-681 | a lender at half capacity refuses; otherwise its first (from the right) or last (from the left) record moves to the borrower |
| `Tree.BPlusTree.BorrowInternalKey` | AoliaoDB/bpt.cpp:585-639 | the same for internal nodes; on 1 the whole new file is given (`RightLent`, `LeftLent`): the parent's separator rewritten, the lent child re-parented to the borrower, the shortened lender written back, and nothing else |
| `Tree.BPlusTree.LendFromRight` | AoliaoDB/bpt.cpp:602-634 | the right lender's first entry goes to the end of the borrower and becomes the separator at the lower bound of the borrower's last key; the file after is `RightLent` |
| `Tree.BPlusTree.LendFromLeft` | AoliaoDB/bpt.cpp:613-634 | the left lender's last entry goes in front, the old first entry takes the parent's separator, which becomes the lender's second-to-last key; the file after is `LeftLent` |
| `Tree.BPlusTree.LendChild` | AoliaoDB/bpt.cpp:630-634 | the lent child gets the borrower as parent, then the lender is written back; nothing else changes |
| `Tree.BPlusTree.MergeKeys` | AoliaoDB/bpt.cpp:706-714 | the node takes the sibling's entries after its own, then the sibling is unlinked |
| `Tree.BPlusTree.MergeInternal` | AoliaoDB/bpt.cpp:544-569 | as the parent's last child, the node merges into its left sibling; otherwise its right sibling merges into it |
| `Tree.BPlusTree.RemoveFromIndex` | AoliaoDB/bpt.cpp:497-583 | drops the separator; a root left with one child is collapsed into it; a node left at or above its minimum is written back |
| `Tree.BPlusTree.BorrowForLeaf` | AoliaoDB/bpt.cpp:230-241 | the left sibling is asked first and the right one only when the left refuses; which one lends, and what moves |
| `Tree.BPlusTree.MergeLeaf` | AoliaoDB/bpt.cpp:242-280 | as the parent's last child, the leaf merges into its left sibling; otherwise the right sibling merges into it; one leaf less is counted |
| `Tree.BPlusTree.RemoveUnderflow` | AoliaoDB/bpt.cpp:230-280 | a leaf below its minimum is rebalanced as `LeafRebalanced` describes |
| `Tree.BPlusTree.WalkLeaves` | AoliaoDB/bpt.cpp:157-173 | the walk copies, in order, the first `max` values of the leaves it passes, or all of them when it reaches the right leaf or 0 first |
| `Tree.BPlusTree.RangeTail` | AoliaoDB/bpt.cpp:176-184 | the right key's leaf adds its in-range values until `max` |
| `Tree.BPlusTree.SearchRange` | AoliaoDB/bpt.cpp:144-201 | -1 without a left key or with the keys out of order; otherwise `RangeOutcome`: the first `max` values in range, in order, and the `next` flag |
| `Tree.BPlusTree.RangeWalk` | AoliaoDB/bpt.cpp:157-201 | the walk and the last leaf together give the answer `RangeWalked` describes |
| `Tree.BPlusTree.Remove` | AoliaoDB/bpt.cpp:203-287 | `RemoveOutcome`: -1 and no change when the key is absent; otherwise the record is deleted, and the leaf is written back or rebalanced |
| `Tree.InsertThenSearch` | AoliaoDB/bpt.cpp:453-461 | after an in-place insertion, `search` finds the key with its new value |
| `Tree.InsertKeepsOtherKeys` | AoliaoDB/bpt.cpp:453-461 | an in-place insertion leaves every other key present exactly when it was, with the same value |
| `Tree.InsertKeepsTreeFile` | AoliaoDB/bpt.cpp:453-461 | an in-place insertion keeps the file well-formed: sorted leaves within capacity |
| `Tree.UpdateThenSearch` | AoliaoDB/bpt.cpp:474-495 | after `update` of a present key, `search` returns the new value |
| `Tree.RemoveFindsSearchLeaf` | AoliaoDB/bpt.cpp:203-215 | `remove` reaches the same leaf `search` reads |
| `Tree.RemoveThenSearch` | AoliaoDB/bpt.cpp:218-229 | after the deletion, `search` no longer finds the key it found before, and the leaf stays sorted |
| `Tree.RemoveKeepsOtherKeys` | AoliaoDB/bpt.cpp:218-229 | the deletion leaves every other key present exactly when it was, with the same value |
| `Tree.RemoveKeepsTreeFile` | AoliaoDB/bpt.cpp:218-229 | the deletion keeps the file well-formed |
| `TableDefs.AlignUp` | AoliaoDB/table_def.h:34 | `(x + 3) & ~3` is a multiple of 4 |
| `TableDefs.AlignUpNoWrap` | AoliaoDB/table_def.h:34 | without wrap-around, alignment adds at most 3 bytes |
| `TableDefs.RecordSize` | AoliaoDB/table_def.h:27-45 | the record size is a multiple of 4, and 0 for a table without fields |
| `TableDefs.LayoutBounds` | AoliaoDB/table_def.h:27-45 | the laid-out size is at least the fields' data size, plus at most 3 padding bytes per field |
| `TableDefs.RecordSizeBounds` | AoliaoDB/table_def.h:27-45 | the record size is the data size plus at most 3 bytes per field and 3 at the end |
| `TableDefs.OnlyStoredFieldsCount` | AoliaoDB/table_def.h:30-43 | fields other than INT and VARCHAR take no room, not even padding |
| `TableDefs.TableDef.CalculateRecordSize` | AoliaoDB/table_def.h:27-45 | sets `recordSize` to `RecordSize` of the fields |
| `TableManager.StripQuotes` | AoliaoDB/table_manager.cpp:380-383 | a value opened by a quote loses its first and last characters; any other value is kept |
| `TableManager.StoredText` | AoliaoDB/table_manager.cpp:386-393 | a stored cell is never empty: an empty or NULL value is stored as "NULL" |
| `TableManager.SerializeValues` | AoliaoDB/table_manager.cpp:370-403 | the row is each field's stored text followed by NUL, then one more NUL |
| `TableManager.DeserializeValues` | AoliaoDB/table_manager.cpp:405-451 | the values are `ReadRow` of the data: one per NUL-terminated segment, formatted by field type, stopping at the end of data |
| `TableManager.ReadRowText` | AoliaoDB/table_manager.cpp:405-451 | reading a serialized row gives each stored cell as its field type shows it |
| `TableManager.CanonicalShownBack` | AoliaoDB/table_manager.cpp:380-451 | a value in its displayed form survives storing and reading back |
| `TableManager.SerializeRoundTrip` | AoliaoDB/table_manager.cpp:370-451 | `deserializeValues(serializeValues(row)) == row` for every row in displayed form |
| `TableManager.CanonicalRowShownBack` | AoliaoDB/table_manager.cpp:405-451 | reformatting a row already in displayed form leaves it unchanged |
| `TableManager.WordEnd` | AoliaoDB/table_manager.cpp:194 | a word read by `>>` ends at the first white-space character |
| `TableManager.WordsFrom` | AoliaoDB/table_manager.cpp:194-207 | every word read by `>>` is non-empty and holds no white space |
| `TableManager.ParseWhereClause` | AoliaoDB/table_manager.cpp:184-212 | the conditions are `Conditions` of the clause's words: triples, quotes stripped, continued only after "AND"; none for an empty clause |
| `TableManager.ConditionsOfAndChain` | AoliaoDB/table_manager.cpp:184-212 | parsing the AND-chain of unquoted conditions gives back exactly those conditions |
| `TableManager.FieldIndex` | AoliaoDB/table_manager.cpp:279-287 | -1 exactly when no field has the name; otherwise the first field with it |
| `TableManager.GetFieldIndex` | AoliaoDB/table_manager.cpp:279-287 | the loop returns `FieldIndex` |
| `TableManager.MatchConditions` | AoliaoDB/table_manager.cpp:215-276 | true exactly when every condition holds: a known field, INT compared as numbers, others as strings, and a known operator |
| `TableManager.TrimBlanks` | AoliaoDB/table_manager.cpp:1101-1104 | trimming fails (the source throws) exactly for a text of blanks only |
| `TableManager.ParseJoinWithoutEquals` | AoliaoDB/table_manager.cpp:1093-1095 | a condition without '=' gives two empty field names |
| `TableManager.ParseJoinFails` | AoliaoDB/table_manager.cpp:1097-1104 | the parse fails (the source throws) exactly when the text before or after the first '=' is all blanks |
| `TableManager.ParseJoinOfQualifiedFields` | AoliaoDB/table_manager.cpp:1088-1116 | "t1.f1 = t2.f2" parses to the field names f1 and f2 |
| `TableManager.CleanTableNameFails` | AoliaoDB/table_manager.cpp:54-56 | the clean-up fails (the source throws) exactly for a name of spaces and ';' alone |
| `TableManager.CleanTableNameOf` | AoliaoDB/table_manager.cpp:54-56 | a name surrounded by leading spaces and trailing spaces or ';' comes out unchanged |
| `TableManager.DefaultCell` | AoliaoDB/table_manager.cpp:763-767 | a new column starts with its default value, or "NULL" without one |
| `TableManager.TargetOf` | AoliaoDB/table_manager.cpp:775-787 | an old field lands on the first new field with its name, or with the new name when it is the renamed field; none when no field matches |
| `TableManager.RemapRecord` | AoliaoDB/table_manager.cpp:760-789 | the new record is `Remapped` of the old one |
| `TableManager.FindTarget` | AoliaoDB/table_manager.cpp:775-787 | the inner loop stops at `TargetOf`, or at the end when there is none |
| `TableManager.RemappedCell` | AoliaoDB/table_manager.cpp:760-789 | a new cell holds its default when no old field lands on it, and otherwise the value of the last old field landing on it |
| `TextTables.Grown` | AoliaoDB/TextTable.h:47-50 | the widths grow with zeros to the new row length; existing widths are kept |
| `TextTables.WidenedCovers` | AoliaoDB/TextTable.h:44-53 | after `add`, every width only grew, and the widths cover every cell of the row so far |
| `TextTables.WidthsAfterCovers` | AoliaoDB/TextTable.h:64-78 | after `addRow`, every width only grew, and the widths cover the whole row |
| `TextTables.ColumnMaxIsMax` | AoliaoDB/TextTable.h:132-146 | a column's width bounds every cell of that column, and is some cell's length unless 0 |
| `TextTables.ColumnMaximaCover` | AoliaoDB/TextTable.h:132-146 | the widths `determineWidths` computes cover every row |
| `TextTables.RulerOf` | AoliaoDB/TextTable.h:91-102 | the ruler starts and ends with the corner and has the computed length |
| `TextTables.RulerLengthUncut` | AoliaoDB/TextTable.h:91-125 | with widths below 2^32, the ruler has one corner plus, per column, its width and one corner |
| `TextTables.WithDefaults` | AoliaoDB/TextTable.h:148-160 | every existing alignment is kept; every column below the count without one gets LEFT; nothing else is added |
| `TextTables.Repeat` | AoliaoDB/TextTable.h:118-125 | exactly `times` copies of the character |
| `TextTables.TextTable.constructor` | AoliaoDB/TextTable.h:18-22 | the given characters, with no cells, rows, widths or alignments |
| `TextTables.TextTable.SetAlignment` | AoliaoDB/TextTable.h:24-27 | sets one column's alignment |
| `TextTables.TextTable.Add` | AoliaoDB/TextTable.h:44-53 | appends the cell to the current row and widens its column; the widths keep covering every row |
| `TextTables.TextTable.EndOfRow` | AoliaoDB/TextTable.h:55-62 | a non-empty current row is appended to the rows; the current row is then empty |
| `TextTables.TextTable.AddRow` | AoliaoDB/TextTable.h:64-78 | the cells go after the current row, the widths cover them, and the completed row is appended |
| `TextTables.TextTable.Ruler` | AoliaoDB/TextTable.h:91-102 | the ruler of the current widths |
| `TextTables.TextTable.DetermineWidths` | AoliaoDB/TextTable.h:132-146 | without rows nothing changes; otherwise each column's width is its longest cell over all rows |
| `TextTables.TextTable.SetupAlignment` | AoliaoDB/TextTable.h:148-160 | without rows nothing changes; otherwise the first row's columns get LEFT where unset |
| `TextTables.TextTable.Setup` | AoliaoDB/TextTable.h:85-89 | both of the above |

## Left out

### B+ tree contracts that are weaker than the code

- `Tree.BPlusTree.InsertKeyToIndex`: the split of a full internal node is proved to keep the leaves and the file's formatting. The node contents after a split are stated only in `SplitInternal`.
- `Tree.BPlusTree.Insert`: after a leaf split, the outcome states the two leaf halves and the leaf count. It does not state what the index levels hold.
- `Tree.BPlusTree.RemoveFromIndex`: the borrow and merge of an internal node left below its minimum keep the leaves and the formatting. Their node contents are stated only in `BorrowInternalKey` and `MergeInternal`.
- `Tree.BPlusTree.Remove`: the rebalanced leaf is described, but not the separators updated in the parent.
- `Tree.BPlusTree.WriteBlock`: a leaf write requires the leaf's encoding to fit its 1624-byte block (`LeafCodec.LeafFits`). `unmap` at bpt.h:532-553 writes a longer encoding over the next block; the model does not follow that overrun.
- `Tree.BPlusTree.Update`: requires the updated leaf to fit its block (`UpdateFits`), for the same reason.
- `Tree.BPlusTree.Insert`: requires every leaf it writes to fit its block (`InsertFits`), for the same reason.
- `Tree.BPlusTree.SplitLeaf`: requires both halves to fit their blocks, for the same reason.
- `Tree.BPlusTree.Remove`: requires every leaf it writes to fit its block (`RemoveFits`), for the same reason.
- `Tree.BPlusTree.RemoveUnderflow`, `Tree.BPlusTree.BorrowForLeaf`, `Tree.BPlusTree.BorrowLeafKey` and `Tree.BPlusTree.MergeLeaf`: require the leaves they write to fit their blocks, for the same reason.
- `Tree.InsertThenSearch`, `Tree.InsertKeepsOtherKeys`, `Tree.InsertKeepsOtherKeysInLeaf` and `Tree.InsertKeepsTreeFile`: require the leaf written to fit its block, for the same reason.
- `Tree.UpdateThenSearch`: requires the leaf written to fit its block, for the same reason.
- `Tree.RemoveThenSearch`, `Tree.RemoveKeepsOtherKeys` and `Tree.RemoveKeepsTreeFile`: require the leaf written to fit its block, for the same reason.
- `Tree.BPlusTree.ChangeParentChild`: on `Undefined` nothing is said about the file. The climb past the root maps offset 0, which holds the meta block, and writes back what it read as an internal node (bpt.cpp:686-697); what changes then depends on those bytes.
- `Tree.BPlusTree.BorrowLeafKey`: that the file keeps its offsets and changes only separator keys besides the lender is stated when the answer is not `Undefined`, for the same reason.
- `Tree.BPlusTree.BorrowForLeaf`: the formatting of the file is kept when the answer is not `Undefined`, for the same reason.
- `Tree.BPlusTree.RemoveUnderflow`: the formatting of the file is kept when the answer is 0, for the same reason.
- `Tree.BPlusTree.Remove`: the formatting of the file is kept when the answer is not `Undefined`, for the same reason.
- Tree shape: search order, equal depth and the separator invariants are not proved to survive a split or a merge. `TreeFile` (sorted leaves within capacity) is proved to survive in-place insertion and deletion.

### B+ tree behaviour not modelled

- Fixed capacity: node children are sequences, not `children[BP_ORDER]` arrays. So the model does not show writes past the array:
  - the ones `map` of a leaf makes when its header count is above `BP_ORDER`: it deserializes records from index 50 on into slots past `children`. `LeafCodec.DecodeRecords`, `LeafCodec.DecodeLeaf` and `LeafCodec.MapLeaf` accept any count;
  - the one `remove_from_index` makes at bpt.cpp:508 when the node holds `BP_ORDER` entries and its last entry is removed: `(to_delete + 1)->child` is then `children[BP_ORDER]`;
  - a leaf encoding longer than its block (see `LeafCodec.LeafEncodingCanOverrun`); leaf writes require `LeafFits` instead.
- `ValueBuffer.Value.Deserialize`: when only part of the 8-byte size can be read, the model leaves `size` at 0 (after `clear`). The source leaves it indeterminate: `fread` of a partial element at predefined.h:65-66 may keep the bytes it read.
- `Blocks.FindIndex`: `Blocks.UpperBound` scans for the first separator above the key, where `std::upper_bound` is a binary search. The two agree on partitioned keys, which sorted separators are; on unsorted separators the source's result is undefined and the model picks the first such position.
- `Blocks.FindRecord`: `Blocks.LowerBound` is the same linear refinement of `std::lower_bound`, and agrees with it on partitioned keys.
- `LeafCodec.DecodeRecord`: refuses a 16-byte key buffer with no NUL. The source would copy it into a `key_t` and later run `strlen` and `strcmp` past its end.
- `LeafCodec.MapLeaf`: fails on such a record, for the same reason.
- Unchecked failures: where the source ignores a failed `map` and reads an uninitialised node, the operation answers `Undefined`.
- Implicit open: the open made inside `map`/`unmap` is assumed to succeed. A failure of the open or of I/O is not modelled there.
- Stream I/O: `fseek`, `fread` and `fwrite` are the `Stream` class.
- Flushing, `fsync` and file paths are left out.
- `assert`s are not checked: this is a release build. Unchecked cases they guard answer `Undefined`.
- `Tree.BPlusTree.Traverse`: requires a finite `next` chain ending at 0 and given as a ghost argument.
- `Tree.BPlusTree.SearchRange`: requires a finite `next` chain ending at 0 or at the right key's leaf, also given as a ghost argument. A cyclic chain would loop forever in the source.
- `Tree.BPlusTree.MergeLeaf`: returns failure for an empty left sibling, where the source would read the first key of an empty node.
- Logging, exceptions and debug output: left out. This includes the value dump in `insert` for a present key.
- Trivial accessors:
  - `get_meta`, `get_first_leaf` and `width` return a field;
  - `read_leaf_node` is `MapLeaf`;
  - `open_tree_file` is `OpenFile`.
- Internal nodes and the meta block are raw struct copies, so they have no byte codec.
- The return code of a short `map` read (1 at the meta block, -1 elsewhere) is not a value of the model. Its only caller, the constructor, tests it against 0. So the model reads a missing meta block as "recreate the file", and any other missing block as `Undefined`.
- `off_t` counters in `meta_t` are unbounded integers.
- Keys longer than 15 bytes: not modelled. `strcpy_s` would abort on them.

### Tables and formatting

- `TableManager.MatchConditions`: `stoi` is the parameter `toInt`, so its exceptions on non-numeric text are not modelled.
- `TableManager.StrLess`: compares strings by character code point, like `std::string::compare` on unsigned chars. Locale is ignored.
- `TableManager.RemapRecord`: requires the old record to have at least one value per old field. The source indexes it without a check.
- `TableManager.CleanTableName` and `TableManager.ParseJoinCondition`: return None where the source throws `out_of_range`.
- `TableDefs.TableDef.CalculateRecordSize`: declared field sizes are taken as given. The DATETIME and BOOL types the table manager uses are not declared in `table_def.h`'s enum. The model adds them, and they take no room, like FLOAT and DOUBLE.
- Orchestration: the rest of the table manager is left out because it is file and tree I/O around these functions:
  - table creation, insertion, selection, joins;
  - persistence of table definitions.
- `TextTables.TextTable.Ruler`: a width of 2^32 or more is cut modulo 2^32, because `repeat` takes an `unsigned`. `RulerLengthUncut` gives the length for smaller widths.
- `TextTables.TextTable.SetupAlignment`: the `unsigned` map key is a natural number. Truncation of a column index of 2^32 or more is left out.
- `TextTables.TextTable.DetermineWidths`: requires that no row has more cells than the first. The source would write past the widths vector otherwise.
- `operator<<` of `TextTable`: stream formatting with `setw`; left out.

## Findings

| source | as written | input that shows it | evidently intended | confidence | as-written member | corrected member |
|---|---|---|---|---|---|---|
| AoliaoDB/bpt.cpp:187-198 | `search_range` sets `next` only when records of the leaf where copying stopped were left (`i == max && b != e`) | leaves [a, b] and [c], range a..c, `max` 2: the copying stops exactly at the end of the first leaf, so `next` is false although c is in range | `next` is set whenever records in range remain past the first `max`, including in later leaves | high; not executed | `RangeSpec.NextAsWrittenMissesBoundary` | `RangeSpec.NextCorrectedIffMore` |

The method `Tree.BPlusTree.SearchRange` models the flag as the code computes it (`RangeSpec.NextAsWritten`). The corrected flag is `RangeSpec.NextCorrected`. Two lemmas relate them:

- `RangeSpec.NextAsWrittenSound`: the flag as written is never set wrongly.
- `RangeSpec.NextAsWrittenWhenInside`: the two agree whenever `max` does not fall on a leaf boundary.
