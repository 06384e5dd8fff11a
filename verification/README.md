# luffy B-tree core in Dafny

A model of the storage core of luffy, a disk-based key/value store in Go built on a B-tree. The model covers five parts:

- **The node page codec** (node.go). `serialize` writes a node's leaf flag and item count, then each item's child pointer (internal nodes only) and its 2-byte record offset, from a left cursor at the start of the page. Length-prefixed key/value records are packed downward from a right cursor at the end of the page. An internal node's last child pointer closes the left region. `deserialize` reads the page back, appending to the node it is given.
- **The lookups in node.go.** `findKeyInNode` scans a node linearly. `findKeyHelper` descends from a node through child pages.
- **The fixed-layout node of btree.go.** This is a separate layout, `type | nkeys | pointers | offsets | key-values`, with its accessors. They are modelled as written, defects included.
- **The free list and the meta record** (freelist.go, meta.go). The free list is the page allocator: a stack of released pages plus a high-water mark. The meta record holds the free list's page number.
- **The collection operations** (collection.go). `Find` descends from the root. `getNodes` turns a list of child indexes into the path of nodes. `Put` has four stages:
  1. bootstrap an empty tree;
  2. descend;
  3. overwrite or insert;
  4. rebalance bottom-up, then grow a new root.

How Go maps to Dafny:

- Every Go panic (an index out of range, a short buffer) is `Err(Panic)`.
- A missing page is `Err(IoError)`.
- Go's fixed-width arithmetic is written out: `uint16` positions wrap through `Bytes.Wrap16`, and the `uint64` page increment wraps modulo 2^64.
- `Collections.RebalanceSpec`: the store each split runs on is stated only to exist, and the store after a loop that split something is not stated. The function threads the stores in the loop's order, but the contract does not say so. What `split` itself does to a child or the store is not modelled.
- A slice's capacity is taken to be its length.
- The page store is a map from page number to node.
- Recursion over the tree carries a `fuel` bound. Exhausting it is `Err(DepthExceeded)`.
- The collection's operations that collection.go does not define are fields of `Collections.Env` over an abstract store: the four-result `findKey(key, exact)`, `addItem`, `isOverPopulated`, `split`, `newNode` and `writeNode`.

Files: results.dfy, bytes.dfy, node_codec.dfy, node_codec_proofs.dfy, node_search.dfy, bnode.dfy, freelist.dfy, meta.dfy, collection.dfy.

Some behaviour of the Go code is easy to miss, and the model keeps it as written:

- **Field order in a record.** node.go:70-80 stores the key's length byte and the key at the lower addresses, then the value's length byte and the value. node.go:112-122 reads them back in that order.
- **The meta record.** meta.go:25-29 reads the eight bytes but never stores them, so the free-list page number does not come back from a page (see Findings).
- **`Put`'s failure modes.** Besides page read and write errors, `Put` panics on a key greater than every key of a non-empty target node (collection.go:78, see Findings). It swallows a write error while bootstrapping an empty tree (collection.go:60-62).
- **`init`'s node size.** The size of a one-key node of maximum sizes in btree.go:113 is 4 + 8 + 2 + 4 + 1000 + 3000 = 4018 bytes. That fits the 4096-byte page.

## Model

Helpers without rows: the translations of Go's built-ins in `Bytes` (`At`, `Slice`, `Copy`, `LE`, `FromLE`, `ReadU16`, `ReadU64`, `Wrap16`), and `BNodeLayout.PtrPos`. Their behaviour is stated through the rows for `Bytes.Put`, `Bytes.ReadU16Of`, `Bytes.FromLEOfLE` and `BNodeLayout.PtrPosPastHeader`, and through the members that use them.

| member | source | states |
|---|---|---|
| Bytes.Compare | node.go:150 | `bytes.Compare` gives -1, 0 or 1, and gives 0 exactly when the keys are equal |
| Bytes.Put | node.go:47-51 | a store into a page panics unless its whole window fits, and changes exactly the bytes of the window |
| Bytes.ReadU16Of | node.go:109 | a 16-bit value stored little-endian (alone or as the low bytes of an 8-byte store) reads back with `Uint16` |
| Bytes.FromLEOfLE | node.go:51 | decoding a little-endian encoding gives back any value that fits the width |
| NodeCodec.Serialize | node.go:36-89 | as written; the page keeps its length, and `SerializeLayout` states what it contains |
| NodeCodec.NewEmptyNode | node.go:21-23 | a new node is a leaf with no items |
| NodeCodec.SerializeItems | node.go:54-81 | the item loop keeps the page length, moves the left cursor by 2 per item for a leaf and 10 per item for an internal node, and moves the right cursor down by at least 2 per item |
| NodeCodec.WriteItem | node.go:55-80 | one iteration moves the left cursor by 2 (leaf) or 10 (internal), moves the right cursor down by the record's size, and panics on an internal node without child i |
| NodeCodec.WriteChildPointer | node.go:57-61 | a leaf stores nothing and keeps the cursor. For an internal node, a missing child i panics; otherwise the store succeeds exactly when 8 bytes fit at the left cursor, and the left cursor moves by 8 |
| NodeCodec.WriteOffset | node.go:66-68 | the offset store leaves the right cursor alone and keeps the page length |
| NodeCodec.WriteRecord | node.go:70-80 | the record stores keep the left cursor and the page length |
| NodeCodec.Deserialize | node.go:91-131 | the target node's page number is kept; `RoundTrip` states what is read |
| NodeCodec.DeserializeItems | node.go:99-125 | the read loop moves the left cursor by 2 (leaf) or 10 (internal) per item, appends one item per pass, and one child pointer per pass for an internal node only |
| NodeCodec.ReadItem | node.go:99-124 | one pass moves the left cursor by 2 or 10, keeps the items gathered so far and appends one whose key and value are shorter than 256 bytes; a leaf's child pointers are kept |
| NodeCodec.ReadChildPointer | node.go:101-106 | a leaf reads nothing. An internal node's read succeeds exactly when 8 bytes fit at the left cursor, appends the little-endian number there to the child pointers, and moves the cursor by 8 |
| NodeCodec.ReadRecord | node.go:112-122 | a record read starts with the key-length byte at the offset, and its key and value are shorter than 256 bytes |
| NodeCodecProofs.HeaderLays | node.go:40-52 | on an encodable node, byte 0 gets the leaf flag (1 for a leaf, 0 otherwise) and bytes 1-2 get the item count; nothing else changes |
| NodeCodecProofs.ChildPointerSpec | node.go:57-61 | an internal node's child pointer lands at the left cursor as 8 little-endian bytes, and no other byte changes |
| NodeCodecProofs.OffsetSpec | node.go:66-68 | the offset is stored as 8 bytes, but the left cursor advances by only 2 |
| NodeCodecProofs.WriteRecordSpec | node.go:70-80 | the record lands just below the right cursor as key length byte, key, value length byte, value. The right cursor drops by the record's size, and nothing outside the record changes |
| NodeCodecProofs.WriteItemSpec | node.go:54-81 | one loop iteration stores item i's pointer, offset and record at their places in the layout, and touches no other byte |
| NodeCodecProofs.SerializeItemsLays | node.go:54-81 | the item loop succeeds on an encodable node and lays out every item as the layout describes |
| NodeCodecProofs.FinishLeaf | node.go:83-88 | a leaf's page is finished after the loop; the six bytes past its last offset are zero, from the high bytes of the 8-byte offset store |
| NodeCodecProofs.HighBytesZero | node.go:67 | an 8-byte store of a value below 2^16 leaves its six high bytes zero |
| NodeCodecProofs.FinishInternal | node.go:83-86 | an internal node's last child pointer is stored after the last offset, completing the page |
| NodeCodecProofs.SerializeLayout | node.go:36-89 | `serialize` succeeds on an encodable node. The page then holds the header, every pointer, every offset (pointing at its record) and every record packed downward from the second-to-last byte. The bytes between the two regions and the last byte are left as they were |
| NodeCodecProofs.OffsetStoreNeedsRoom | node.go:66-68 | the 8-byte offset store panics on a 10-byte page that a one-item leaf would fit with 2-byte slots |
| NodeCodecProofs.ReadRecordSpec | node.go:112-122 | a record stored at a position where the 16-bit arithmetic does not wrap reads back as the item stored |
| NodeCodecProofs.ReadItemSpec | node.go:99-125 | one pass of the read loop appends the item whose record the stored offset points at, and moves the left cursor past the offset |
| NodeCodecProofs.ReadItemAt | node.go:99-125 | the read loop reads item i's child pointer (internal nodes) and the item back from their stored places |
| NodeCodecProofs.DeserializeItemsReads | node.go:99-125 | the read loop over a page whose items all read back appends exactly those items, and their child pointers, to what it had gathered |
| NodeCodecProofs.HeaderReads | node.go:94-97 | the stored leaf flag and item count read back |
| NodeCodecProofs.DeserializeReads | node.go:91-131 | `deserialize` of a page whose header, items and last pointer read back appends all the node's child pointers and items to the target's |
| NodeCodecProofs.NearlyFullLeafRoundTrips | node.go:66-80 | a one-item leaf on a 12-byte page, whose 8-byte offset store runs into its record, is outside the encodable bound yet serializes and reads back as itself |
| NodeCodecProofs.NearlyFullLeafWrites | node.go:66-80 | that leaf is written as flag 1, count 1, offset 9, and zeros through byte 10: the record's two length bytes land on the store's zero high bytes |
| NodeCodecProofs.NearlyFullLeafReads | node.go:91-125 | that page reads back as the one-item leaf with empty key and value |
| NodeCodecProofs.RoundTrip | node.go:36-131 | for every encodable node and page, `deserialize(serialize(n))` into any node appends exactly n's child pointers and items to it, and keeps its page number |
| NodeCodecProofs.RoundTripEmpty | node.go:36-131 | into an empty node, the round trip gives back exactly n's child pointers and items |
| NodeSearch.FindKeyInNode | node.go:148-160 | every key before the returned index is smaller than the key. A hit means the key at the index is equal; a miss inside the items means it is greater; otherwise the index is the item count |
| NodeSearch.FindKeyInNodeSorted | node.go:148-160 | on sorted keys, the scan hits exactly when the key is present, and the index is the number of keys smaller than the key (the insertion point) |
| NodeSearch.GetNode | node.go:144-146 | a page lookup succeeds exactly when the page exists, and returns that page's node |
| NodeSearch.FindKeyHelper | node.go:171-185 | the index is -1 exactly when no node is returned. A returned node holds the key at the returned index, and that item is stored in the subtree the descent started from |
| NodeSearch.FindKey | node.go:162-169 | the same guarantees as the descent it wraps |
| NodeSearch.SubtreeWithin | node.go:171-185 | every key of an ordered subtree lies between the subtree's bounds |
| NodeSearch.OnlyChildAtInsertion | node.go:172-179 | a key missing from an ordered internal node can only be under the child at its insertion point |
| NodeSearch.ItemKeyInSubtree | node.go:171-185 | an item stored in a subtree puts its key in that subtree |
| NodeSearch.WithinChildNotKey | node.go:172-179 | a key between the bounds of one child of a sorted node is none of the node's keys |
| NodeSearch.ItemUnderInsertionChild | node.go:172-179 | an item stored under an ordered node but not in it sits under the child at its key's insertion point |
| NodeSearch.OrderedKeysUnique | node.go:171-185 | an ordered tree stores at most one item per key |
| NodeSearch.FindKeyHelperCorrect | node.go:171-185 | on an ordered tree the descent never fails, and it reports -1 exactly when the key is nowhere in the subtree |
| BNodeLayout.BType | btree.go:35-37 | `btype` reads bytes 0-1 and panics on a shorter buffer |
| BNodeLayout.NKeys | btree.go:39-41 | `nkeys` reads bytes 2-3 and panics on a shorter buffer |
| BNodeLayout.SetHeader | btree.go:43-46 | `setHeader` panics exactly on a buffer shorter than the header, and keeps the length |
| BNodeLayout.SetHeaderReads | btree.go:35-46 | after `setHeader(t, k)`, `btype` is t and `nkeys` is k, and no byte past the header changes |
| BNodeLayout.GetPtr | btree.go:48-54 | as written, `getPtr` panics for every index below `nkeys`, and succeeds exactly for an index at or past `nkeys` whose 8 bytes fit the buffer |
| BNodeLayout.SetPtr | btree.go:56-62 | as written, `setPtr` panics for every index below `nkeys`, succeeds exactly for an index at or past `nkeys` whose 8 bytes fit the buffer, and keeps the length |
| BNodeLayout.OffsetPos | btree.go:64-69 | the guard never fires: the position exists whenever `nkeys` can be read. Slot `index >= 1` is at `4 + 8*nkeys + 2*(index-1)` when nothing wraps, and slot 0 wraps to the two bytes before the offset array |
| BNodeLayout.GetOffset | btree.go:71-76 | offset 0 is 0 without reading the page; any other offset reads exactly when its 2-byte slot fits the page |
| BNodeLayout.SetOffset | btree.go:78-80 | `setOffset` succeeds exactly when its 2-byte slot fits the page, and keeps the length |
| BNodeLayout.KvPos | btree.go:82-87 | `kvPos` panics past `nkeys`, succeeds exactly when the index is at most `nkeys` and its offset reads, and without wrap-around lies at or past the end of the offset array |
| BNodeLayout.GetKey | btree.go:89-96 | `getKey` panics at or past `nkeys`, and a key returned is as long as the 2-byte key length stored at `kvPos(index)` |
| BNodeLayout.GetVal | btree.go:98-106 | `getVal` panics at or past `nkeys`, and a value returned is as long as the 2-byte value length stored after the key length |
| BNodeLayout.NBytes | btree.go:108-110 | `nbytes` exists exactly when `nkeys` and the last offset read, and without wrap-around it is the header, the pointer and offset arrays, and the last offset |
| BNodeLayout.PtrPosPastHeader | btree.go:52-60 | a pointer position, even a wrapped one, lies past the header; it is `4 + 8*index` when that does not wrap |
| BNodeLayout.PtrGuardInverted | btree.go:48-62 | as written, `getPtr` and `setPtr` panic for every index below `nkeys` |
| BNodeLayout.PutKeepsNKeys | btree.go:56-62 | a store past the 4-byte header, such as `setPtr`'s, leaves `nkeys` as it was |
| BNodeLayout.PtrRoundTrip | btree.go:48-62 | as written, a pointer at an index at or past `nkeys` reads back what `setPtr` stored, when it fits the buffer |
| BNodeLayout.GetPtrChecked | btree.go:48-54 | with the intended guard, `getPtr` panics for every index at or past `nkeys` |
| BNodeLayout.SetPtrChecked | btree.go:56-62 | with the intended guard, `setPtr` panics for every index at or past `nkeys` and keeps the length |
| BNodeLayout.PtrCheckedRoundTrip | btree.go:48-62 | with the intended guard, every pointer below `nkeys` reads back what `setPtr` stored, and `nkeys` is kept |
| BNodeLayout.OffsetPosNeverPanics | btree.go:64-69 | the guard of `offsetPos` never fires: any index gets a position |
| BNodeLayout.SetOffsetZeroClobbersNKeys | btree.go:64-80 | as written, `setOffset(0, o)` on a node without keys overwrites `nkeys` with o |
| BNodeLayout.GetOffsetZero | btree.go:71-74 | offset 0 is implicit: `getOffset(0)` is 0 whatever the page holds |
| BNodeLayout.OffsetPosValue | btree.go:64-69 | offset slot `index >= 1` lives at `4 + 8*nkeys + 2*(index-1)` when nothing wraps |
| BNodeLayout.OffsetRoundTrip | btree.go:71-80 | for `index >= 1`, `getOffset` returns what `setOffset` stored, when the slot fits the page |
| BNodeLayout.OffsetPosChecked | btree.go:64-69 | with the intended guard, `offsetPos` succeeds exactly for slots 1..nkeys, and each slot lies inside the offset array |
| BNodeLayout.SetOffsetChecked | btree.go:78-80 | with the intended guard, `setOffset` panics outside slots 1..nkeys |
| BNodeLayout.OffsetCheckedRoundTrip | btree.go:64-80 | with the intended guard, `setOffset` keeps `nkeys` and round-trips for every slot of a page that holds the offset array |
| BNodeLayout.KvPosSpec | btree.go:82-110 | when nothing wraps, pair `index` starts exactly its stored offset past the first pair, at or after the end of the offset array, and `nbytes` lies exactly the last offset past the first pair, so the key-value area is what the offsets account for |
| BNodeLayout.KvPosFirst | btree.go:82-87 | the first pair starts right after the offset array |
| BNodeLayout.KVLengths | btree.go:94-104 | both 2-byte length prefixes of a stored pair read back |
| BNodeLayout.KVBytes | btree.go:95-105 | the key and the value of a stored pair follow the prefixes |
| BNodeLayout.GetKeyOf | btree.go:89-96 | `getKey` returns the key of the pair stored at `kvPos(index)` for an index below `nkeys` |
| BNodeLayout.GetValOf | btree.go:98-106 | `getVal` returns the value of the same pair |
| BNodeLayout.GetKeyValPastEnd | btree.go:89-106 | `getKey` and `getVal` panic for an index at or past `nkeys` |
| BNodeLayout.Init | btree.go:112-117 | a one-key node of maximum sizes takes 4018 bytes, which fits the 4096-byte page, so `init` never panics |
| Allocator.NewFreelist | freelist.go:10-15 | a new free list has no released pages, and its mark is the meta page |
| Allocator.GetNextPage | freelist.go:19-27 | with released pages, the last one is popped and returned, and the mark is kept. Otherwise the mark is incremented (wrapping at 2^64) and returned |
| Allocator.ReleasePage | freelist.go:30-32 | the page is pushed on the released pages, and the mark is kept |
| Allocator.ReleaseThenAllocate | freelist.go:19-32 | releasing a page and allocating hands that page back and restores the free list |
| Allocator.FreshPageNotMeta | freelist.go:25-26 | a fresh page from a mark below 2^64-1 is at least 1, never the meta page |
| Allocator.FreshPageWraps | freelist.go:25-26 | from the largest mark, the next fresh page wraps to the meta page |
| Allocator.NewFreelistValid | freelist.go:10-15 | a new free list satisfies the allocator invariant with no pages in use |
| Allocator.GetNextPageValid | freelist.go:19-27 | under the invariant, an allocation returns a page that is not in use and is not the meta page, and keeps the invariant with that page in use |
| Allocator.ReleasePageValid | freelist.go:30-32 | releasing a page in use keeps the invariant, with the page no longer in use |
| MetaRecord.NewEmptyMeta | meta.go:13-15 | an empty meta record points at page 0 |
| MetaRecord.Serialize | meta.go:18-22 | `serialize` panics exactly on a buffer shorter than eight bytes, and changes nothing past byte 7 |
| MetaRecord.Deserialize | meta.go:25-29 | as written, `deserialize` panics exactly on a buffer shorter than eight bytes, and otherwise leaves the record unchanged |
| MetaRecord.DeserializeLosesPage | meta.go:18-29 | as written, free-list page 5 serialized and read back into an empty record comes back as 0 |
| MetaRecord.DeserializeCorrected | meta.go:25-29 | the intended decode panics exactly on a buffer shorter than eight bytes |
| MetaRecord.RoundTrip | meta.go:18-29 | with the intended decode, serializing and then deserializing gives the record back |
| MetaRecord.ReadThenWrite | meta.go:18-29 | with the intended decode, writing back a record read from a page reproduces the page |
| Collections.Find | collection.go:18-34 | a missing root page is an I/O error, and a returned item has the key looked up and is stored in the tree under the root |
| Collections.FindCorrect | collection.go:18-34 | on an ordered tree, `Find` never fails, returns nothing exactly when the key is nowhere in the tree, and otherwise returns the item the tree stores under the key |
| Collections.GetNodes | collection.go:36-52 | a missing root is an I/O error. A success is the path the indexes describe: the root, then at each later step the child at the next index. It succeeds on every such path, and its only errors are panics and I/O errors |
| Collections.WalkPath | collection.go:44-50 | the loop of `getNodes` extends a path prefix to the whole path. At the next step an index outside the last node's children panics, and a missing child page is an I/O error; it fails in no other way |
| Collections.WalkPathBreaks | collection.go:44-50 | the loop run from a shorter prefix fails exactly as at the step where the longer prefix breaks: a panic on a bad index, an I/O error on a missing page |
| Collections.GetNodesBreaks | collection.go:36-52 | `getNodes` panics when the path breaks on an index outside a node's children, and is an I/O error when it breaks on a missing child page |
| Collections.PathExtends | collection.go:45-49 | a path prefix extends by the child at the next index |
| Collections.Put | collection.go:54-120 | `Put` on an empty collection is the bootstrap and never fails; on a collection whose root page is missing it is an I/O error |
| Collections.PutPanicsPastEnd | collection.go:73-82 | when the descent of a non-empty collection ends past the last item of a non-empty node, `Put` panics |
| Collections.PutThenFind | collection.go:54-65 | after `Put` into the empty collection, `Find` from the new root returns the item put, when the written leaf is readable at its page |
| Collections.Bootstrap | collection.go:59-65 | the empty collection's root becomes the page of the one-item leaf written, or stays 0 when the write fails (the error is swallowed) |
| Collections.Insert | collection.go:67-70 | a missing root page is an I/O error |
| Collections.OverwriteOrInsert | collection.go:78-82 | it panics exactly when the node has items and the insertion point is outside them. An equal key at the point is replaced in place, with every other item and the child pointers kept. Anything else goes to `addItem` |
| Collections.OverwritePanicsPastEnd | collection.go:78-82 | a key greater than every key of a non-empty node has its insertion point past the end, and there the overwrite check panics |
| Collections.OverwriteOrInsertChecked | collection.go:78-82 | the intended decision never panics: an equal key inside the items is replaced in place, and anything else goes to `addItem` |
| Collections.CheckedAgrees | collection.go:78-82 | the intended decision agrees with the one as written wherever that does not panic, and inserts at the point past the end |
| Collections.Rebalance | collection.go:94-102 | the loop keeps the path's length |
| Collections.RebalanceSpec | collection.go:94-102 | the loop visits the children from the deepest up, never the root as a child. It splits exactly the children that are overpopulated when visited, in that order, and changes no node except the parent of a split child. That parent becomes what `split` returns for the original parent and the child as the loop left it, at the child's index. Without a split the store is unchanged |
| Collections.SplitVisit | collection.go:96-101 | one split visit replaces the parent with what `split` returns for it and the overpopulated child, and the rest of the loop runs on the updated path |
| Collections.SplitParentsVisit | collection.go:99-101 | after one split visit, every split child's parent, the new one included, is `split`'s result for its original parent and the child |
| Collections.PromoteRoot | collection.go:104-117 | a root that is not overpopulated is kept. An overpopulated root gets a new item-less root holding it as the only child; it is split into that root, and `Put` succeeds exactly when the new root's write does, leaving the store after that write and the written node's page as the root. The collection's root changes in no other case |

## Left out

- I/O, the file, page-size buffers and locking (dal.go, db.go, main.go) are not part of this model. Page reads are a map from page number to node.
- node.go `writeNode`/`writeNodes` and the whole `dal` are not part of this model. Those writes are the abstract `writeNode` of `Collections.Env`.
- `split`, `addItem`, `isOverPopulated`, `newNode`, `writeNode` and the four-result `findKey(key, exact)` that collection.go calls are not defined in the modelled files. They are parameters of `Collections.Env`. The model states which of them `Put` calls, on which nodes, and which of their results it goes on with. What they do is not modelled.
- `Collections.Put`: tree-level properties of a `Put` into a non-empty tree are not stated: that an overwrite leaves one item per key, that a split keeps the B-tree ordered, and that a later `Find` returns the item. They depend on `addItem`, `split` and `findKey(key, false)`, which are abstract here. The model states which of their results `Put` goes on with. `PutThenFind` states the round trip for the empty collection.
- `Collections.Find`: collection.go:24 calls a four-result `findKey(key, true)` that node.go does not define. The model descends with node.go's `findKeyHelper` (node.go:171-185) instead.
- `Collections.Insert`: the store state after an error is not modelled, because a failed `Result` carries no store.
- `Collections.Put` uses the overwrite decision as written. A caller that reaches the panic past the end gets `Err(Panic)`.
- `Collections.OverwriteOrInsert`: Go's `items != nil` test is modelled as "has items", because nil and empty slices are one value here.
- `NodeSearch.FindKeyHelper`: the descent carries a `fuel` depth bound. Running out of it is `Err(DepthExceeded)`, which Go does not have. `FindKeyHelperCorrect` takes the tree's depth as the fuel, so it never runs out there.
- `Allocator.GetNextPageValid` assumes a fresh allocation does not wrap the mark past 2^64-1. `FreshPageWraps` shows what happens when it does.
- `NodeCodec.ReadRecord`: the key and value that node.go:115 and 121 take are slices sharing the page buffer. Here they are values, so a later change to the buffer does not show through an item.
- `NodeCodecProofs.RoundTrip` holds for encodable nodes only. Every key and value must be shorter than 256 bytes, since the length prefix is one byte. The page must be at most 2^16 bytes, since offsets are 16-bit. The left region, including the whole of the last 8-byte offset store, must stay below the records. These bounds are sufficient, not necessary. In a leaf, the last store's six zero high bytes may reach into the last record. That record is written after the store and overwrites them, so leaves within six bytes of full also round-trip in Go. `RoundTrip` does not cover them; `NodeCodecProofs.NearlyFullLeafRoundTrips` shows one such leaf. Outside these bounds the model keeps Go's truncations and panics but states nothing further.
- `NodeCodec.Serialize`, `NodeCodec.Deserialize`: their own contracts state only lengths and the page number. The layout and the round trip are stated by `NodeCodecProofs.SerializeLayout` and `NodeCodecProofs.RoundTrip`.
- `Collections.Rebalance`, `Collections.Insert`: their own contracts are weaker than the source's behaviour. `RebalanceSpec` states which nodes the rebalance loop splits and what becomes of their parents, and the Put stages are stated by `GetNodes`, `OverwriteOrInsert` and `PromoteRoot`.
- `Collections.RebalanceSpec`: the store each split runs on is stated only to exist, and the store after a loop that split something is not stated. The function threads the stores in the loop's order, but the contract does not say so. What `split` itself does to a child or the store is not modelled.
- A slice's capacity is taken to be its length. Go's `buf[p:][:n]` therefore panics exactly when `p + n` exceeds the buffer.
- The free list's on-disk serialization is not in freelist.go, and it is not part of this model.

## Findings

| source | as written | input that shows it | evidently intended | confidence | as-written member | corrected member |
|---|---|---|---|---|---|---|
| meta.go:25-29 | `deserialize` reads the eight bytes and discards them | serialize a record with free-list page 5, then deserialize it into an empty record: the page comes back as 0 | assign the value read to `freelistPage` | not executed | MetaRecord.DeserializeLosesPage | MetaRecord.RoundTrip |
| btree.go:48-62 | `getPtr`/`setPtr` panic when `index < nkeys` | any node with `nkeys >= 1` and index 0: both panic | panic when `index >= nkeys` | not executed | BNodeLayout.PtrGuardInverted | BNodeLayout.PtrCheckedRoundTrip |
| btree.go:64-69 | the guard `index < 1 && index > nkeys` can never hold, and `index - 1` wraps | `setOffset(0, o)` on a node with `nkeys = 0`: the slot is bytes 2-3, and `nkeys` becomes o | `index < 1 \|\| index > nkeys` | not executed | BNodeLayout.SetOffsetZeroClobbersNKeys | BNodeLayout.OffsetCheckedRoundTrip |
| collection.go:78 | the key at the insertion point is compared before checking that the point is inside the items | Put a key greater than every key of the non-empty node the descent ends at: the insertion point is the item count, and indexing panics | compare only when `insertionIndex < len(items)`, and otherwise insert | not executed | Collections.OverwritePanicsPastEnd | Collections.CheckedAgrees |
