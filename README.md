# A copy-on-write B+tree key-value store, modelled in Dafny

This project models the storage core of a small key-value database written in Go:

- **Node codec.** A B+tree node lives in a 4096-byte page. The page holds:
  - a 4-byte header (node type, key count);
  - a table of 8-byte child pointers;
  - a table of 2-byte offsets;
  - the key-value records, each a 2-byte key length and a 2-byte value length followed by the bytes.

  `nodeAppendKV` and `nodeAppendRange` are the only builders. The getters read the fields back.
- **Node operations.** `nodeLookupLE`, `leafInsert`, `leafUpdate`, `leafDelete`, `nodeMerge`, `nodeReplace2Kid` and `nodeReplaceKidN` write a new node into a fresh buffer. `nodeSplit2` and `nodeSplit3` cut an oversized node into pieces that fit a page.
- **The tree.** `BTree.Insert`, `Get` and `Delete` work copy-on-write, with the recursive `treeInsert` and `treeDelete`. Every changed node is written to a new page and the old page is freed. The first leaf holds a sentinel pair with the empty key, which sits below every other key.
- **The page store.** `MemPages` is an in-memory map from page ids to pages, with a counter that hands out new ids.
- **The free list.** A FIFO queue of page ids, kept in a chain of list pages.
- **The key-value front and the meta page.** `KV.Get`, `Set` and `Del`, and `saveMetaInBytes`/`loadMetaFromBytes`.

Byte buffers are `array<Byte>` where the source writes them in place, and `seq<Byte>` where it only reads them. Pages are a `map<nat, seq<Byte>>` inside the `MemPages` class.

The tree the pages hold is ghost state:

- A `Tree` is a leaf of entries or an internal node of entries and children.
- The abstract `Ins` and `Del` (modules `Tree` and `TreeDelete`) say what `treeInsert` and `treeDelete` build, including the page ids they hand out.
- Their pairs are proved to be `Upsert` and `Remove` of the old pairs.
- The imperative methods over the page store are proved equal to them, page by page.

Modules:

| module | file | models |
|---|---|---|
| `Bytes` | bytes.dfy | little-endian integers, byte splices, `bytes.Compare` |
| `Node` | node.dfy | the node layout, `Encode`, the getters, `nbytes` |
| `NodeWrite` | nodewrite.dfy | `setHeader`, `setPtr`, `setOffset`, `nodeAppendKV`, `nodeAppendRange` on arrays |
| `NodeOps` | nodeops.dfy | `nodeLookupLE` and the leaf, merge and replace operations |
| `Split` | split.dfy | `nodeSplit2`, `nodeSplit3` and why their pieces fit a page |
| `Tree` | tree.dfy | the abstract tree, its pairs, `Ins` (treeInsert) |
| `TreeDelete` | treedelete.dfy | `Del` (treeDelete) and `shouldMerge` on the abstract tree |
| `PageIds` | pageids.dfy | which page ids a tree uses, frees and allocates |
| `MemStore` | memstore.dfy | `MemPages` |
| `TreeStore` | treestore.dfy | a tree stored in the pages, and how the page map may change |
| `DeleteStore` | deletestore.dfy | the store-side steps of `treeDelete` |
| `PagedTree` | btree.dfy | `BTree` over `MemPages`: `Get`, `Insert`, `Delete`, `treeInsert`, `treeDelete` |
| `FreeList` | freelist.dfy | the free list |
| `KV` | kv.dfy | `KV` and the meta page |

## Model

| member | source | states |
|---|---|---|
| Bytes.LE64RoundTrip | core/btree.go:47-52 | reading eight little-endian bytes back gives the 64-bit value written |
| Bytes.Compare | core/btree.go:129-139 | `bytes.Compare` is -1, 0 or +1, and 0 exactly when the keys are equal |
| Bytes.CompareAntisymmetric | core/btree.go:129-139 | swapping the keys negates the comparison |
| Bytes.CompareTransitive | core/btree.go:129-139 | the key order is transitive |
| Node.ReadBack | core/btree.go:40-99 | on the bytes of a node, btype, nkeys, getOffset, getPtr, getKey and getVal give the node's type, count and entries |
| Node.FilledNBytes | core/btree.go:101-103 | nbytes of a built node is 4 + 10n plus 4 + len(key) + len(val) per entry |
| Node.AppendKVReadBack | core/btree.go:105-113 | after nodeAppendKV at idx, getPtr, getKey and getVal at idx give what was appended; offset idx+1 is offset idx plus the record size; the header is unchanged |
| Node.IsNodeIffEncodes | core/btree.go:105-121 | a buffer filled entry by entry holds exactly the encoding of the node |
| NodeWrite.HeaderWritten | core/btree.go:40-45 | after setHeader, btype and nkeys read back the values written |
| NodeWrite.SetPtrReadBack | core/btree.go:47-60 | after setPtr, getPtr at idx gives the pointer written, and nkeys is unchanged |
| NodeWrite.SetOffsetReadBack | core/btree.go:62-77 | after setOffset, getOffset at idx gives the offset written, and nkeys is unchanged |
| NodeWrite.NodeAppendRange | core/btree.go:115-121 | copying n entries of the old node from srcOld to dstNew extends the built entries by exactly those n entries |
| NodeOps.NodeLookupLE | core/btree.go:123-142 | the index the scan returns is LookupLE of the node's entries |
| NodeOps.LookupLEBounds | core/btree.go:123-142 | when the first key is at most key, the result is a valid index whose key is at most key, and the next key, if any, is above it |
| NodeOps.LookupLEIsLast | core/btree.go:123-142 | in a sorted node, every key after the result is above key, and key is present exactly when it is at the result |
| NodeOps.LookupLEClamped | core/btree.go:124-137 | an empty node, or a key below the first key, gives 0 |
| NodeOps.LeafInsert | core/btree.go:144-149 | the new leaf holds the old entries with (key, val) inserted at idx |
| NodeOps.LeafUpdate | core/btree.go:151-156 | the new leaf holds the old entries with entry idx replaced by (key, val) |
| NodeOps.LeafDelete | core/btree.go:288-292 | the new leaf holds the old entries without entry idx |
| NodeOps.NodeMerge | core/btree.go:294-298 | the merged node has the left node's type and its entries followed by the right node's |
| NodeOps.NodeReplace2Kid | core/btree.go:300-305 | the new internal node has entries idx and idx+1 replaced by one entry (ptr, key) |
| Split.SplitBounds | core/btree.go:158-186 | nodeSplit2 cuts strictly inside the entries, and the right half fits a page |
| Split.NodeSplit2 | core/btree.go:158-186 | left and right hold the entries before and after the split point, with the old node's type |
| Split.Split3Joins | core/btree.go:188-204 | the pieces of nodeSplit3, put back together, are the old node's entries |
| Split.Split3Fits | core/btree.go:188-204 | every piece of nodeSplit3 fits a page when the node is at most two pages less the header and every entry fits a page alone |
| Split.NodeSplit3 | core/btree.go:188-204 | the count returned is the number of pages, and the pages hold the pieces in order |
| Split.SplitAgain | core/btree.go:200-203 | the left half, cut again, gives two page-sized nodes holding its two halves |
| Tree.FindUpsert | core/btree.go:206-234 | after Upsert, lookup of key gives val, and lookup of any other key is unchanged |
| Tree.FindRemove | core/btree.go:371-394 | after Remove, key is absent, and lookup of any other key is unchanged |
| Tree.UpsertSorted | core/btree.go:236-257 | inserting or updating a pair keeps the keys strictly sorted |
| Tree.RemoveSorted | core/btree.go:288-292 | removing a pair keeps the keys strictly sorted |
| Tree.FirstKeyFirst | core/btree.go:259-268 | the first key of a node (getKey(0), which nodeReplaceKidN stores in the parent) is the smallest key below it |
| Tree.SplitContents | core/btree.go:188-204 | the pieces of nodeSplit3 hold the node's pairs in order |
| Tree.SplitGood | core/btree.go:188-204 | every piece of nodeSplit3 is well formed, not empty and fits a page |
| Tree.Ins | core/btree.go:236-257 | treeInsert allocates at most three pages per level and keeps the node type |
| Tree.InsSpec | core/btree.go:236-257 | the node treeInsert returns holds Upsert of the pairs, is well formed, and is at most two pages less the header |
| TreeDelete.MergeTrees | core/btree.go:294-298 | a merged node has the type of its left part and the entries and children of both |
| TreeDelete.MergeSpec | core/btree.go:294-298 | the merged node holds the left node's pairs followed by the right node's, and nbytes is the sum less one header |
| TreeDelete.MergeDir | core/btree.go:307-328 | no merge unless the child is at most a quarter page; -1 only with a left sibling it fits beside in a page; +1 only with such a right sibling; 0 when it fits beside neither |
| TreeDelete.Up | core/btree.go:342-369 | a missing key is passed up unchanged; a rebuilt parent fits the one-page buffer |
| TreeDelete.Del | core/btree.go:330-370 | treeDelete allocates at most one page per level and keeps the node type; a rebuilt internal node fits a page |
| TreeDelete.LeafRemove | core/btree.go:332-339 | the leaf test finds key exactly when it is among the pairs, and removing that entry is Remove |
| TreeDelete.DelSpec | core/btree.go:330-370 | treeDelete returns nil exactly when key is absent; otherwise the node holds Remove of the pairs, is well formed and fits a page |
| TreeDelete.RebalancedSpec | core/btree.go:349-368 | after merging or replacing the child, the parent holds the pairs of the siblings before it, of the rebuilt child, and of the siblings after it |
| PageIds.InsIds | core/btree.go:236-257 | treeInsert frees only the pages on the path to key; the new tree's page ids are distinct, and the new ones are those handed out during the call |
| PageIds.DelIds | core/btree.go:330-370 | treeDelete frees only pages of the tree; the rebuilt tree's page ids are distinct, and the new ones are those handed out during the call |
| MemStore.Padded | core/memstore.go:37-44 | a copy shorter than a page is padded with zeros to a page; a longer one is kept whole |
| MemStore.MemPages.constructor | core/memstore.go:13-20 | a new store has no pages, and its first id is 1 |
| MemStore.MemPages.Get | core/memstore.go:22-31 | the stored page, or a zero page when the id is missing |
| MemStore.MemPages.New | core/memstore.go:33-48 | the node is stored, padded, under the next id, which is returned and then incremented |
| MemStore.MemPages.Del | core/memstore.go:50-54 | the page is removed, and the counter is unchanged |
| MemStore.MemPages.Write | core/memstore.go:56-65 | the stored page, or a new zero page stored under the id |
| MemStore.MemPages.Update | core/memstore.go:56-65 | a write through the slice Write returned: that page's bytes are replaced, every other page and the counter are unchanged |
| MemStore.MemPages.PagesAllocated | core/memstore.go:67-71 | the number of pages stored |
| DeleteStore.DeleteLeaf | core/btree.go:332-339 | nil exactly when the leaf lacks key; otherwise a page holding the leaf without key |
| PagedTree.CheckLimit | core/btree.go:33-38 | Ok exactly when the key is at most 1000 bytes and the value at most 3000 |
| PagedTree.LookupFind | core/btree.go:270-286 | following nodeLookupLE from the root to a leaf finds exactly the value the pairs hold for key |
| PagedTree.SentinelKept | core/btree.go:206-234 | the empty key stays first after Upsert of any pair, and after Remove of any non-empty key |
| PagedTree.FirstLeafAsWritten | core/btree.go:210-216 | the first leaf holds the sentinel followed by (key, val), whatever the key |
| PagedTree.FirstLeafDuplicate | core/btree.go:210-216 | with the empty key that leaf holds the empty key twice, out of key order, where Upsert keeps one pair |
| PagedTree.FirstLeaf | core/btree.go:210-216 | the first leaf, corrected, holds Upsert of (key, val) into the sentinel alone |
| PagedTree.FirstRooted | core/btree.go:210-216 | the first leaf stored under a new id is a well-formed tree whose pairs start with the empty key |
| PagedTree.DeleteOverflows | core/btree.go:342-366 | a well-formed tree in key order, headed by the sentinel, with a 3119-byte root, on which treeDelete of a present key overflows: the leaf stays over a quarter page, its parent entry's key grows from 1 to 1000 bytes, and the rebuilt root needs 4118 bytes |
| PagedTree.SentinelDeletedAsWritten | core/btree.go:330-339 | treeDelete of the empty key removes the sentinel, and a later treeInsert of a smaller key lands after a larger one |
| PagedTree.BTree.constructor | core/btree.go:29-31 | a new tree has root 0 and no pairs |
| PagedTree.BTree.Get | core/btree.go:270-286 | found exactly when the pairs hold key, with its value; nil and false otherwise, and for an empty tree |
| PagedTree.BTree.NodeReplaceKidN | core/btree.go:259-268 | each kid is stored under the next id, and the new node has entry idx replaced by one entry per kid with its id and first key |
| PagedTree.BTree.TreeInsert | core/btree.go:236-257 | the page returned holds the node Ins builds, with its subtrees stored; only the pages on the path to key are freed; other pages are unchanged |
| PagedTree.InsertLeaf | core/btree.go:240-245 | a leaf gets the pair by leafUpdate when key is at idx, and by leafInsert at idx+1 otherwise; the result is the leaf Ins builds |
| PagedTree.BTree.InsertKid | core/btree.go:246-252 | the child's new node is split, its old page freed, and the pieces put in its place, as Ins builds |
| PagedTree.BTree.RootNode | core/btree.go:222-229 | the pieces are stored under consecutive new ids, and the new root has one entry per piece with its id and first key |
| PagedTree.BTree.PublishRaised | core/btree.go:222-229 | the new root over the pieces is stored last and holds the pieces' pairs |
| PagedTree.BTree.Insert | core/btree.go:206-234 | ErrKeyTooLarge exactly when checkLimit refuses, with nothing changed; otherwise the pairs become Upsert of the old ones (of the sentinel alone for an empty tree, the corrected first leaf), the new root is the last page stored, and only the old root and the pages on the path are freed |
| PagedTree.BTree.ShouldMerge | core/btree.go:307-328 | the direction returned is MergeDir, and the sibling returned is the page of that sibling |
| PagedTree.BTree.MergeLeft | core/btree.go:352-356 | the left sibling and the child are merged into a new page, the sibling's page is freed, and the parent is the node Rebalanced builds |
| PagedTree.BTree.MergeRight | core/btree.go:357-361 | the child and the right sibling are merged into a new page, the sibling's page is freed, and the parent is the node Rebalanced builds |
| PagedTree.BTree.Rebalance | core/btree.go:348-368 | in each of the four cases the parent page holds the node Rebalanced builds; the pages freed are the child's and, on a merge, the sibling's |
| PagedTree.BTree.TreeDelete | core/btree.go:330-370 | nil exactly when key is absent, and then nothing changes; otherwise the page holds the node Del builds, with its subtrees stored, and only the pages DelFreed names are freed |
| PagedTree.BTree.DeleteKid | core/btree.go:342-368 | the same for an internal node: the child is rebuilt, its page freed, and the parent rebalanced |
| PagedTree.BTree.ShrinkRoot | core/btree.go:375-391 | treeDelete from the root, nodeSplit3 (which leaves the rebuilt root whole) and the old root freed |
| PagedTree.BTree.Delete | core/btree.go:371-394 | true exactly when key is a non-empty key among the pairs; then the pairs become Remove of the old ones, and the new root is the last page stored; false leaves root, pairs and pages unchanged, for an empty tree too |
| FreeList.Seq2Idx | core/freelist.go:30 | the slot of a sequence number is below FREE_LIST_CAP, which is (4096 - 8) / 8 |
| FreeList.NextRoundTrip | core/freelist.go:88-89 | setNext then getNext gives the value written, and leaves every slot unchanged |
| FreeList.PtrRoundTrip | core/freelist.go:90-97 | setPtr then getPtr at the same slot gives the value written; other slots and the next link are unchanged |
| FreeList.FreeList.constructor | core/freelist.go:26-28 | a new free list has every field zero and an empty queue |
| FreeList.FreeList.SetMaxSeq | core/freelist.go:42 | the watermark moves to the tail, and the queue is unchanged |
| FreeList.ItemsIgnoreMax | core/freelist.go:42 | moving the watermark anywhere between head and tail keeps the list pages holding the same queue |
| FreeList.FreeList.FlPop | core/freelist.go:52-64 | nothing when the head is at the watermark; otherwise the oldest id, the queue less it, and the old head page when the head page is used up |
| FreeList.PoppedItems | core/freelist.go:52-64 | the slot read is the oldest id; after the pop the pages hold the rest of the queue |
| FreeList.PushedItems | core/freelist.go:66-69 | writing ptr into the tail slot appends it to the queue |
| FreeList.RelinkedItems | core/freelist.go:72-78 | a recycled or new page linked after the tail keeps the queue and leaves a full chain |
| FreeList.RegrownItems | core/freelist.go:72-82 | recycling the oldest id as the new tail page, with the old head page requeued, keeps the pages holding the queue |
| FreeList.FreeList.PushTail | core/freelist.go:66-84 | ptr is appended; when the tail page fills and an item is below the watermark, the oldest id becomes the new tail page and a used-up head page is queued after ptr; every stored page off the final list chain keeps its bytes, and at most one new page is allocated |
| FreeList.HeadPoppedCases | core/freelist.go:44-50 | PopHead takes the oldest id; a used-up head page goes back on the queue, as one more push |
| FreeList.FreeList.PopHead | core/freelist.go:44-50 | 0 when the head is at the watermark, with nothing changed; otherwise the oldest id, and the queue HeadPopped describes; every stored page off the final list chain keeps its bytes, and at most one new page is allocated |
| KV.ReadMeta | core/kv.go:72-79 | no meta from fewer than 32 bytes, a meta from anything longer |
| KV.MetaRoundTrip | core/kv.go:63-79 | loading the page saveMetaInBytes writes gives back the same root and flushed |
| KV.MetaLayout | core/kv.go:63-70 | the meta page starts with the 16 bytes of "BuildYourOwnDB06" and is zero after byte 32 |
| KV.SignatureIgnored | core/kv.go:72-79 | two buffers that agree on bytes 16..32 load the same meta, whatever their first 16 bytes |
| KV.KV.SaveMeta | core/kv.go:63-70 | the buffer written is the meta page of the tree's root and flushed |
| KV.KV.LoadMeta | core/kv.go:72-80 | an error, with nothing changed, for fewer than 32 bytes; otherwise root and flushed are those read |
| KV.KV.constructor | core/kv.go:27-37 | flushed is 1, the tree is empty with root 0, and the free list is empty and on the same store |
| KV.KV.Get | core/kv.go:39-41 | the tree's lookup: found exactly when the pairs hold key, with its value |
| KV.KV.Set | core/kv.go:43-53 | ErrKeyTooLarge exactly when checkLimit refuses, with nothing changed; otherwise the pairs become Upsert of the old ones (of the sentinel alone for an empty tree) |
| KV.KV.Del | core/kv.go:55-61 | true exactly when key is a non-empty key among the pairs, and then the pairs become Remove of the old ones; otherwise nothing changes |

## Left out

- Integer widths.
  - Page ids and sequence numbers are `nat`, below `U64_LIMIT`. Node offsets and counts are below `U16_LIMIT`.
  - The wrap-around of Go's `uint64` and `uint16` is not modelled. The requires that keep values in range are `U64_LIMIT` on ids, `MAX_BUFFER` on buffers, and `AppendFits` on appends.
  - No buffer in the source exceeds two pages, so 16-bit positions cannot wrap there.
- Panics become preconditions. Examples:
  - `nodeSplit2` panics with fewer than two keys, so `Split.NodeSplit2` requires `|entries| >= 2`. It also requires `AllFitAlone`: every entry fits a page alone, which `checkLimit` guarantees.
  - `NodeWrite` and `Node` require that an append fits its buffer (`AppendFits`). In `nodeAppendKV` (core/btree.go:105-113), an entry whose header or key runs past the buffer panics on a slice expression. A value that runs past it is cut short silently by `copy` (line 111), while line 112 still records its full size. `AppendFits` excludes both cases. Leaf entries go into a two-page buffer, and merges are checked by `shouldMerge` first, so neither case arises there. The one place an append can overrun is the delete overflow described below, and there it is a key, so Go panics.
  - An unknown node type panics in `treeInsert`; the model's nodes only have the two types.
- The mutexes in `MemPages` and `KV.page` only serialise calls. Concurrency is not modelled.
- The `get`, `new` and `del` callbacks of `BTree`, and `get`, `new` and `set` of `FreeList`, are the methods of `MemStore.MemPages`, called directly.
- `KV.page.temp`, `KV.page.updates` and `KV.failed` are never used by the source, and are not modelled.
- MemStore.MemPages.Update: `MemPages.Write` returns a slice that aliases the stored page, and the free list writes through it (`set(ptr).setPtr`, `setNext`). The model writes a new copy back with `Update` instead. So it does not capture a caller that keeps the slice and writes through it later.
- The `FreeList` getters and setters (`HeadPage`, `SetHeadPage`, …) are field reads and writes of the class.
- Tree.InsSpec and TreeDelete.DelSpec require `Compare(FirstKey(t), key) <= 0`. The empty-key sentinel, which every tree keeps first, is what discharges this at the top.
- FreeList.FreeList.PushTail requires `ptr !in items && ptr !in chain`. This excludes the double free that core/freelist.go:66-84 accepts: that would queue a page twice, or queue a list page.
- FreeList.FreeList.PushTail, FreeList.FreeList.RequeueHead, FreeList.FreeList.PushInPlace and FreeList.FreeList.PushWrapping also require `ptr < mem.next`. This excludes queuing an id the store has not handed out yet, which `New` could later hand out while it is still queued. The only call inside the core, PopHead requeuing a used-up head page, meets it, because every list page is below the counter. core/kv.go never calls PushTail.
- PagedTree.BTree.Insert, PagedTree.BTree.Delete, KV.KV.Set and KV.KV.Del require `Room()`: the id counter stays below 2^64 for the pages one call can allocate.
- PagedTree.BTree.Delete and KV.KV.Del require that treeDelete does not overflow. When a rebuilt child's first key is longer than the separator it replaces, the one-page buffer of core/btree.go:349 can be too small for the parent. `nodeReplace2Kid` or `nodeReplaceKidN` then panic (lines 356, 361, 366). `TreeDelete.Del` returns `Overflow` there, and Delete and KV.KV.Del require that it does not. `PagedTree.DeleteOverflows` exhibits such a tree. Splitting an overflowing internal node on the way up, as treeInsert does, is not modelled.
- PagedTree.BTree.Delete and KV.KV.Del refuse the empty key, which the source deletes like any other. They return false and leave the sentinel in place. See the second finding.
- PagedTree.BTree.Insert and KV.KV.Set build the first leaf as Upsert of the pair into the sentinel alone (PagedTree.FirstLeaf). For Insert("", v) into an empty tree, the source stores the empty key twice. See the first finding.
- PagedTree.BTree.Delete has no `nsplit > 1` branch of its own. The node treeDelete returns fits a page, so `nodeSplit3` leaves it whole and the branch (core/btree.go:382-389) cannot run. The model proves this.
- Delete has no `checkLimit`, because the source calls none there.
- KV.KV.LoadMeta sets the root without re-establishing the tree invariant. The pages behind a loaded root come from disk, which is outside this core.
- The KV invariant does not include the free list's. Nothing in the core connects the two: the tree allocates through `MemPages.New`, never from the free list, so the free list's pages are not protected from the tree's `del`.

## Findings

| source | as written | input that shows it | evidently intended | confidence | as-written member | corrected member |
|---|---|---|---|---|---|---|
| core/btree.go:210-216 | the first leaf is the sentinel followed by (key, val), whatever the key | Insert("", v) into an empty tree gives a leaf holding the empty key twice | the empty key replaces the sentinel's value, leaving one pair | not executed | PagedTree.FirstLeafAsWritten, PagedTree.FirstLeafDuplicate | PagedTree.FirstLeaf |
| core/btree.go:330-339, 371-394 | Delete takes the empty key like any other, and removes the sentinel | Delete("") on a tree holding "b", then Insert("a"): "a" lands after "b", out of key order | the sentinel is never deleted | not executed | PagedTree.SentinelDeletedAsWritten | PagedTree.BTree.Delete |
