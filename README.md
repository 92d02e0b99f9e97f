# SFS storage primitives, slot table and binary search tree in Dafny

This project models three small engines of the SFS filesystem repository and
proves properties of them.

- **libsfs**, the SFS storage primitives (`sfs.dfy`, which rests on `bytes.dfy` and
  `backing_file.dfy`):
  - page addressing, including the 64-bit wrap-around of the offset computation;
  - the superblock (magic `0xC0FFEE`, page count, free-list head, big-endian at
    offsets 0, 4 and 12), as written by `sfs_update_superblock` and read and
    checked by `sfs_open_fs`;
  - the LIFO free-page list threaded through the free pages, each free page
    holding a 1-byte tag and an 8-byte big-endian next index;
  - the five-field inode header codec;
  - the splice of a continuation page into an inode's doubly linked chain.

  The image file is a `BackingFile`: a byte sequence, a cursor and a size
  limit. A write past the limit comes back short, a read past the end comes
  back short, and a gap left by seeking past the end reads as zeros. A
  transfer never returns -1 in the model; see "## Left out" for what the
  code does with one. The handle `sfs_t` is the
  class `FileSystem`, whose methods seek, read and write field by field as
  the C code does.
- **libtable**, the slot table (`table.dfy`): a fixed array of slots with a free
  list embedded in the slots' `next_free_index` fields, `-1` ending it. The
  class `Table` keeps the array and the head. A ghost sequence `freeList` names
  the chain, so that allocation and freeing are proved to pop and push it.
- **libbst**, the binary search tree (`bst.dfy`): nodes are heap objects linked by
  `left`/`right`. Each node carries a ghost `Tree` value, the subtree it roots.
  The insertion walk of `bst_new_node` is a `while` loop. It is proved to turn
  the tree into `Insert(old tree, x)`, the leaf insertion that goes left when
  `datacmp(current, x) <= 0`. `Insert` is proved to add exactly x and to keep
  the search-tree order. The recursive delete-all and the in-order print are
  recursive methods. They are proved to visit the data in post-order and
  in-order respectively, each datum exactly once.

`wrappers.dfy` holds the `Option` type shared by the modules. `None` stands
for a NULL pointer or for a "-1, nothing read" status.

Facts of the code that the model keeps:

- `sfs_update_superblock` writes three fields, and there is no generation
  counter.
- `sfs_free_page` sets the in-memory head before it writes the free record.
  A failed write therefore leaves the head pointing at a page that does not
  hold the link.
- A failed step of `sfs_inode_insert_continuation_page` is only reported.
  Bytes already written stay written, and the allocated page is not given back.
- The inode header has the five fields the code converts (40 bytes).

`SFS_FREE_PAGE_IDENTIFIER`, `E_MALFORMED_SUPERBLOCK` and `sfs_inode_t` are
not defined in the repository's `libsfs.c`, `sfs_functions.h` or
`sfs_types.h`. The model fixes them as follows:

- The free-page tag is 3, the position of `SFS_FREE_PAGE` in
  `enum sfs_page_identifier`.
- `E_MALFORMED_SUPERBLOCK` is -2.
- `sfs_inode_t` is five `uint64_t` fields in the order page,
  parent_inode_pointer, pointer_count, next_page, previous_page.

`sfs_inode_insert_continuation_page` does not compile as written. The model
follows its evident intent: it allocates on this filesystem, tests the
allocated page, and reads and writes the headers through
`sfs_read_inode_headers` and `sfs_write_inode_header` on the local structs.

Under the comparator convention of `libbst.h` ("< 0 when a < b"), data that
compare at least equal to a node go left. The in-order traversal therefore
lists the data from greatest to least (`Bst.InOrderDescending`).

## Model

| member | source | states |
|---|---|---|
| Bytes.DecodeU32 | src/libsfs/libsfs.c:59 | be32toh of 4 bytes is the number whose big-endian encoding is exactly those bytes |
| Bytes.DecodeU64 | src/libsfs/libsfs.c:70 | be64toh of 8 bytes is the number whose big-endian encoding is exactly those bytes |
| Bytes.U32RoundTrip | src/libsfs/libsfs.c:106-107 | decoding the 4 big-endian bytes written for x gives back x |
| Bytes.U64RoundTrip | src/libsfs/libsfs.c:110-111 | decoding the 8 big-endian bytes written for x gives back x |
| Sfs.ErrnoToStr | src/libsfs/libsfs.c:18-29 | "Success" for 0, strerror(errno) for -1, the malformed-superblock message for E_MALFORMED_SUPERBLOCK, "Unknown error" for any other status |
| Sfs.SeekOffset | src/libsfs/libsfs.c:119-127 | the lseek64 offset is 256 + 1024 * (page mod 2^54) when that residue is below 2^53, and negative (the seek fails) otherwise; there is no check against page_count |
| Sfs.PageOffsetExact | src/libsfs/libsfs.c:120 | below 2^53 every page is addressable at exactly 256 + 1024 * page |
| Sfs.PageOffsetAliases | src/libsfs/libsfs.c:120 | pages 2^54 apart seek to the same offset, because the offset wraps and is not bounds-checked |
| Sfs.DistinctPagesApart | src/libsfs/libsfs.c:120 | two distinct low pages lie at least a page size apart, so their bytes never overlap |
| Sfs.FileSystem.constructor | src/libsfs/libsfs.c:36-44 | a new handle is zeroed (page count 0, free head 0) and holds the image file |
| Sfs.FileSystem.SeekToPage | src/libsfs/libsfs.c:119-127 | fails (-1, cursor unchanged) exactly when the offset is negative, otherwise puts the cursor at the page offset; the contents are unchanged |
| Sfs.ReadSuperblock | src/libsfs/libsfs.c:51-79 | E_MALFORMED_SUPERBLOCK exactly when 4 bytes are present and are not the magic; -1 exactly when a field read comes back short; on success the first 20 bytes are the encoding of the decoded superblock |
| Sfs.OpenFs | src/libsfs/libsfs.c:34-80 | with the skip flag returns 0 and reads nothing; otherwise reads magic, page count and free head in order, returning the status of ReadSuperblock and storing the page count as soon as it is read |
| Sfs.FileSystem.UpdateSuperblock | src/libsfs/libsfs.c:97-118 | writes the magic, the page count and the free head big-endian from offset 0; a write cut short by the size limit leaves exactly the prefix that fit and returns -1 |
| Sfs.FileSystem.WriteSuperblockBytes | src/libsfs/libsfs.c:99-117 | the three field writes from offset 0 leave the written prefix of the 20 encoded bytes, and succeed exactly when all 20 fit |
| Sfs.FileSystem.CloseFs | src/libsfs/libsfs.c:81-95 | closing flushes the superblock and reports its failure |
| Sfs.SuperblockRoundTrip | src/libsfs/libsfs.c:97-118 | opening an image whose superblock was written gives back the same page count and free-list head |
| Sfs.FileSystem.FreePage | src/libsfs/libsfs.c:128-157 | a page whose seek fails is refused with nothing changed; otherwise the head becomes page and the page starts with the free tag and the old head (all-ones when the list was empty), or the prefix of it that fit, and status is 0 exactly when all 9 bytes fit |
| Sfs.FileSystem.WriteFreeRecord | src/libsfs/libsfs.c:144-156 | the tag write and the next-index write leave the written prefix of the 9-byte free record at the cursor |
| Sfs.NextFreeLink | src/libsfs/libsfs.c:164-181 | the next index is found exactly when the page is addressable and its bytes 1..8 exist, and it is the big-endian value of those bytes |
| Sfs.FreeThenAllocate | src/libsfs/libsfs.c:128-183 | after freeing page, the link read from page is the head it was freed on top of |
| Sfs.FreeRecordKeepsOtherLinks | src/libsfs/libsfs.c:144-155 | writing one page's free record leaves the link stored in any other page unchanged |
| Sfs.FreePushesChain | src/libsfs/libsfs.c:133-155 | freeing a page that is not on the free list pushes it on the front of the on-disk chain |
| Sfs.AllocatePopsChain | src/libsfs/libsfs.c:158-183 | on a non-empty chain the head is addressable, its link can be read, and the rest of the chain starts at that link |
| Sfs.FileSystem.AllocatePage | src/libsfs/libsfs.c:158-184 | with the head all-ones, or its seek failing, or its 8-byte link missing, returns all-ones with the head unchanged; otherwise returns the old head and makes the stored link the new head; nothing is written |
| Sfs.AllocatePageAsWritten | src/libsfs/libsfs.c:158-184 | sfs_allocate_page as written: all-ones with the head kept when the list is empty or the seek fails, otherwise the old head is returned; when the 8-byte link is fully present the new head is that link, as in the corrected version, and when the read is short the missing bytes come from the stale local |
| Sfs.AllocateAsWrittenReadsStaleBytes | src/libsfs/libsfs.c:174-181 | on the image mkfs.sfs leaves on a path that did not exist yet, the allocation as written hands out page 0 and takes the new head from uninitialised bytes: different stale bytes give different heads |
| Sfs.FreshImageAllocationFails | src/libsfs/libsfs.c:174-177 | with the short read detected, allocation on that image finds no link |
| Sfs.FileSystem.WriteInodeHeader | src/libsfs/libsfs.c:185-207 | a page whose seek fails is refused with nothing changed; otherwise the five fields are written big-endian at the page start (or the prefix that fit), and status is 0 exactly when all 40 bytes fit |
| Sfs.FileSystem.ReadInodeHeaders | src/libsfs/libsfs.c:208-227 | returns the header that HeaderAt decodes from the image, None on a failed seek or a short read; nothing is written |
| Sfs.DecodeInodeHeader | src/libsfs/libsfs.c:220-225 | the decoded header encodes back to exactly the 40 bytes read |
| Sfs.InodeHeaderRoundTrip | src/libsfs/libsfs.c:194-200 | decoding an encoded header gives back the same five fields |
| Sfs.HeaderAt | src/libsfs/libsfs.c:208-227 | a header is read exactly when the page is addressable and its 40 bytes exist, and those bytes are its encoding |
| Sfs.WriteThenReadHeader | src/libsfs/libsfs.c:185-227 | writing a header and reading it back returns the same page, parent_inode_pointer, pointer_count, next_page and previous_page |
| Sfs.WriteHeaderLeavesRest | include/sfs_functions.h:20 | writing a header changes no byte outside its 40 bytes, so the page's pointer slots are unaffected |
| Sfs.WriteHeaderKeepsOthers | src/libsfs/libsfs.c:185-207 | writing one page's header leaves every other page's header as it was |
| Sfs.FileSystem.InsertContinuationPage | src/libsfs/libsfs.c:234-283 | with no page to allocate returns all-ones with nothing changed; otherwise pops the free list and, when the headers can be read and all writes fit, returns the popped page and leaves the image spliced; an unreadable header returns all-ones with the image unchanged |
| Sfs.FileSystem.SpliceAfter | src/libsfs/libsfs.c:240-281 | fails with nothing written when page's header or its successor's cannot be read; otherwise succeeds exactly when all three header writes fit, and then the image is SplicedContents |
| Sfs.FileSystem.RepointSuccessor | src/libsfs/libsfs.c:253-268 | an unreadable successor fails with nothing written; otherwise its header is rewritten with previous_page = the new page, succeeding exactly when the 40 bytes fit |
| Sfs.FileSystem.WriteHeaderPair | src/libsfs/libsfs.c:270-280 | succeeds exactly when both headers fit, and then page's header and the new page's header are the ones given |
| Sfs.SpliceHeaders | src/libsfs/libsfs.c:246-281 | after the splice the new page points back to page and forward to page's old successor (or none), page points forward to the new page, the old successor points back to it, and the other fields are copied from page |
| Sfs.SpliceKeepsOtherHeaders | src/libsfs/libsfs.c:234-283 | the splice changes the header of no page but page, the new page and page's old successor |
| SlotTable.Table.constructor | src/libtable/libtable.c:6-20 | first free index 0, slot i links to i + 1 and the last slot to -1, no data: the free list is 0, 1, ..., n - 1 |
| SlotTable.Table.AllocateIndex | src/libtable/libtable.c:25-33 | with the head -1 returns -1 and changes nothing; otherwise returns the head and makes its link the new head, without touching the array; on a valid table it pops the free list and keeps the table valid |
| SlotTable.Table.FreeIndex | src/libtable/libtable.c:34-38 | the slot links to the old head and becomes the head, nothing else changes; freeing a slot that is not free keeps the table valid, while a double free is not guarded |
| SlotTable.Table.GetData | src/libtable/libtable.c:39-41 | the data pointer stored in the slot; SetData's contract ties the two: after setting, GetData of that slot returns the data set and every other slot's GetData is unchanged |
| SlotTable.Table.SetData | src/libtable/libtable.c:42-44 | the slot keeps its link and takes the new data, every other slot is left exactly as it was (link and data), so GetData of the slot returns the data set and validity is kept |
| SlotTable.PopChain | src/libtable/libtable.c:29-31 | taking the head of a free chain leaves a chain starting at the head's link |
| SlotTable.PushChain | src/libtable/libtable.c:36-37 | pushing a slot that is not on the chain, linked to the old head, gives a chain one longer |
| SlotTable.ChainIgnoresData | src/libtable/libtable.c:42-44 | a free chain survives any change to the data of the slots |
| SlotTable.FreeListBounded | src/libtable/libtable.c:25-38 | the free slots of a valid table are distinct indices below the size, so there are at most size of them |
| SlotTable.AllocateTimes | src/libtable/libtable.c:25-33 | k allocations in a row on a valid table return the first k slots of the free list, head first, and leave the rest of the list |
| SlotTable.FreeAscending | src/libtable/libtable.c:34-38 | freeing 0, 1, ..., n - 1 in that order on a full table leaves the free list n - 1, ..., 1, 0 |
| SlotTable.ReuseFreed | src/libtable/libtable.c:25-38 | freeing a slot and allocating straight away returns that slot and restores the head and the free list |
| SlotTable.FreshAllocationOrder | src/libtable/test.c:7-10 | a new table of n slots hands out 0, 1, ..., n - 1 in order, then -1 |
| SlotTable.AllocateFreeReallocate | src/libtable/test.c:6-18 | n allocations give 0 .. n - 1; freeing 0 .. n - 1 and allocating n times again gives n - 1, ..., 0 |
| Bst.InsertContents | src/libbst/libbst.c:59-91 | insertion adds exactly one datum, the new one, and exactly one node |
| Bst.InsertOrdered | src/libbst/libbst.c:74-89 | insertion keeps the search-tree order: left descendants d of a have datacmp(a, d) <= 0, right ones > 0 |
| Bst.InOrder | src/libbst/libbst.c:22-29 | the in-order sequence holds every datum of the tree exactly once |
| Bst.PostOrder | src/libbst/libbst.c:8-20 | the post-order sequence holds every datum of the tree exactly once |
| Bst.InOrderDescending | src/libbst/libbst.h:18 | for a comparator obeying the header's convention, the in-order traversal of an ordered tree runs from greatest to least |
| Bst.BstNode.constructor | src/libbst/libbst.c:60-66 | a new node holds the datum with null left and right children, so it roots the one-node tree |
| Bst.BstTree.constructor | src/libbst/libbst.c:33-42 | a new tree has a null root, no nodes and its own copy of the user functions |
| Bst.BstTree.NewNode | src/libbst/libbst.c:59-91 | a fresh leaf holding x is linked in; on an empty tree it becomes the root; otherwise exactly one previously null child link changes and no other link or datum does; the tree becomes Insert(old tree, x) and stays valid and ordered |
| Bst.BstTree.LinkLeaf | src/libbst/libbst.c:74-89 | the walk from the root going left on datacmp <= 0 and right otherwise links the leaf at the first null child it meets; only that link changes and the root's tree becomes Insert(old tree, x) |
| Bst.BstTree.Attach | src/libbst/libbst.c:76-87 | the leaf becomes current's left or right child as the walk chose, and the other child stays |
| Bst.BstTree.DeleteSubtree | src/libbst/libbst.c:8-20 | free_data is called on the subtree's data in post-order, once per node, and never when free_data is NULL |
| Bst.BstTree.DeleteAllNodes | src/libbst/libbst.c:54-58 | free_data is called once per node of the old tree, in post-order, and the root becomes null |
| Bst.BstTree.Delete | src/libbst/libbst.c:44-52 | bst_delete is bst_delete_all_nodes: free_data is called once per node of the old tree in post-order (never when it is NULL) and the tree is left empty; the release of the function table and the handle is not modelled |
| Bst.BstTree.PrintSubtree | src/libbst/libbst.c:22-29 | print_data is called on the subtree's data in order, left, node, right |
| Bst.BstTree.PrintNodesInorder | src/libbst/libbst.c:92-94 | print_data is called on the whole tree's data in order, each datum once |

## Left out

- POSIX I/O itself is not modelled. `open`, `lseek`, `read`, `write`, `close` and errno are replaced by `BackingFile`, and the only failures are a negative seek offset, a short read at end of file and a short write at the size limit. `strerror` is a parameter of `ErrnoToStr`.
- Opening or creating the image path (`O_CREAT`) is not modelled. `OpenFs` takes an already open file. `close(2)` in `sfs_open_fs` and `sfs_close_fs` is left out too.
- `sfs_perror` and `sfs_print_info` only print, so they are left out. So are the other print-only effects: `PERROR("lseek64")` in `sfs_seek_to_page` and `printf("reading superblock\n")` in `sfs_open_fs`.
- `sfs_read_page`, `sfs_inode_remove_continuation_page`, `sfs_inode_set_pointer`, `sfs_inode_get_pointer`, `sfs_inode_realocate_pointers` and `sfs_inode_remove_pointer` are declared but have no body, so they are not modelled.
- `bst_delete_node` and `bst_find_node` are declared but have no body, so they are not modelled.
- The generation counter, inode modes and names, file content read, write and resize, and deferred deletion do not exist in the code, so they are not modelled.
- The mount tool, the mkfs tool and the libscrapfs headers are not modelled, because they hold no logic of the core. `MkfsImage` only states the image mkfs.sfs leaves when run on a path that does not exist yet or on an empty file. mkfs.sfs opens with `O_CREAT` but not `O_TRUNC`, so on an existing file only the first 20 bytes are rewritten.
- `malloc` and `free` are not modelled. Nodes and tables are Dafny allocations. `table_delete` only frees the array and the struct, so it is left out. `bst_delete` is `DeleteAllNodes` followed by freeing the function table and the struct; `Bst.BstTree.Delete` models the first part, and the two frees are not modelled. The user-function copy in `bst_new` is a value copy.
- The return values of `bst_new_node` and `bst_delete` are not modelled, because neither function has a return statement and the values are undefined. `NewNode` returns the node instead.
- The `parent` field of `struct bst_node` is left out, because it is never set or read. The ghost map `parentOf` plays its role in the proofs.
- `print_data` and `free_data` are not called as functions. The traversals return the data those callbacks would receive, in order. `UserFunctions` keeps only whether `free_data` is NULL.
- Bst.BstTree.LinkLeaf: the source calls `datacmp` a second time in its `else if`. The model treats that branch as a plain `else`, because `datacmp` is a pure function here. A comparator with side effects or one that changes its answer is not modelled.
- Sfs.FileSystem.InsertContinuationPage: the contents after a failure in the middle of the three header writes are not stated. The method promises only the success case, the two no-write failure cases, and the popped free-list head.
- A `read` or `write` that fails returns -1, and every check `result < sizeof(...)` in `libsfs.c` (lines 54, 66, 74, 108, 112, 116, 148, 153, 203 and 217) compares that signed value with an unsigned `size_t`. -1 becomes `SIZE_MAX`, so the code takes a failed transfer for a complete one. The model's transfers never return -1, so that outcome is not represented; the lines below name the members it affects.
- Sfs.FileSystem.FreePage: a free-record write that fails with -1 is reported by the code as success (status 0) with the head already moved to the page; the model returns -1 only for a short write and cannot show that case.
- Sfs.FileSystem.WriteFreeRecord: a tag or link write returning -1 is not represented.
- Sfs.FileSystem.UpdateSuperblock: a field write that fails with -1 lets the code carry on to the next field and return 0; the model does not represent that outcome.
- Sfs.FileSystem.WriteSuperblockBytes: a field write returning -1 is not represented.
- Sfs.FileSystem.CloseFs: inherits the UpdateSuperblock gap; a superblock flush that fails with -1 is reported as success by the code.
- Sfs.FileSystem.WriteInodeHeader: a header write that fails with -1 is reported by the code as success; the model does not represent that outcome.
- Sfs.FileSystem.ReadInodeHeaders: a header read that fails with -1 is taken by the code as a full read of uninitialised bytes; the model does not represent that outcome.
- Sfs.ReadSuperblock: a field read that fails with -1 is taken by the code as a full read; the model does not represent that outcome.
- Sfs.OpenFs: inherits the ReadSuperblock gap.
- Sfs.FileSystem.InsertContinuationPage: inherits the ReadInodeHeaders and WriteInodeHeader gaps.
- Sfs.NextFreeLink: read errors other than end of file are not modelled. `sfs_allocate_page` checks only for a negative read result.
- SlotTable.Table.constructor: it requires 1 <= size <= 2^31. `table_new(0)` writes `array[-1]`, and indices are C ints.
- SlotTable.Table.FreeIndex: a double free is allowed, as in the source. Validity is promised only when the slot was not already free.

## Findings

| source | as written | input that shows it | evidently intended | confidence | as-written member | corrected member |
|---|---|---|---|---|---|---|
| src/libsfs/libsfs.c:174-181 | `sfs_allocate_page` rejects only a negative read result. A short read of the 8-byte next index leaves the rest of the local variable uninitialised, and that value becomes the new free-list head. | The image mkfs.sfs leaves when run on a path that does not exist yet (or on an empty file): a 20-byte superblock with free head 0 and no page bytes. The allocation returns page 0, and the new head comes from stale stack bytes. | Treat a read shorter than 8 bytes like a failed read: return all-ones and leave the head unchanged. | not executed | Sfs.AllocatePageAsWritten, Sfs.AllocateAsWrittenReadsStaleBytes | Sfs.FileSystem.AllocatePage, Sfs.FreshImageAllocationFails |
