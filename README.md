# The Annotated STL Sources, modelled in Dafny

This project models the core of "The Annotated STL Sources", a C++ re-implementation of SGI STL
pieces written to go with the book. It then proves properties of that model.

The centre is SGI's two-level allocator:

- **`mallocAlloc`** (first level) is a thin layer over `malloc`/`realloc`/`free`. It has a
  replaceable out-of-memory handler and a retry loop. When the handler slot is found empty, it
  prints "Out of Memory." and exits.
- **`sgiAlloc`** (second level) rounds small requests (at most 128 bytes) up to a multiple of 8. It
  serves each one from one of 16 free lists, refills an empty list from a memory pool, and grows
  the pool from `malloc`. When growth fails, it scavenges the lists of larger blocks. Requests
  above 128 bytes go to the first level. The model's invariant counts bytes: the pool, the blocks
  on the lists and the blocks handed out are disjoint, lie below the heap's break, and add up to
  exactly `heapSize`, the bytes the pool has obtained so far.
- **`SimpleAllocator` / `Simple_Alloc`** are the typed front ends. The first passes element counts
  on unscaled; the second scales them by `sizeof(Type)`.

Around the allocator, the model covers these containers and algorithms:

- `My_Vector` (three pointers over an allocated block) and the fixed-size `array`;
- the deque iterator (a map of fixed-size buffers) and the heap algorithms;
- the `stack` and `queue` adapters;
- the circular list with a sentinel and its iterator;
- a singly linked list (`MyForwardList`) with its node and iterator;
- the single-owner smart pointer `myAutoPointer`;
- the red-black tree's node, iterators and header;
- the tag-dispatched `distance`/`advance`, SGI's `power`, `find`/`for_each`, and the `INT` class
  with its increment operators.

Each piece follows the form of its source:

- **Classes for state changed in place.** Objects whose fields change become classes with
  `modifies` clauses. A single pointer ends up in one of two forms:
  - a Dafny object (the forward-list nodes and their iterator, the vector's block);
  - an index into a node store (the sentinel list, the red-black tree).
- **Loops become `while` loops.** Each is proved against a function of the inputs or the old state.
- **Expression code becomes functions.** Code made of single expressions becomes functions with
  named results.
- **Foreign calls become an oracle.** Calls into the C runtime (`malloc`, `realloc`, `free`,
  `memcpy`) become the class `SystemHeap.Heap`:
  - a successful allocation hands out a fresh range above every earlier one;
  - whether the next raw call fails is read from a script fixed in advance;
  - frees and copies are logged.
- **Unbounded integers.** Sizes and addresses are unbounded naturals, and `NULL` is address 0.

The files:

| File | Contents |
|---|---|
| `wrappers.dfy` | `Option` and `Result` |
| `system_heap.dfy` | the raw C heap |
| `regions.dfy` | byte ranges and their disjointness |
| `malloc_alloc.dfy` | the first level |
| `default_alloc.dfy` | the second level |
| `simple_alloc.dfy` | the two front ends |
| `vector.dfy`, `array.dfy`, `deque_iterator.dfy`, `heap.dfy`, `stack.dfy`, `queue.dfy`, `sequence_order.dfy` | the chapter-4 containers |
| `list.dfy`, `list_iterator.dfy` | the sentinel list |
| `forward_list*.dfy` | the forward list |
| `auto_pointer.dfy` | `myAutoPointer` |
| `rb_tree*.dfy` | the red-black tree |
| `stl_iterator.dfy`, `power.dfy`, `find_for_each.dfy`, `int_operators.dfy` | the small examples |

Six operations of the code do not do what their documentation and tests evidently intend. For
these the primary members model the corrected operation, and the code as written is a separate
member beside it; `## Findings` names both for each:

- `deallocate` above 128 bytes;
- the vector's spare-room `insert`;
- the forward list's `erase` of the tail;
- the forward list's `sort`;
- the red-black tree's `decrement`;
- the unscaled counts of `SimpleAllocator`.

Three further documented behaviours the code does not have are modelled as the code has them,
not as the documentation describes them:

- `__adjust_heap` (and so `make_heap`, `pop_heap` and `sort_heap`);
- the `queue` whose `front()` is the newest element;
- the red-black tree's `clear()`, which only resets the count.

## Model

| member | source | states |
|---|---|---|
| SystemHeap.Heap.Malloc | src/2_2_6-10/src/include/mallocAllocTemplate.h:57 | raw malloc(n): NULL when the script says this call fails, otherwise a fresh range [brk, brk + n) above everything handed out before; the script loses one entry |
| SystemHeap.Heap.Realloc | src/2_2_6-10/src/include/mallocAllocTemplate.h:86 | raw realloc(p, n): NULL with the old block kept on failure, otherwise a fresh range and the old block released |
| SystemHeap.Heap.Free | src/2_2_6-10/src/include/mallocAllocTemplate.h:73 | raw free(p) is recorded and changes nothing else |
| SystemHeap.Heap.Memcpy | src/2_2_6-10/src/include/defaultAllocTemplate.h:378 | memcpy(dst, src, bytes) is recorded and changes nothing else |
| MallocAlloc.MallocAllocator.constructor | src/2_2_6-10/src/include/mallocAllocTemplate.h:119-120 | the handler slot starts out holding myAllocHandler |
| MallocAlloc.MallocAllocator.SetMallocHandler | src/2_2_6-10/src/include/mallocAllocTemplate.h:103-113 | installs h and returns the handler it replaces |
| MallocAlloc.SetAndRestore | src/2_2_6-10/src/include/mallocAllocTemplate.h:103-113 | set(h) followed by set(previous) restores the slot |
| MallocAlloc.MallocAllocator.RunHandler | src/2_2_6-10/src/include/mallocAllocTemplate.h:149 | a handler call leaves the slot as it was, unless the handler uninstalls itself |
| MallocAlloc.LeadingFailures | src/2_2_6-10/src/include/mallocAllocTemplate.h:140-157 | the number of failing raw calls at the head of the script: all of them fail, and the next one (if any) succeeds |
| MallocAlloc.RetryBound | src/2_2_6-10/src/include/mallocAllocTemplate.h:140-157 | the retry loop calls the handler at most once per scripted failure plus once more, so it terminates |
| MallocAlloc.PersistentHandlerServes | src/2_2_6-10/src/include/mallocAllocTemplate.h:140-157 | with a handler that never uninstalls itself, the loop always ends with a block, after one handler call per failing retry plus one |
| MallocAlloc.RetryFailsOnlyOnNullSlot | src/2_2_6-10/src/include/mallocAllocTemplate.h:143-146 | the loop ends without a block exactly when it reads a null slot: null from the start, or the handler uninstalled itself and the retry after it failed |
| MallocAlloc.MallocAllocator.OomMalloc | src/2_2_6-10/src/include/mallocAllocTemplate.h:134-158 | the retry loop behind a failed malloc: its result, handler calls, slot and heap are those of the retry specification; a block is fresh and non-null, and on out-of-memory the break is unchanged |
| MallocAlloc.MallocAllocator.OomRealloc | src/2_2_6-10/src/include/mallocAllocTemplate.h:163-180 | the same loop behind a failed realloc; on success the old block is released |
| MallocAlloc.MallocAllocator.Allocate | src/2_2_6-10/src/include/mallocAllocTemplate.h:55-63 | malloc's block whenever the raw call or a retry succeeds; the retry loop runs only after a null; the result is never NULL |
| MallocAlloc.MallocAllocator.Deallocate | src/2_2_6-10/src/include/mallocAllocTemplate.h:73 | free(p), whatever the size argument |
| MallocAlloc.MallocAllocator.Reallocate | src/2_2_6-10/src/include/mallocAllocTemplate.h:84-92 | realloc(p, newSize), with the retry loop only after a null; on success p is released |
| DefaultAlloc.RoundUp | src/2_2_6-10/src/include/defaultAllocTemplate.h:46-55 | a multiple of 8 between bytes and bytes + 7 |
| DefaultAlloc.RoundUpLeast | src/2_2_6-10/src/include/defaultAllocTemplate.h:46-55 | roundUp(bytes) is the least multiple of 8 not below bytes |
| DefaultAlloc.FreeListIndex | src/2_2_6-10/src/include/defaultAllocTemplate.h:78-96 | (bytes + 7) / 8 - 1 is roundUp(bytes) / 8 - 1, below 16 for requests of at most 128 bytes |
| DefaultAlloc.ClassSizeOfIndex | src/2_2_6-10/src/include/defaultAllocTemplate.h:78-96 | the blocks of a request's list are exactly the request rounded up |
| DefaultAlloc.ClassSizeOfAligned | src/2_2_6-10/src/include/defaultAllocTemplate.h:78-96 | a rounded size is the block size of its own list |
| DefaultAlloc.SameList | src/2_2_6-10/src/include/defaultAllocTemplate.h:46-96 | two requests share a free list exactly when they round up to the same size |
| DefaultAlloc.RoundUpExamples | src/2_2_6-10/src/include/defaultAllocTemplate.h:46-96 | 119 rounds to 120, 98 to 104 and 0 to 0; 1, 40 and 128 bytes go to lists 0, 4 and 15 |
| DefaultAlloc.CarveSize | src/2_2_6-10/src/include/defaultAllocTemplate.h:187-216 | the bytes the first two branches of chunkAlloc carve are non-zero, lie inside the pool, and are a multiple of 8 |
| DefaultAlloc.FullBatch | src/2_2_6-10/src/include/defaultAllocTemplate.h:187-198 | when the whole batch fits, what is left of the pool stays a multiple of 8 |
| DefaultAlloc.PartialBatch | src/2_2_6-10/src/include/defaultAllocTemplate.h:199-216 | otherwise remaining / size nodes (at least one, fewer than asked) are carved, and the leftover is smaller than one node and a multiple of 8 |
| DefaultAlloc.GrowthFacts | src/2_2_6-10/src/include/defaultAllocTemplate.h:221 | the growth request 2 * size * nobjs + roundUp(heapSize >> 4) is a multiple of 8 and covers the whole batch |
| DefaultAlloc.PoolCut | src/2_2_6-10/src/include/defaultAllocTemplate.h:194-195 | a chunk cut from the front of the pool is disjoint from every listed and held block |
| DefaultAlloc.SalvageSound | src/2_2_6-10/src/include/defaultAllocTemplate.h:224-232 | filing the pool's leftover as one block on the list of its size keeps every block disjoint |
| DefaultAlloc.SalvageMoves | src/2_2_6-10/src/include/defaultAllocTemplate.h:224-232 | a non-empty leftover moves from the pool to the lists and nothing else moves |
| DefaultAlloc.FreshPool | src/2_2_6-10/src/include/defaultAllocTemplate.h:235-260 | a block malloc hands out can become the pool, disjoint from everything owned |
| DefaultAlloc.NoPool | src/2_2_6-10/src/include/defaultAllocTemplate.h:256 | an emptied pool leaves the owned blocks disjoint |
| DefaultAlloc.ListHeadPool | src/2_2_6-10/src/include/defaultAllocTemplate.h:247-252 | the head block of a scavenged list, taken off it, can become the pool |
| DefaultAlloc.FirstStocked | src/2_2_6-10/src/include/defaultAllocTemplate.h:242-255 | the first non-empty list at or after index i, or None when all are empty; the lists before it are empty |
| DefaultAlloc.FirstStockedAt | src/2_2_6-10/src/include/defaultAllocTemplate.h:242-255 | the first non-empty list is the one the scan stops at |
| DefaultAlloc.FirstStockedNone | src/2_2_6-10/src/include/defaultAllocTemplate.h:242-255 | with every list from i on empty, the scan finds nothing |
| DefaultAlloc.Grown | src/2_2_6-10/src/include/defaultAllocTemplate.h:235-260 | growing the pool (malloc, else scavenging, else the first level) gives a pool of at least one node whenever it succeeds |
| DefaultAlloc.Scavenged | src/2_2_6-10/src/include/defaultAllocTemplate.h:237-258 | after malloc has failed, a pool of at least one node is found whenever the scan or the first level succeeds |
| DefaultAlloc.TakeHead | src/2_2_6-10/src/include/defaultAllocTemplate.h:247-252 | the head of list j becomes a pool of exactly that list's block size |
| DefaultAlloc.Fallback | src/2_2_6-10/src/include/defaultAllocTemplate.h:256-257 | the first level's block becomes the pool, of exactly the requested bytes; the lists are untouched |
| DefaultAlloc.FromPoolFacts | src/2_2_6-10/src/include/defaultAllocTemplate.h:187-216 | from a pool of at least one node: one to nobjs nodes, the whole batch exactly when it fits, otherwise a leftover too small for another node; the chunk is the front of the pool, only the pool start moves, and the pool stays a multiple of 8 |
| DefaultAlloc.Replenished | src/2_2_6-10/src/include/defaultAllocTemplate.h:217-263 | the third branch keeps the 16 lists |
| DefaultAlloc.ChunkSpec | src/2_2_6-10/src/include/defaultAllocTemplate.h:181-264 | chunkAlloc keeps the 16 lists |
| DefaultAlloc.ChunkCount | src/2_2_6-10/src/include/defaultAllocTemplate.h:181-264 | chunkAlloc hands back at least one node and never more than were asked for |
| DefaultAlloc.ReplenishedCount | src/2_2_6-10/src/include/defaultAllocTemplate.h:217-263 | the same bound for the third branch, after the pool has grown |
| DefaultAlloc.FromPoolCount | src/2_2_6-10/src/include/defaultAllocTemplate.h:187-216 | the same bound for the first two branches |
| DefaultAlloc.ChunkKeepsEmpty | src/2_2_6-10/src/include/defaultAllocTemplate.h:224-255 | chunkAlloc files a leftover only on a list of smaller blocks and takes a block only from a non-empty list, so the empty list reFill is about to install stays empty |
| DefaultAlloc.RefillStep | src/2_2_6-10/src/include/defaultAllocTemplate.h:107-171 | what reFill does with chunkAlloc's result: one node goes to the caller, and the other count - 1 nodes, in ascending address order, become list freeListIndex(n) |
| DefaultAlloc.Deallocated | src/2_2_6-10/src/include/defaultAllocTemplate.h:325-355 | deallocate keeps the 16 lists |
| DefaultAlloc.DeallocateFallThrough | src/2_2_6-10/src/include/defaultAllocTemplate.h:333-354 | as written, every deallocate above 128 bytes indexes past the 16 lists (index 24 for 200 bytes); below it, the as-written and corrected versions agree |
| DefaultAlloc.ReallocStep | src/2_2_6-10/src/include/defaultAllocTemplate.h:366-384 | once allocate(newSize) has run, reallocate is a memcpy of min(oldSize, newSize) bytes followed by deallocate(p, oldSize) |
| DefaultAlloc.DeallocateThenAllocate | src/2_2_6-10/src/include/defaultAllocTemplate.h:285-355 | deallocate(p, n) followed by allocate(n) returns p and restores the state: the lists are LIFO |
| DefaultAlloc.AllocateFromList | src/2_2_6-10/src/include/defaultAllocTemplate.h:294-311 | a small allocate from a non-empty list returns its head, and only that list changes, to its tail |
| DefaultAlloc.FirstAllocate40 | src/2_2_6-10/src/include/defaultAllocTemplate.h:285-312 | on a fresh allocator with malloc succeeding, allocate(40) grows the pool by 1600 bytes, hands out one block, leaves 19 blocks on list 4, and leaves 800 bytes in the pool |
| DefaultAlloc.FirstChunk40 | src/2_2_6-10/src/include/defaultAllocTemplate.h:181-264 | the chunkAlloc(40, 20) inside that call: 20 nodes from address 1, and the pool [801, 1601) |
| DefaultAlloc.Allocated | src/2_2_6-10/src/include/defaultAllocTemplate.h:285-312 | allocate keeps the 16 lists; above 128 bytes the lists and the pool are untouched; from a non-empty list it hands out that list's head without calling malloc |
| DefaultAlloc.DeallocatedAsWritten | src/2_2_6-10/src/include/defaultAllocTemplate.h:333-354 | as written, deallocate fails exactly above 128 bytes, by indexing past the 16 lists, and otherwise is the corrected deallocate |
| DefaultAlloc.Reallocated | src/2_2_6-10/src/include/defaultAllocTemplate.h:366-384 | reallocate keeps the 16 lists, leaves them alone above 128 bytes, hands back the block allocate(newSize) gives, and on success puts the old small block at the head of its list |
| DefaultAlloc.FirstGrowth40 | src/2_2_6-10/src/include/defaultAllocTemplate.h:217-262 | on an empty pool the growth makes [1, 1601) the pool, and chunkAlloc recurses into the first branch |
| DefaultAlloc.PopToHeld | src/2_2_6-10/src/include/defaultAllocTemplate.h:308-311 | the head of a list passes to the caller and everything stays disjoint |
| DefaultAlloc.PushFromHeld | src/2_2_6-10/src/include/defaultAllocTemplate.h:343-354 | a block the caller held goes back on its list and everything stays disjoint |
| DefaultAlloc.ChunkToHeld | src/2_2_6-10/src/include/defaultAllocTemplate.h:126 | a one-node chunk passes to the caller whole |
| DefaultAlloc.ChunkToList | src/2_2_6-10/src/include/defaultAllocTemplate.h:129-168 | from a chunk of k nodes, the first passes to the caller and the other k - 1 form list j, all disjoint |
| DefaultAlloc.ChunkPieces | src/2_2_6-10/src/include/defaultAllocTemplate.h:144-168 | a chunk owned as one region may instead be owned as its k consecutive nodes |
| DefaultAlloc.ListBytesUpdate | src/2_2_6-10/src/include/defaultAllocTemplate.h:129-168 | replacing one free list changes the listed byte count by the difference of the two lists' sizes times its block size |
| DefaultAlloc.ListBytesRegions | src/2_2_6-10/src/include/defaultAllocTemplate.h:69 | the listed byte count is the total size of the listed blocks |
| DefaultAlloc.OwnedBytes | src/2_2_6-10/src/include/defaultAllocTemplate.h:181-264 | the pool, the listed blocks and the held blocks together cover exactly the pool's size plus the listed and held byte counts |
| DefaultAlloc.StockPush | src/2_2_6-10/src/include/defaultAllocTemplate.h:343-354 | a block given back goes on its list and no byte is created or lost |
| DefaultAlloc.StockPop | src/2_2_6-10/src/include/defaultAllocTemplate.h:308-311 | the head of a list passes to the caller and no byte is created or lost |
| DefaultAlloc.StockTakeHead | src/2_2_6-10/src/include/defaultAllocTemplate.h:247-252 | a scavenged head block leaves the lists with exactly its block size, which the new pool then holds |
| DefaultAlloc.StockSalvage | src/2_2_6-10/src/include/defaultAllocTemplate.h:224-232 | the pool's leftover, filed on its list, adds exactly its size to the listed bytes |
| DefaultAlloc.StockInstall | src/2_2_6-10/src/include/defaultAllocTemplate.h:129-168 | a chunk of k nodes, one held and k - 1 listed, adds exactly k times the node size |
| DefaultAlloc.HeadPoolAccounted | src/2_2_6-10/src/include/defaultAllocTemplate.h:247-252 | taking a scavenged head block as the pool keeps every block disjoint and every byte counted |
| DefaultAlloc.DefaultAllocator.ConservesBytes | src/2_2_6-10/src/include/defaultAllocTemplate.h:259 | in a valid state the pool, the listed blocks and the held blocks cover exactly heapSize bytes: the bytes obtained by every growth so far |
| DefaultAlloc.DefaultAllocator.constructor | src/2_2_6-10/src/include/defaultAllocTemplate.h:387-398 | 16 empty free lists, an empty pool, heapSize 0, nothing held |
| DefaultAlloc.DefaultAllocator.SalvageLeftover | src/2_2_6-10/src/include/defaultAllocTemplate.h:224-232 | the leftover of a pool too small for one node goes on the list of its size |
| DefaultAlloc.DefaultAllocator.Cannibalise | src/2_2_6-10/src/include/defaultAllocTemplate.h:237-255 | the first non-empty list from freeListIndex(size) on gives up its head as the new pool; finding none changes nothing |
| DefaultAlloc.DefaultAllocator.HeadToPool | src/2_2_6-10/src/include/defaultAllocTemplate.h:247-252 | the head block of list j leaves the list and becomes the pool |
| DefaultAlloc.DefaultAllocator.CarveFromPool | src/2_2_6-10/src/include/defaultAllocTemplate.h:187-216 | the state, chunk and count of chunkAlloc's first two branches |
| DefaultAlloc.DefaultAllocator.TakeFromPool | src/2_2_6-10/src/include/defaultAllocTemplate.h:194-195 | the chunk is the pool's old start, only the start advances by bytes, and the chunk is owned by nobody else |
| DefaultAlloc.DefaultAllocator.AdoptPool | src/2_2_6-10/src/include/defaultAllocTemplate.h:259-260 | a fresh block becomes the pool and heapSize grows by exactly its size |
| DefaultAlloc.DefaultAllocator.GrowPool | src/2_2_6-10/src/include/defaultAllocTemplate.h:235-260 | the state of the growth specification |
| DefaultAlloc.DefaultAllocator.Scavenge | src/2_2_6-10/src/include/defaultAllocTemplate.h:237-258 | the state of the scavenging specification |
| DefaultAlloc.DefaultAllocator.FallBack | src/2_2_6-10/src/include/defaultAllocTemplate.h:256-257 | the state of the first-level fallback, with the pool's end cleared first |
| DefaultAlloc.DefaultAllocator.SalvageAndGrow | src/2_2_6-10/src/include/defaultAllocTemplate.h:224-260 | the leftover is salvaged and then the pool grows |
| DefaultAlloc.DefaultAllocator.ReplenishPool | src/2_2_6-10/src/include/defaultAllocTemplate.h:217-263 | the state, chunk and count of the third branch, with the chunk owned by nobody else |
| DefaultAlloc.DefaultAllocator.ChunkAlloc | src/2_2_6-10/src/include/defaultAllocTemplate.h:181-264 | the state, chunk and count of the chunkAlloc specification; a chunk is disjoint from every listed and held block |
| DefaultAlloc.DefaultAllocator.ThreadNodes | src/2_2_6-10/src/include/defaultAllocTemplate.h:144-168 | the link loop spells the list of k consecutive nodes from a, ending in null |
| DefaultAlloc.DefaultAllocator.ReFill | src/2_2_6-10/src/include/defaultAllocTemplate.h:107-171 | the state and block of the reFill specification; the block handed out becomes held; all blocks stay disjoint |
| DefaultAlloc.DefaultAllocator.Distribute | src/2_2_6-10/src/include/defaultAllocTemplate.h:120-171 | a one-node chunk goes to the caller with the lists untouched; otherwise the rest of the chunk becomes list j |
| DefaultAlloc.DefaultAllocator.KeepChunk | src/2_2_6-10/src/include/defaultAllocTemplate.h:126 | the single node becomes held and the state is unchanged |
| DefaultAlloc.DefaultAllocator.InstallChunk | src/2_2_6-10/src/include/defaultAllocTemplate.h:129-168 | the first node becomes held and the threaded rest becomes list j; nothing else changes |
| DefaultAlloc.DefaultAllocator.Allocate | src/2_2_6-10/src/include/defaultAllocTemplate.h:285-312 | the state and block of the allocate specification; a small block of roundUp(n) bytes becomes held |
| DefaultAlloc.DefaultAllocator.LargeAllocate | src/2_2_6-10/src/include/defaultAllocTemplate.h:291 | a request above 128 bytes is the first level's allocate |
| DefaultAlloc.DefaultAllocator.PopHead | src/2_2_6-10/src/include/defaultAllocTemplate.h:308-311 | the head of list j is returned and the list becomes its tail |
| DefaultAlloc.DefaultAllocator.Deallocate | src/2_2_6-10/src/include/defaultAllocTemplate.h:325-355 | the corrected deallocate: first-level free above 128 bytes and nothing more; otherwise p goes on the head of its list and stops being held |
| DefaultAlloc.DefaultAllocator.PushHead | src/2_2_6-10/src/include/defaultAllocTemplate.h:343-354 | a held block goes back on the head of list j |
| DefaultAlloc.DefaultAllocator.Reallocate | src/2_2_6-10/src/include/defaultAllocTemplate.h:366-384 | the state and block of the reallocate specification; the new small block becomes held and the old one stops being held |
| DefaultAlloc.DefaultAllocator.SmallReallocate | src/2_2_6-10/src/include/defaultAllocTemplate.h:372-381 | allocate(newSize), memcpy of min(oldSize, newSize) bytes, deallocate(p, oldSize) |
| DefaultAlloc.DefaultAllocator.CopyAndRelease | src/2_2_6-10/src/include/defaultAllocTemplate.h:375-381 | the copy is logged and then p is deallocated with oldSize |
| DefaultAlloc.DefaultAllocator.LargeReallocate | src/2_2_6-10/src/include/defaultAllocTemplate.h:369 | a resize between large sizes is the first level's reallocate |
| SimpleAllocate.Allocate | src/2_2_6-10/src/include/simpleAlloc.h:23 | nullptr without a call exactly when n == 0; otherwise n bytes are requested, unscaled |
| AllocForward.AllocateOne | src/2_2_6-10/src/include/simpleAlloc.h:25 | one request of sizeof(Type) bytes; src/4_2/simple_allocator/simpleAlloc.h:16-20 makes the same call |
| SimpleAllocate.Deallocate | src/2_2_6-10/src/include/simpleAlloc.h:27 | nothing exactly when n == 0, otherwise p is handed back |
| AllocForward.DeallocateOne | src/2_2_6-10/src/include/simpleAlloc.h:29 | p is handed back with sizeof(Type) bytes; src/4_2/simple_allocator/simpleAlloc.h:31-35 makes the same call |
| SimpleAllocate.Paired | src/2_2_6-10/src/include/simpleAlloc.h:23-29 | a matched allocate/deallocate pair requests and returns the same byte count, counted or single |
| SimpleAllocate.NeverZero | src/2_2_6-10/src/include/simpleAlloc.h:23-27 | the underlying allocator never sees a zero-byte request through the counted calls |
| SimpleAllocate.UnscaledCount | src/2_2_6-10/src/include/simpleAlloc.h:23 | five 4-byte ints get a 5-byte request, less than the 20 bytes they occupy |
| SimpleAllocScaled.Allocate | src/4_2/simple_allocator/simpleAlloc.h:10-14 | nullptr exactly when n == 0; otherwise n * sizeof(Type) bytes are requested |
| SimpleAllocScaled.Deallocate | src/4_2/simple_allocator/simpleAlloc.h:22-29 | nothing exactly when n == 0, otherwise p is handed back |
| SimpleAllocScaled.Paired | src/4_2/simple_allocator/simpleAlloc.h:10-35 | matched pairs agree on the byte count |
| SimpleAllocScaled.ScaledCount | src/4_2/simple_allocator/simpleAlloc.h:10-14 | n objects get n times one object's bytes: five 4-byte ints get 20 bytes |
| SimpleAllocScaled.NeverZero | src/4_2/simple_allocator/simpleAlloc.h:10-29 | with a non-empty type the underlying allocator never sees a zero-byte request |
| MyVector.Repeat | src/4_2/vector/include/myVector.h:137-154 | n copies of x, the contents the fill constructor and resize produce |
| MyVector.Spliced | src/4_2/vector/include/myVector.h:49-56 | the buffer after a block copy: the copied range lands at its destination and every other slot keeps its value |
| MyVector.Filled | src/4_2/vector/include/myVector.h:374-389 | the buffer after a fill: x in [from, to) and the old value elsewhere |
| MyVector.InsertedAt | src/4_2/vector/include/myVector.h:352-439 | element by element, inserting n copies of x before pos keeps the prefix, puts x in [pos, pos + n) and shifts the suffix by n |
| MyVector.SpareInsertSteps | src/4_2/vector/include/myVector.h:49-56 | the three in-place steps of insertAux (copy the last element out, copy_backward, store x) insert x at pos |
| MyVector.ShiftedTail | src/4_2/vector/include/myVector.h:374-381 | the spare-room insert with more than n elements after pos, filling [pos, pos + n), inserts n copies of x |
| MyVector.FilledTail | src/4_2/vector/include/myVector.h:382-389 | the spare-room insert with at most n elements after pos inserts n copies of x |
| MyVector.GrownSteps | src/4_2/vector/include/myVector.h:391-437 | the reallocating paths (copy the prefix, fill or store, copy the suffix into the new block) insert the new elements |
| MyVector.ErasedSteps | src/4_2/vector/include/myVector.h:320-328 | copying the tail down over [first, last) erases exactly that range |
| MyVector.EraseUndoesInsert | src/4_2/vector/include/myVector.h:320-439 | erasing what was just inserted gives back the old contents |
| MyVector.AppendIsInsertAtEnd | src/4_2/vector/include/myVector.h:296-313 | push_back is insertion at the end, and pop_back then removes it again |
| MyVector.ErasedAt | src/4_2/vector/include/myVector.h:320-345 | element by element, erase keeps the prefix and moves the tail down by the erased length |
| MyVector.GrowthRoom | src/4_2/vector/include/myVector.h:68 | both growth rules leave room for what is inserted: 2 * size (1 when empty) for insertAux here, and size + max(size, n) for insert at line 399 |
| MyVector.SpareInsertOverwrites | src/4_2/vector/include/myVector.h:374-381 | as written, the spare-room insert leaves x at pos + n where the old element at pos belongs, so its result differs from the insertion |
| MyVector.SpareInsertExample | src/4_2/vector/include/myVector.h:374-381 | [1, 2, 3] with room for four and insert(begin(), 1, 9) becomes [9, 9, 9, 3] as written instead of [9, 1, 2, 3] |
| MyVector.SpareInsertAsWritten | src/4_2/vector/include/myVector.h:374-381 | as written, the spare-room insert grows the contents by n, keeps [0, pos), copies the last n old elements into the spare room, and fills all of [pos, old finish) with x |
| MyVector.CopyForward | src/4_2/vector/include/myVector.h:320-328 | std::copy within one buffer moves a[from..to] to dst and leaves every other slot as it was |
| MyVector.CopyBackward | src/4_2/vector/include/myVector.h:374-381 | std::copy_backward moves a[first..last] up to end at dLast and leaves every other slot as it was |
| MyVector.CopyInto | src/4_2/vector/include/myVector.h:57-122 | std::uninitialized_copy into another buffer writes exactly the destination range |
| MyVector.Fill | src/4_2/vector/include/myVector.h:374-389 | std::fill / uninitialized_fill_n set exactly [from, to) to x |
| MyVector.Vector.constructor | src/4_2/vector/include/myVector.h:240 | the default vector has no elements and no capacity |
| MyVector.Vector.FillInitialize | src/4_2/vector/include/myVector.h:149-154 | n copies of value with size == capacity == n |
| MyVector.Vector.Size | src/4_2/vector/include/myVector.h:170 | the number of elements |
| MyVector.Vector.Capacity | src/4_2/vector/include/myVector.h:171 | capacity is never below size |
| MyVector.Vector.Empty | src/4_2/vector/include/myVector.h:179 | empty exactly when there are no elements |
| MyVector.Vector.Front | src/4_2/vector/include/myVector.h:173-177 | the first element |
| MyVector.Vector.Back | src/4_2/vector/include/myVector.h:173-177 | the last element |
| MyVector.Vector.At | src/4_2/vector/include/myVector.h:214-238 | out_of_range with the index and size exactly when n >= size, otherwise element n |
| MyVector.Vector.InsertAux | src/4_2/vector/include/myVector.h:44-123 | x is inserted before pos; the buffer is kept when there was spare room, otherwise replaced by one of capacity 2 * size (1 when empty) |
| MyVector.Vector.PushBack | src/4_2/vector/include/myVector.h:296-304 | the old contents followed by x; in place when there is room, else capacity 2 * size (1 when empty) |
| MyVector.Vector.PopBack | src/4_2/vector/include/myVector.h:309-313 | the last element goes and the buffer stays |
| MyVector.Vector.EraseRange | src/4_2/vector/include/myVector.h:320-328 | exactly [first, last) is removed, the buffer stays, and first is returned |
| MyVector.Vector.Erase | src/4_2/vector/include/myVector.h:333-345 | exactly the element at pos is removed, and pos is returned |
| MyVector.Vector.Clear | src/4_2/vector/include/myVector.h:347 | no elements remain and the buffer stays |
| MyVector.Vector.Insert | src/4_2/vector/include/myVector.h:352-439 | n copies of x inserted before pos; n == 0 changes nothing; with at least n spare slots the buffer stays, else the new capacity is size + max(size, n) |
| MyVector.Vector.InsertSpare | src/4_2/vector/include/myVector.h:372-390 | the spare-room branches insert in place |
| MyVector.Vector.ShiftAndFill | src/4_2/vector/include/myVector.h:374-381 | more than n elements after pos: the corrected branch inserts n copies of x in place |
| MyVector.Vector.FillAndMove | src/4_2/vector/include/myVector.h:382-389 | at most n elements after pos: the branch inserts n copies of x in place |
| MyVector.Vector.Resize | src/4_2/vector/include/myVector.h:444-552 | shrinking keeps exactly the first k elements; growing appends k - size copies of x; the buffer is kept up to the capacity and doubled beyond it |
| MyVector.Vector.Reserve | src/4_2/vector/include/myVector.h:559-576 | k up to the capacity changes nothing; one more grows the buffer by insertAux and appends the value |
| StlArray.Array.constructor | src/4_2/array/include/array.h:103 | aggregate initialisation holds exactly the given values |
| StlArray.Array.Adopt | src/4_2/array/include/array.h:103 | the array built around an existing block of elements |
| StlArray.Array.Size | src/4_2/array/include/array.h:161-162 | size() and max_size() are Size |
| StlArray.Array.Empty | src/4_2/array/include/array.h:164 | empty exactly when Size == 0 |
| StlArray.Array.Get | src/4_2/array/include/array.h:166-185 | operator[] and get<Index> with an index below Size give that element |
| StlArray.Array.At | src/4_2/array/include/array.h:187-225 | out_of_range with index and Size exactly when n >= Size, otherwise elements[n] |
| StlArray.AtAgreesWithGet | src/4_2/array/include/array.h:166-225 | at and operator[] agree wherever at does not throw |
| StlArray.Array.Front | src/4_2/array/include/array.h:227-240 | elements[0] |
| StlArray.Array.Back | src/4_2/array/include/array.h:242-254 | elements[Size - 1] |
| StlArray.Array.Fill | src/4_2/array/include/array.h:109-112 | every element becomes x |
| StlArray.Array.Swap | src/4_2/array/include/array.h:119-123 | the two arrays exchange their contents |
| StlArray.SwapArrays | src/4_2/array/include/array.h:336-341 | the global swap exchanges the two arrays' contents |
| StlArray.RangesEqual | src/4_2/array/include/array.h:276-281 | std::equal is true exactly when the two ranges are equal |
| StlArray.Equal | src/4_2/array/include/array.h:276-281 | operator== holds exactly when every pair of corresponding elements is equal |
| StlArray.LexicographicEquivalent | src/4_2/array/include/array.h:290-328 | the comparison says equivalent exactly for equal contents |
| StlArray.LexicographicFlip | src/4_2/array/include/array.h:290-328 | swapping the operands flips less and greater |
| StlArray.LexicographicFirstDifference | src/4_2/array/include/array.h:315-326 | the result is the order of the first pair at which the two differ |
| StlArray.Compare | src/4_2/array/include/array.h:290-328 | the loop's result is the lexicographic order of the contents |
| StlArray.ToArray | src/4_2/array/include/array.h:410-475 | a new array of the same Size whose element i is source element i |
| DequeIterator.BufferSize | src/4_2/dequeue/include/deque_iterator.h:16-25 | n when n != 0; otherwise the most elements of `size` bytes that fit in 512 bytes, and 1 for elements of 512 bytes or more; never 0 |
| DequeIterator.BufferSizeExamples | src/4_2/dequeue/include/deque_iterator.h:16-25 | 128 four-byte or 64 eight-byte elements per buffer, one 1000-byte element, and an explicit 8 kept |
| DequeIterator.SplitUnique | src/4_2/dequeue/include/deque_iterator.h:57-61 | a position with its offset inside the buffer determines its node |
| DequeIterator.SameCurrent | src/4_2/dequeue/include/deque_iterator.h:235 | equal positions have equal current pointers, and, when no two buffers overlap, equal pointers mean equal positions |
| DequeIterator.PositionOrder | src/4_2/dequeue/include/deque_iterator.h:245-248 | comparing by node and then by current is comparing positions |
| DequeIterator.NodeInRange | src/4_2/dequeue/include/deque_iterator.h:168-201 | a position inside the deque lies in one of its map nodes |
| DequeIterator.NodeOffsetBounds | src/4_2/dequeue/include/deque_iterator.h:192-193 | the node step of += for an offset outside the buffer is the floor of offset / B, so the new offset lies inside the buffer |
| DequeIterator.Iterator.constructor | src/4_2/dequeue/include/deque_iterator.h:57-61 | an iterator at offset k of a map node, at that position |
| DequeIterator.Iterator.Copy | src/4_2/dequeue/include/deque_iterator.h:57-61 | a copy at the same node, current and position |
| DequeIterator.Iterator.SetNode | src/4_2/dequeue/include/deque_iterator.h:72-77 | node n with first and last bounding its buffer; current is not touched |
| DequeIterator.Iterator.Difference | src/4_2/dequeue/include/deque_iterator.h:98-104 | the distance between the two positions |
| DequeIterator.Iterator.Increment | src/4_2/dequeue/include/deque_iterator.h:110-121 | the next position: current + 1 inside the buffer, else first of the next node |
| DequeIterator.Iterator.PostIncrement | src/4_2/dequeue/include/deque_iterator.h:126-132 | the copy from before, and this iterator one position on |
| DequeIterator.Iterator.Decrement | src/4_2/dequeue/include/deque_iterator.h:137-151 | the previous position: current - 1, or last - 1 of the previous node at first |
| DequeIterator.Iterator.PostDecrement | src/4_2/dequeue/include/deque_iterator.h:156-162 | the copy from before, and this iterator one position back |
| DequeIterator.Iterator.AddAssign | src/4_2/dequeue/include/deque_iterator.h:168-201 | the position moves by n; a jump inside the buffer only moves current |
| DequeIterator.Iterator.SubAssign | src/4_2/dequeue/include/deque_iterator.h:219 | the position moves back by n |
| DequeIterator.Iterator.Plus | src/4_2/dequeue/include/deque_iterator.h:210-214 | a new iterator n positions on; this one is not changed |
| DequeIterator.Iterator.Minus | src/4_2/dequeue/include/deque_iterator.h:221-225 | a new iterator n positions back |
| DequeIterator.PlusThenDifference | src/4_2/dequeue/include/deque_iterator.h:98-214 | (it + n) - it == n |
| DequeIterator.Iterator.Equal | src/4_2/dequeue/include/deque_iterator.h:235 | true at equal positions, and exactly at equal positions when no two buffers overlap |
| DequeIterator.Iterator.NotEqual | src/4_2/dequeue/include/deque_iterator.h:240 | the negation of ==, and different positions when buffers are apart |
| DequeIterator.Iterator.Less | src/4_2/dequeue/include/deque_iterator.h:245-248 | exactly when this position comes first |
| HeapAlgorithm.Half | src/4_2/heap/include/heap_algorithm.h:149 | C++ signed division by 2, truncating toward zero; (0 - 1) / 2 is 0 |
| HeapAlgorithm.OnPathFacts | src/4_2/heap/include/heap_algorithm.h:149-161 | the path from a node to the root only goes up, and the parent of the node is on it |
| HeapAlgorithm.OnPathParent | src/4_2/heap/include/heap_algorithm.h:159-160 | each parent of a node on the path is on it too |
| HeapAlgorithm.PastHoleOffPath | src/4_2/heap/include/heap_algorithm.h:149-161 | no position after the hole is on its path |
| HeapAlgorithm.SiftUpStart | src/4_2/heap/include/heap_algorithm.h:143-165 | appending a value to a heap leaves every parent edge in order except the new one |
| HeapAlgorithm.SiftUpStep | src/4_2/heap/include/heap_algorithm.h:154-161 | moving a smaller parent down into the hole and the hole up keeps that invariant |
| HeapAlgorithm.SiftUpDone | src/4_2/heap/include/heap_algorithm.h:154-164 | once the hole's parent is not smaller, the whole range is a heap |
| HeapAlgorithm.SiftUpPermutes | src/4_2/heap/include/heap_algorithm.h:154-164 | the sift-up only exchanges elements |
| HeapAlgorithm.SiftUpFrame | src/4_2/heap/include/heap_algorithm.h:154-164 | only positions on the path from the hole are written, and none above top |
| HeapAlgorithm.SiftUpHeap | src/4_2/heap/include/heap_algorithm.h:143-165 | sifting up the last value of a range that is a heap but for it makes the range a heap |
| HeapAlgorithm.PushHeap | src/4_2/heap/include/heap_algorithm.h:143-165 | the range is the sift-up of the old range plus value, nothing past the hole moves, the elements are the old ones plus value, and with top 0 a heap plus value gives a heap |
| HeapAlgorithm.SiftDownFacts | src/4_2/heap/include/heap_algorithm.h:205-234 | as written, every element after the adjustment was already in the range, and positions outside [hole, len) stay |
| HeapAlgorithm.AdjustHeap | src/4_2/heap/include/heap_algorithm.h:205-234 | the array becomes the as-written adjustment, which never stores value |
| HeapAlgorithm.MakeHeap | src/4_2/heap/include/heap_algorithm.h:236-253 | nothing below two elements; otherwise the adjustment at every parent from (len - 2) / 2 down to 0 |
| HeapAlgorithm.MakeHeapExample | src/4_2/heap/include/heap_algorithm.h:205-253 | as written, make_heap turns [1, 2, 3] into [3, 2, 3], losing an element |
| HeapAlgorithm.MadeFromFacts | src/4_2/heap/include/heap_algorithm.h:236-253 | every element make_heap leaves comes from the range |
| HeapAlgorithm.PopStepFacts | src/4_2/heap/include/heap_algorithm.h:181-190 | one pop moves the old root to last - 1, leaves everything from last on alone, and only uses elements of the range |
| HeapAlgorithm.PopHeapAt | src/4_2/heap/include/heap_algorithm.h:181-190 | the root goes to result and then the range from the root is adjusted |
| HeapAlgorithm.PopHeap | src/4_2/heap/include/heap_algorithm.h:181-190 | one pop of [first, last) |
| HeapAlgorithm.SortedFromFacts | src/4_2/heap/include/heap_algorithm.h:69-73 | each pop parks the current root just past the shrinking range, where it is never touched again |
| HeapAlgorithm.SortHeap | src/4_2/heap/include/heap_algorithm.h:69-73 | pop on ranges that shrink by one until fewer than two elements remain |
| SequenceOrder.LexLessMeansByIndex | src/4_2/stack/include/stack.h:31 | lexicographical_compare is equivalent to: a proper prefix, or less at the first difference |
| SequenceOrder.ByIndexHead | src/4_2/stack/include/stack.h:31 | with different first elements, the first element decides |
| SequenceOrder.ByIndexTail | src/4_2/stack/include/stack.h:31 | with equal first elements, the comparison moves on to the tails |
| SequenceOrder.LexLessIrreflexive | src/4_2/stack/include/stack.h:31 | no sequence is less than itself |
| SequenceOrder.LexLessTrichotomy | src/4_2/stack/include/stack.h:26-31 | exactly one of s < t, s == t and t < s holds |
| SequenceOrder.LexLessTransitive | src/4_2/stack/include/stack.h:31 | the order is transitive |
| StlStack.Stack.constructor | src/4_2/stack/include/stack.h:40-41 | a new stack is empty |
| StlStack.Stack.Empty | src/4_2/stack/include/stack.h:47 | empty exactly when the container is |
| StlStack.Stack.Size | src/4_2/stack/include/stack.h:52 | the container's size |
| StlStack.Stack.Top | src/4_2/stack/include/stack.h:57-62 | the back of the container, the last element pushed and not popped |
| StlStack.Stack.Push | src/4_2/stack/include/stack.h:67 | value appended at the back; it becomes top and the size grows by 1 |
| StlStack.Stack.Pop | src/4_2/stack/include/stack.h:72 | the back element goes |
| StlStack.Stack.PushThenPop | src/4_2/stack/include/stack.h:57-72 | push then top and pop gives back the value and the old stack |
| StlStack.Equal | src/4_2/stack/include/stack.h:26 | the containers have equal elements in the same order |
| StlStack.Less | src/4_2/stack/include/stack.h:31 | < is the order by first difference or proper prefix |
| StlStack.StacksTotallyOrdered | src/4_2/stack/include/stack.h:26-31 | exactly one of a < b, a == b, b < a |
| StlStack.CountDown | src/4_2/stack/test/testStack.cpp:10-19 | pushing 0 to 999 and then popping reads 999 down to 0 |
| StlQueue.Reversed | src/4_2/queue/include/queue.h:50-55 | s backwards, element by element |
| StlQueue.Queue.constructor | src/4_2/queue/include/queue.h:35-36 | a new queue is empty |
| StlQueue.Queue.Empty | src/4_2/queue/include/queue.h:40 | empty exactly when size is 0 |
| StlQueue.Queue.Size | src/4_2/queue/include/queue.h:42 | the container's size |
| StlQueue.Queue.Front | src/4_2/queue/include/queue.h:44-45 | the first element of the container, the newest one |
| StlQueue.Queue.Back | src/4_2/queue/include/queue.h:47-48 | the last element, the oldest one still queued |
| StlQueue.Queue.Push | src/4_2/queue/include/queue.h:50-53 | value goes to the front and becomes front(); back() does not change |
| StlQueue.Queue.Pop | src/4_2/queue/include/queue.h:55 | the back element, the oldest, goes |
| StlQueue.PushAll | src/4_2/queue/include/queue.h:50-53 | pushing xs in turn puts them in the container newest first |
| StlQueue.DrainFromBack | src/4_2/queue/test/testQueue.cpp:71-75 | reading back() and popping size() times reads the container from its back and empties it |
| StlQueue.PushThenDrain | src/4_2/queue/include/queue.h:50-55 | first in, first out: draining pushed values returns them in push order |
| StlQueue.Equal | src/4_2/queue/include/queue.h:18 | the containers have equal elements in the same order |
| StlQueue.Less | src/4_2/queue/include/queue.h:23 | < is the order by first difference or proper prefix |
| StlQueue.QueuesTotallyOrdered | src/4_2/queue/include/queue.h:18-23 | exactly one of a < b, a == b, b < a |
| SentinelList.Elements | src/4_2/list/include/list.h:4-7 | the values of the ring in order after the sentinel, one per non-sentinel node |
| SentinelList.Begin | src/4_2/list/include/list.h:33 | begin() is the node after end(), the sentinel's next |
| SentinelList.End | src/4_2/list/include/list.h:34 | end() is the sentinel node itself |
| SentinelList.Empty | src/4_2/list/include/list.h:36 | empty() holds exactly when begin() is end() |
| SentinelList.Distance | src/4_2/list/include/list.h:38-40 | the number of ++ steps from one node to another, positive between different nodes |
| SentinelList.Size | src/4_2/list/include/list.h:38-40 | size() is 0 exactly when the list is empty, and never more than the number of nodes in the storage |
| SentinelList.Front | src/4_2/list/include/list.h:42 | front() is the value of the node at begin() |
| SentinelList.Back | src/4_2/list/include/list.h:43 | back() is the value of the node before end(), the sentinel's prev |
| SentinelList.DistinctBounded | src/4_2/list/include/list.h:38-40 | a ring of distinct node indices below m has at most m entries, so size() finishes within the storage |
| SentinelList.EmptyIffNoElements | src/4_2/list/include/list.h:36 | empty() holds exactly when the ring has no element besides the sentinel |
| SentinelList.DistanceAlongChain | src/4_2/list/include/list.h:38-40 | along a chain of next links that ends at to, the distance is the chain's length |
| SentinelList.SizeIsElementCount | src/4_2/list/include/list.h:38-40 | size(), distance(begin(), end()), is the number of elements |
| SentinelList.FrontAndBack | src/4_2/list/include/list.h:42-43 | on a non-empty ring, front() is the first element and back() the last |
| SentinelList.RingLinksInverse | src/4_2/list/include/list_Iterator.h:8-15 | in the ring, prev undoes next and next undoes prev at every node |
| ListIterators.ListIterator.constructor | src/4_2/list/include/list_Iterator.h:61 | an iterator at node x |
| ListIterators.ListIterator.Copy | src/4_2/list/include/list_Iterator.h:61 | an iterator at the same node |
| ListIterators.ListIterator.Deref | src/4_2/list/include/list_Iterator.h:84 | the data of the node |
| ListIterators.ListIterator.NotEqual | src/4_2/list/include/list_Iterator.h:78 | exactly when the two iterators are at different nodes |
| ListIterators.ListIterator.Increment | src/4_2/list/include/list_Iterator.h:96-101 | the iterator moves to the node's next |
| ListIterators.ListIterator.Decrement | src/4_2/list/include/list_Iterator.h:122-127 | the iterator moves to the node's prev |
| ListIterators.ListIterator.IncrementThenDecrement | src/4_2/list/include/list_Iterator.h:96-127 | ++ then -- returns to the same node in a list whose links are inverse |
| ListIterators.ListIterator.DecrementThenIncrement | src/4_2/list/include/list_Iterator.h:96-127 | -- then ++ returns to the same node |
| ForwardListItem.MyListItem.constructor | src/3_2/myForwardList/src/include/List_Item.h:27 | a node holding value and linked to next |
| ForwardListItem.MyListItem.GetValue | src/3_2/myForwardList/src/include/List_Item.h:34 | the stored value |
| ForwardListItem.MyListItem.Next | src/3_2/myForwardList/src/include/List_Item.h:41 | the next pointer |
| ForwardListItem.MyListItem.SetNext | src/3_2/myForwardList/src/include/List_Item.h:50 | the next pointer becomes p, nothing else changes |
| ForwardListItem.At | src/3_2/myForwardList/src/include/My_Forward_List.h:131-132 | the node at position j of the list, null exactly one past the last |
| ForwardListItem.ValuesOf | src/3_2/myForwardList/src/include/My_Forward_List.h:30-33 | the values of the nodes, position by position |
| ForwardListIterator.ListIterator.constructor | src/3_2/myForwardList/src/include/List_Iterator.h:25 | an iterator holding p |
| ForwardListIterator.ListIterator.Get | src/3_2/myForwardList/src/include/List_Iterator.h:32 | the held pointer |
| ForwardListIterator.ListIterator.Equal | src/3_2/myForwardList/src/include/List_Iterator.h:84 | exactly when both hold the same node |
| ForwardListIterator.ListIterator.NotEqual | src/3_2/myForwardList/src/include/List_Iterator.h:89 | exactly when == is false |
| ForwardListIterator.ListIterator.Increment | src/3_2/myForwardList/src/include/List_Iterator.h:53 | the iterator moves to its node's next |
| ForwardListIterator.ListIterator.PostIncrement | src/3_2/myForwardList/src/include/List_Iterator.h:60 | a copy at the old node, and this iterator at the next one |
| ForwardListIterator.ListIterator.Plus | src/3_2/myForwardList/src/include/List_Iterator.h:69-79 | invalid_argument for a negative offset with nothing moved; otherwise this iterator moves offset nodes along the list and a copy of it is returned |
| ForwardList.MyForwardList.constructor | src/3_2/myForwardList/src/include/My_Forward_List.h:69 | an empty list: null head and tail, count 0 |
| ForwardList.MyForwardList.Begin | src/3_2/myForwardList/src/include/My_Forward_List.h:131 | the first node, null on an empty list |
| ForwardList.MyForwardList.End | src/3_2/myForwardList/src/include/My_Forward_List.h:132 | the tail's next, the position one past the last node |
| ForwardList.MyForwardList.Size | src/3_2/myForwardList/src/include/My_Forward_List.h:134 | nodeNumber equals the number of values |
| ForwardList.MyForwardList.InsertFront | src/3_2/myForwardList/src/My_Forward_List.cpp:109-122 | a new node with value in front of the old ones; on an empty list it is also the tail |
| ForwardList.MyForwardList.InsertEnd | src/3_2/myForwardList/src/My_Forward_List.cpp:124-145 | a new node with value after the old ones |
| ForwardList.MyForwardList.DeleteFront | src/3_2/myForwardList/src/My_Forward_List.cpp:147-174 | length_error and no change on an empty list; otherwise the first value goes |
| ForwardList.MyForwardList.DeleteEnd | src/3_2/myForwardList/src/My_Forward_List.cpp:176-207 | length_error and no change on an empty list; otherwise the last value goes |
| ForwardList.MyForwardList.FindBefore | src/3_2/myForwardList/src/My_Forward_List.cpp:299-303 | the walk from the head stops at the node just before the target |
| ForwardList.MyForwardList.InsertBetween | src/3_2/myForwardList/src/My_Forward_List.cpp:209-219 | a new node with value between the two, all other nodes kept in order |
| ForwardList.MyForwardList.Insert | src/3_2/myForwardList/src/My_Forward_List.cpp:221-264 | value is placed just before the target node, at the head for begin() and at the end for end(); the count grows by one |
| ForwardList.MyForwardList.DeleteBetween | src/3_2/myForwardList/src/My_Forward_List.cpp:266-273 | the target node is unlinked, the others kept in order, and the tail kept valid |
| ForwardList.MyForwardList.EraseBetweenAsWritten | src/3_2/myForwardList/src/My_Forward_List.cpp:266-311 | as written, erasing the last node by the general path unlinks it but leaves the tail pointing at it, so the list is no longer well formed |
| ForwardList.MyForwardList.Erase | src/3_2/myForwardList/src/My_Forward_List.cpp:275-313 | length_error and no change on an empty list; erasing end() drops the last value; any other position drops the value there |
| ForwardList.MyForwardList.Swap | src/3_2/myForwardList/src/My_Forward_List.cpp:315-329 | head, tail, count and nodes are exchanged between the two lists |
| ForwardList.MyForwardList.MoveAssign | src/3_2/myForwardList/src/My_Forward_List.cpp:430-441 | the nodes of other move into this list and other is left empty |
| ForwardList.MyForwardList.Move | src/3_2/myForwardList/src/My_Forward_List.cpp:101-107 | the new list takes other's nodes and other is left empty |
| ForwardList.MyForwardList.Copy | src/3_2/myForwardList/src/My_Forward_List.cpp:52-99 | a list of new nodes with other's values in order |
| ForwardList.MyForwardList.CopyAssign | src/3_2/myForwardList/src/My_Forward_List.cpp:396-428 | self-assignment changes nothing; otherwise this list holds new nodes with other's values |
| ForwardList.MyForwardList.FromValues | src/3_2/myForwardList/src/My_Forward_List.cpp:3-30 | the list of the given values in order |
| ForwardList.FirstNotLess | src/3_2/myForwardList/src/My_Forward_List.cpp:352 | the first position whose value is not less than v: everything before is less |
| ForwardList.FirstNotLessUnique | src/3_2/myForwardList/src/My_Forward_List.cpp:352 | the position where the scan stops is that one |
| ForwardList.InsertSortedFacts | src/3_2/myForwardList/src/My_Forward_List.cpp:351-358 | the corrected step adds v to the values and keeps a sorted list sorted |
| ForwardList.InsertionSortedFacts | src/3_2/myForwardList/src/include/My_Forward_List.h:136-142 | the corrected sort returns the values in ascending order, as a permutation |
| ForwardList.InsertAsWrittenPermutes | src/3_2/myForwardList/src/My_Forward_List.cpp:355-356 | as written, one step adds v and drops nothing |
| ForwardList.InsertAsWritten | src/3_2/myForwardList/src/My_Forward_List.cpp:349-356 | as written, one step inserts v before the first value not less than it when there is one, and at the front otherwise |
| ForwardList.SortAsWritten | src/3_2/myForwardList/src/My_Forward_List.cpp:331-369 | as written, sort keeps the number of values |
| ForwardList.SortAsWrittenPermutes | src/3_2/myForwardList/src/My_Forward_List.cpp:331-369 | as written, sort still only rearranges the values |
| ForwardList.SortAsWrittenExample | src/3_2/myForwardList/src/My_Forward_List.cpp:351-356 | as written, {65, 325345, 14} becomes 14, 325345, 65, which is not ascending; the corrected sort gives 14, 65, 325345 |
| ForwardList.Sort | src/3_2/myForwardList/src/My_Forward_List.cpp:331-369 | the list ends up as the corrected sort of its old values |
| ForwardList.CopyNodes | src/3_2/myForwardList/src/My_Forward_List.cpp:52-99 | a chain of new nodes with other's values, in order |
| ForwardList.SortedCopy | src/3_2/myForwardList/src/My_Forward_List.cpp:339-362 | the new list holds the corrected sort of the list's values |
| ForwardList.InsertInOrder | src/3_2/myForwardList/src/My_Forward_List.cpp:349-358 | value goes in just before the first value not less than it |
| ForwardList.FindPlace | src/3_2/myForwardList/src/My_Forward_List.cpp:349-353 | the position of the first value not less than value, and its node or null |
| AutoPointer.Store.constructor | src/3_2/simpleAutoPointer/include/simpleAutoPointer.h:21 | the blocks live at the start and nothing deleted yet |
| AutoPointer.Store.Delete | src/3_2/simpleAutoPointer/include/simpleAutoPointer.h:85-105 | delete of a null pointer does nothing; otherwise the block is no longer live and is recorded as deleted |
| AutoPointer.MyAutoPointer.constructor | src/3_2/simpleAutoPointer/include/simpleAutoPointer.h:21 | owns p, null by default |
| AutoPointer.MyAutoPointer.Transfer | src/3_2/simpleAutoPointer/include/simpleAutoPointer.h:28-41 | takes other's pointer by release(), leaving other null |
| AutoPointer.MyAutoPointer.Get | src/3_2/simpleAutoPointer/include/simpleAutoPointer.h:66 | the held pointer, ownership kept |
| AutoPointer.MyAutoPointer.Release | src/3_2/simpleAutoPointer/include/simpleAutoPointer.h:71-76 | returns the held pointer and holds null afterwards |
| AutoPointer.MyAutoPointer.Reset | src/3_2/simpleAutoPointer/include/simpleAutoPointer.h:85-93 | for the same pointer nothing happens; otherwise the old block is deleted (if any) and p is held |
| AutoPointer.MyAutoPointer.Assign | src/3_2/simpleAutoPointer/include/simpleAutoPointer.h:55-61 | self-assignment changes nothing; otherwise rhs's pointer moves over, rhs holds null, and the old block is deleted unless it was the same one |
| AutoPointer.MyAutoPointer.Destroy | src/3_2/simpleAutoPointer/include/simpleAutoPointer.h:105 | the destructor deletes the held block, or nothing when null |
| AutoPointer.AssignAmong | src/3_2/simpleAutoPointer/include/simpleAutoPointer.h:55-61 | among holders that each own a distinct live block, assignment keeps every block with one owner and deletes the overwritten one |
| AutoPointer.ResetAmong | src/3_2/simpleAutoPointer/include/simpleAutoPointer.h:85-93 | resetting to a block nobody owns keeps single ownership |
| AutoPointer.HeldPointers | src/3_2/simpleAutoPointer/include/simpleAutoPointer.h:13 | the non-null pointers of the holders, in order |
| AutoPointer.NotHeld | src/3_2/simpleAutoPointer/include/simpleAutoPointer.h:13 | a pointer no holder has is not among the held ones |
| AutoPointer.HeldPointersDistinct | src/3_2/simpleAutoPointer/include/simpleAutoPointer.h:28-59 | with single ownership, no block is held twice |
| AutoPointer.DestroyAll | src/3_2/simpleAutoPointer/include/simpleAutoPointer.h:105 | destroying every holder deletes each held block exactly once, in order |
| RBTreeNode.InOrder | src/5_1/RB_Tree/RB_Tree_Node.h:26-52 | the node ids in symmetric order; a non-empty tree lists at least one |
| RBTreeNode.MinValue | src/5_1/RB_Tree/RB_Tree_Node.h:33-38 | following left links ends at the first node in symmetric order, which has no left child |
| RBTreeNode.MaxValue | src/5_1/RB_Tree/RB_Tree_Node.h:47-52 | following right links ends at the last node in symmetric order, which has no right child |
| RBTreeNode.PathTo | src/5_1/RB_Tree/RB_Tree_Base_Iterator.h:48-61 | every node of the tree is reached by a path of child steps from the root |
| RBTreeNode.NextInRight | src/5_1/RB_Tree/RB_Tree_Base_Iterator.h:38-47 | the successor of a node with a right child is the first node of its right subtree |
| RBTreeNode.NextAfterLeft | src/5_1/RB_Tree/RB_Tree_Base_Iterator.h:57-70 | the successor of the last node of a left subtree is that subtree's parent |
| RBTreeNode.PrevInLeft | src/5_1/RB_Tree/RB_Tree_Base_Iterator.h:90-98 | the predecessor of a node with a left child is the last node of its left subtree |
| RBTreeNode.PrevBeforeRight | src/5_1/RB_Tree/RB_Tree_Base_Iterator.h:103-109 | the predecessor of the first node of a right subtree is that subtree's parent |
| RBTreeNode.ClimbRightStep | src/5_1/RB_Tree/RB_Tree_Base_Iterator.h:57-61 | climbing from a right child keeps the last node of the subtree climbed |
| RBTreeNode.ClimbLeftStep | src/5_1/RB_Tree/RB_Tree_Base_Iterator.h:103-107 | climbing from a left child keeps the first node of the subtree climbed |
| RBTreeIterator.NodeAt | src/5_1/RB_Tree/RB_Tree_Base_Iterator.h:35-111 | each node of the tree is the end of a path whose links lead back to the header |
| RBTreeIterator.RightNotHeader | src/5_1/RB_Tree/RB_Tree_Base_Iterator.h:67 | the root's right child is never the header |
| RBTreeIterator.ClimbRight | src/5_1/RB_Tree/RB_Tree_Base_Iterator.h:48-71 | from a node without right child, the climb of increment ends at the next node in symmetric order, or at the header after the last one |
| RBTreeIterator.ClimbLeft | src/5_1/RB_Tree/RB_Tree_Base_Iterator.h:99-110 | from a node without left child that is not the first, the climb of decrement ends at the previous node |
| RBTreeIterator.HeaderTestAt | src/5_1/RB_Tree/RB_Tree_Base_Iterator.h:79-82 | the red-and-grandparent-is-itself test holds at the header and at no node of the tree |
| RBTreeIterator.Iterator.constructor | src/5_1/RB_Tree/RB_Tree_Iterator.h:18-19 | an iterator at the given node, null by default |
| RBTreeIterator.Iterator.Copy | src/5_1/RB_Tree/RB_Tree_Iterator.h:20 | an iterator at the same node |
| RBTreeIterator.Iterator.Deref | src/5_1/RB_Tree/RB_Tree_Iterator.h:22 | the node's value field |
| RBTreeIterator.Iterator.Increment | src/5_1/RB_Tree/RB_Tree_Base_Iterator.h:35-72 | the next node in symmetric order, and the header after the last |
| RBTreeIterator.Iterator.Decrement | src/5_1/RB_Tree/RB_Tree_Base_Iterator.h:74-111 | the previous node in symmetric order, and the last node from the header |
| RBTreeIterator.Iterator.DecrementAsWritten | src/5_1/RB_Tree/RB_Tree_Base_Iterator.h:90-98 | as written, a node with a left child does not move; from the header or without a left child it reaches the previous node |
| RBTreeIterator.Iterator.PostIncrement | src/5_1/RB_Tree/RB_Tree_Iterator.h:28-33 | a copy at the old node, and this iterator at the next |
| RBTreeIterator.Iterator.PostDecrement | src/5_1/RB_Tree/RB_Tree_Iterator.h:37-42 | a copy at the old node, and this iterator at the previous |
| RBTreeIterator.IncrementThenDecrement | src/5_1/RB_Tree/RB_Tree_Iterator.h:26-35 | ++ then -- returns to the same node |
| RBTreeIterator.Traverse | src/5_1/RB_Tree/RB_Tree_Base_Iterator.h:35-72 | stepping with ++ from begin() to end() visits the nodes in symmetric order |
| RBTreeIterator.DecrementAsWrittenExample | src/5_1/RB_Tree/RB_Tree_Base_Iterator.h:90-98 | on root 1 with left child 2, -- as written stays at 1 where 2 is the predecessor |
| RBTree.Tree.constructor | src/5_1/RB_Tree/RB_Tree.h:226-243 | an empty tree whose red header has no root and is its own leftmost and rightmost, count 0 |
| RBTree.Tree.Root | src/5_1/RB_Tree/RB_Tree.h:107 | the header's parent, the root, null exactly for an empty tree |
| RBTree.Tree.Leftmost | src/5_1/RB_Tree/RB_Tree.h:112 | the header's left: the first node in symmetric order, the header when empty |
| RBTree.Tree.Rightmost | src/5_1/RB_Tree/RB_Tree.h:117 | the header's right: the last node in symmetric order, the header when empty |
| RBTree.Tree.Begin | src/5_1/RB_Tree/RB_Tree.h:255 | an iterator at the first position |
| RBTree.Tree.End | src/5_1/RB_Tree/RB_Tree.h:256 | an iterator at the header, one past the last position |
| RBTree.Tree.Empty | src/5_1/RB_Tree/RB_Tree.h:257 | exactly when the count is 0 |
| RBTree.Tree.Size | src/5_1/RB_Tree/RB_Tree.h:258 | the count |
| RBTree.Tree.MaxSize | src/5_1/RB_Tree/RB_Tree.h:259 | SIZE_MAX of a 64-bit target |
| RBTree.Tree.Clear | src/5_1/RB_Tree/RB_Tree.h:283-293 | the count is set to 0 and the nodes and links stay as they were |
| RBTree.BeginIsEnd | src/5_1/RB_Tree/RB_Tree.h:255-256 | begin() equals end() exactly for an empty tree |
| RBTree.NewTreeIsEmpty | src/5_1/RB_Tree/RB_Tree.h:242-258 | a new tree is empty, size 0, with begin() == end() |
| StlIterator.IteratorCategory | src/3_6/stl_iterator.h:72-120 | raw pointers are random access; class iterators have their declared category |
| StlIterator.DistanceRandomAccess | src/3_6/stl_iterator.h:164-172 | first advanced by the result is last |
| StlIterator.DistanceInput | src/3_6/stl_iterator.h:150-159 | counting ++ steps gives the same distance as subtraction, never negative |
| StlIterator.Distance | src/3_6/stl_iterator.h:177-190 | the distance for every category the dispatch accepts |
| StlIterator.AdvanceRandomAccess | src/3_6/stl_iterator.h:217-221 | the result lies n past iter |
| StlIterator.AdvanceInput | src/3_6/stl_iterator.h:195-199 | n steps of ++ reach iter + n |
| StlIterator.AdvanceBidirectional | src/3_6/stl_iterator.h:204-215 | ++ or -- steps reach iter + n for n of either sign |
| StlIterator.MyAdvance | src/3_6/stl_iterator.h:223-227 | iter + n for every category the dispatch accepts |
| StlIterator.SizesAndAdvances | src/3_6/test_stl_iterator.cpp:23-28 | the intended dispatch of the test's calls, through the model's distance and my_advance, on a vector of 6 and a list of 7: distances 6 and 7, advances to 5 and 5 |
| Power.IdentityElement | src/6-3/power.cpp:17-24 | 0 and 1 are neutral for their operations |
| Power.Associative | src/6-3/power.cpp:38-69 | plus and multiplies are associative, which power relies on |
| Power.RepeatAdd | src/6-3/power.cpp:38-69 | a + b operands split into a and b operands |
| Power.RepeatSquare | src/6-3/power.cpp:50-66 | n operands x op x are 2n operands x |
| Power.PowerWith | src/6-3/power.cpp:38-69 | x combined with itself n times, the identity for n == 0 |
| Power.RepeatClosedForm | src/6-3/power.cpp:75-79 | repeated multiplication is x to the n, repeated addition is n * x |
| Power.PowerOf | src/6-3/power.cpp:75-79 | x to the power n |
| Power.PowAdd | src/6-3/power.cpp:38-69 | x to the a + b is x to the a times x to the b |
| Power.PowerExample | src/6-3/power.cpp:75-79 | power(2, 8) is 256 |
| FindForEach.Find | src/1_9_5/1_9_5.cpp:3-17 | the first index of the range holding value, and last when there is none |
| FindForEach.FoldConcat | src/1_9_5/1_9_5.cpp:19-29 | calling f over two ranges in turn is calling it over their concatenation |
| FindForEach.ForEach | src/1_9_5/1_9_5.cpp:19-29 | f called on each element in order, and the final copy returned |
| FindForEach.FoldShow | src/1_9_5/1_9_5.cpp:32-43 | a printing function object writes the range in order |
| FindForEach.FindForEachExample | src/1_9_5/1_9_5.cpp:32-43 | the source's main writes 18 245 254 134 2 3 and finds 2 four past begin() |
| IntOperators.Int.constructor | src/1_9_4.cpp:17 | holds the given int |
| IntOperators.Int.PreIncrement | src/1_9_4.cpp:20 | one more, and the object itself returned |
| IntOperators.Int.PostIncrement | src/1_9_4.cpp:23-29 | a copy of the old value returned, the object one more |
| IntOperators.Int.PreDecrement | src/1_9_4.cpp:32 | one less, and the object itself returned |
| IntOperators.Int.PostDecrement | src/1_9_4.cpp:35-41 | a copy of the old value returned, the object one less |
| IntOperators.Int.Deref | src/1_9_4.cpp:43 | the stored int |
| IntOperators.Scenario | src/1_9_4.cpp:55-65 | the source's main from INT(5) writes 5, 7, 7, 5, 5 |

## Left out

- The C runtime: `malloc`, `realloc`, `free` and `memcpy` are the `SystemHeap.Heap` oracle. Which raw call fails is a script given in advance, and no bytes are stored.
- A handler that stays installed while every raw retry fails forever: the script of failing raw calls is finite, so the retry loop always ends.
- The Windows internals of the default out-of-memory handler: a handler is its identity and whether it uninstalls itself.
- The message "Out of Memory." and the process exit: they become the `OutOfMemory` outcome.
- `volatile` and any thread safety of the free lists: the model is single-threaded.
- `DefaultAlloc.DefaultAllocator.Allocate`: requires n >= 1, because freeListIndex(0) underflows the unsigned index.
- `DefaultAlloc.DefaultAllocator.Deallocate`: requires n >= 1 for the same reason; the block must be one the allocator handed out.
- `DefaultAlloc.DefaultAllocator.Reallocate`: requires newSize <= 128 whenever oldSize <= 128, because the source hands a pool block to the C `realloc` when a small block grows past 128 bytes.
- MyVector.Vector.InsertAux: requires pos < finish or a full buffer, because with spare room and pos == end() the source copies a reversed range.
- MyVector.Vector.Resize: k is at most one past the capacity, because each further insertAux(end()) call meets the case above.
- MyVector.Vector.Reserve: k is at most the capacity, or exactly one past it on a full buffer, because reserve calls insertAux(end(), 0) without first filling the spare room, and with spare room that call is the undefined case of InsertAux above.
- The vector's copy and move constructors, `operator=`, its initializer-list and range constructors, its iterators, `operator[]`, the destructor, and the deallocation in `insert` that uses `oldSize`: not modelled.
- StlArray.Compare: requires Size > 0 and works on bytes only, because `<=>` returns no value otherwise.
- StlArray.Array.Fill: models the documented fill of [begin(), end()), because the source passes end() as the count to `fill_n`.
- The array's iterators, `data()` and the rvalue `toArray`: not modelled.
- The deque iterator's `operator*`, `operator->` and `operator[]`: no element memory is modelled.
- DequeIterator.Iterator.Increment, AddAssign and the other moves require the target position to lie inside the map; the source does not check this.
- The `push_heap`, `pop_heap`, `__push_heap_aux`, `__pop_heap_aux` and `make_heap` wrappers: as written they do not compile for any iterator type, raw pointers included, so the algorithms they are meant to call are modelled instead. The reasons, in heap_algorithm.h:
  - `push_heap` passes four arguments to the three-parameter `__push_heap_aux` (line 58 against 94-96);
  - `__push_heap_aux` names `Distance`, which is declared nowhere in it (line 101);
  - `__pop_heap_aux` has a template parameter `Distance` that no argument deduces (lines 118-120);
  - `__pop_heap_aux` passes four arguments to the five-parameter `__pop_heap` (line 126 against 182-185);
  - `make_heap` passes a value and a `ptrdiff_t` where `__make_heap` takes a `Type *` and a `Distance *` (line 82 against 237).
- HeapAlgorithm.AdjustHeap: no heap property is claimed, because the code as written does not re-insert the value it holds.
- The sentinel list's `operator==`, which assigns instead of comparing: not modelled.
- The sentinel list's postfix operators, which return references to locals: not modelled.
- `listNode.h` is a plain struct; it is the `Node` datatype.
- The forward list's count constructor, destructor, initializer-list `operator=`, `sort(rule)`, `operator<<` and its `bad_alloc` catches, and the `std::vector` specialisation of the list item with its `valSize()` (List_Item.h:81): not modelled.
- ForwardList.MyForwardList.Copy and CopyAssign require a non-empty other, because `end()` of an empty list dereferences a null tail.
- ForwardList.MyForwardList.Insert requires the target to be in the list, which excludes the unreachable `return false`.
- The red-black tree's `insert`, `copy` and `erase`: they are declared and never defined.
- The red-black tree's destructor and `put_node`: there is no deallocation model for tree nodes.
- The red-black iterator's typedef, which swaps `Ref` and `Ptr`: types are not modelled; the header is an index into the node store.
- RBTree.Tree.MaxSize: SIZE_MAX is taken for a 64-bit target.
- Power.PowerExample: uses power(2, 8) on ints. The source's `main` (power.cpp:85) calls `power(2.5, 8)` on the double 2.5, so `Type` is `double`, and stores the result in a `float`; floating point is not modelled.
- The `INT` class (1_9_4.cpp:14-32) and `power` on `int` work on C++ signed `int`, whose overflow is undefined behaviour rather than wrap-around. The model uses unbounded integers, so it describes the source only where no result overflows.
- In the iterator-category model, iterators are int positions; the `unordered_map` call of the test is not modelled.
- All stream output (`operator<<` of `INT` and of the list item, the log macros).
- `++` on `end()` and `--` on `begin()`: excluded by requires, because the source's result is the header or undefined.
- DefaultAlloc.DefaultAllocator.Reallocate and DefaultAlloc.Reallocated: built on the corrected deallocate, so reallocate(p, 200, 64) frees p by the first level only; as written it would then also push p onto freeList[24], past the 16 lists (defaultAllocTemplate.h:372-381 and 333-354).
- RBTreeIterator.Iterator.PostDecrement and RBTreeIterator.IncrementThenDecrement: built on the corrected decrement; as written both inherit the decrement that stays put when the node has a left child.
- StlIterator.DistanceInput, StlIterator.Distance, StlIterator.AdvanceInput and StlIterator.MyAdvance: require first <= last (distance on an iterator that is not random access) and n >= 0 (advance on an input or forward iterator). On the other inputs the source's `while (__first != __last)` and `while (__n--)` loops in stl_iterator.h never end, short of signed wrap-around, so the model does not describe them.
- StlIterator.SizesAndAdvances: the test's two-argument `distance` calls are `std::distance`, and `my_advance` with the standard category tags finds `std::__advance` by argument-dependent lookup; the method models the dispatch the test evidently intends, through the model's own distance and advance.
- MyVector.Vector.Erase: object lifetimes are not modelled; after `--finish` the source's `destroy(end() - 1, end())` (myVector.h:342) destroys the new last live element rather than the vacated slot, which the model does not capture.
- AutoPointer.MyAutoPointer.Transfer: merges the plain and the templated copy constructors, because there are no class hierarchies.

## Findings

| source | as written | input that shows it | evidently intended | confidence | as-written member | corrected member |
|---|---|---|---|---|---|---|
| src/2_2_6-10/src/include/defaultAllocTemplate.h:333-354 | after the first level frees a block above 128 bytes, the code falls through and pushes it onto freeList[freeListIndex(n)] | deallocate(p, 200): index 24, past the 16 lists | return after the first level's deallocate | high, not executed | DefaultAlloc.DeallocateFallThrough | DefaultAlloc.DefaultAllocator.Deallocate |
| src/2_2_6-10/src/include/simpleAlloc.h:23, 27 | the counted allocate and deallocate pass the element count as a byte count | allocate(5) for int asks for 5 bytes, not 20 | scale by sizeof(Type), as the class comment at line 14 says and src/4_2/simple_allocator/simpleAlloc.h does | high, not executed | SimpleAllocate.UnscaledCount | SimpleAllocScaled.ScaledCount |
| src/4_2/vector/include/myVector.h:380 | with more than n elements after pos, the fill covers [pos, oldFinish) instead of [pos, pos + n) | [1, 2, 3] with capacity 4, insert(begin(), 1, 9) gives [9, 9, 9, 3] | [9, 1, 2, 3] | high, not executed | MyVector.SpareInsertExample | MyVector.Vector.ShiftAndFill |
| src/3_2/myForwardList/src/My_Forward_List.cpp:266-311 | erase of the last node on the general path unlinks it but leaves `__end` pointing at the removed node | a list of two values, erase at position 1 | update the tail when the removed node was the tail | medium, not executed | ForwardList.MyForwardList.EraseBetweenAsWritten | ForwardList.MyForwardList.Erase |
| src/3_2/myForwardList/src/My_Forward_List.cpp:351-356 | a value larger than all sorted ones is inserted at the front; this is reached only if end() of the empty sortedList is taken as a null iterator, since that list's `__end` is null (My_Forward_List.h:69) and end() reads `__end->next()` (h:132), which dereferences null on the first pass for any list of two or more nodes; `sortedList.empty()` at cpp:355 is declared nowhere, so sort() as written may never have compiled | {65, 325345, 14} sorts to 14, 325345, 65 | insert it at the end, giving 14, 65, 325345 | low, not executed | ForwardList.SortAsWrittenExample | ForwardList.Sort |
| src/5_1/RB_Tree/RB_Tree_Base_Iterator.h:90-98 | with a left child, decrement finds the rightmost node of the left subtree but never moves there | root 1 with left child 2 stays at 1 | move to that node | high, not executed | RBTreeIterator.DecrementAsWrittenExample | RBTreeIterator.Iterator.Decrement |
