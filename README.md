# NUMA round-robin allocator, modelled in Dafny

`numa_alloc.c` replaces `malloc`, `free`, `calloc` and `realloc`.

- **Mapping and header.** Each non-empty allocation is one anonymous `mmap` of `size + sizeof(size_t)` bytes. The requested size is stored in a `size_t` header at the start of the mapping, and the caller receives the address just past the header.
- **Node selection.** The mapping is bound with `mbind(MPOL_BIND)` to a single NUMA node. Nodes are chosen round-robin by the cursor `next_node_to_use`, which advances modulo `num_nodes`.
- **Warm-up.** Every page is written once (`first_touch_pages`), so the binding takes effect immediately.
- **Initialisation.** `num_nodes` is discovered once, lazily, by `init_allocator`, and falls back to one node.
- **free and realloc.** `free` reads the size back from the header and unmaps the whole mapping. `realloc` allocates anew, copies the smaller of the two sizes and frees the old block.

The model has five modules.

- `Machine` (machine.dfy) covers the LP64 machine:
  - `size_t` and `int` bounds;
  - the little-endian bytes of a `size_t` header, with both round trips proved;
  - the header store `*(size_t*)p = v`;
  - `memcpy` between two mappings.
- `NodeSelector` (node_selector.dfy) covers the cursor update `(c + 1) % num_nodes`. It proves that k consecutive allocations target nodes c, c+1, ..., c+k-1 (mod `num_nodes`), and that up to `num_nodes` of them never repeat a node.
- `PolicyBinder` (policy_binder.dfy) covers the mask `1UL << target_node` handed to `mbind`. It proves the mask fits an `unsigned long` and has exactly the bit of the target node set.
- `PageWarmup` (page_warmup.dfy) models `first_touch_pages` as an in-place loop over the mapping's bytes. It proves the loop writes exactly the multiples of the page size below the size, in ascending order, `ceil(size / page)` times, and writes nowhere else.
- `NumaAlloc` (numa_alloc.dfy) covers the allocator state and the four entry points:
  - **State.** The class `Allocator` has the init-once flag, `num_nodes`, `next_node_to_use`, and the live mappings, each an `array` of bytes keyed by its start address.
  - **Ghost record.** Two ghost maps record the node mask `mbind` installed on each mapping and which start address each array was mapped at.
  - **Invariant.** `Valid()` holds between calls and is preserved by every entry point:
    - once initialised, `num_nodes >= 1` and the cursor lies in `[0, num_nodes)`; before that both are 0;
    - mappings are non-empty and lie below 2^64;
    - each mapping has a mask;
    - each mapping's header records its user size.
  - **Operating system.** What the operating system answers during a call is passed in as an `Os` value: NUMA availability, the highest node, the page size, and the outcomes of `mmap` and `mbind`.

A zero product gives NULL: `calloc` passes `n*s == 0` on to `malloc(0)`, which returns NULL (numa_alloc.c:108-112, 48-49), so `Calloc` returns NULL whenever `n*s == 0`.

## Model

| member | source | states |
|---|---|---|
| `Machine.DecodeEncode` | numa_alloc.c:79 | a number below 256^k survives being stored in k little-endian bytes and read back |
| `Machine.EncodeDecode` | numa_alloc.c:98 | reading k bytes as a number and storing it back gives the same bytes |
| `Machine.DecodeWordIsLE` | numa_alloc.c:98 | reading a `size_t` from eight bytes is their little-endian value |
| `Machine.WordRoundTrip` | numa_alloc.c:79 | a size written into a header reads back as the same size |
| `Machine.WordBytesRoundTrip` | numa_alloc.c:98 | every eight-byte header is the encoding of the size it reads as |
| `Machine.StoreWord` | numa_alloc.c:79 | `*(size_t*)p = v` writes the encoding of v into the first eight bytes, leaves the rest of the mapping unchanged, and reads back as v |
| `Machine.Memcpy` | numa_alloc.c:145 | `memcpy` replaces exactly n bytes of the destination at the offset with the source's bytes; everything else in the destination is unchanged |
| `NodeSelector.AdvanceIsMod` | numa_alloc.c:54 | the cursor update equals `(cursor + 1) % num_nodes` and stays below `num_nodes` |
| `NodeSelector.ScheduleAt` | numa_alloc.c:52-55 | the i-th of k consecutive allocations from cursor c targets node (c + i) mod `num_nodes` |
| `NodeSelector.CursorAfterMod` | numa_alloc.c:52-55 | k consecutive allocations leave the cursor at (c + k) mod `num_nodes` |
| `NodeSelector.ScheduleIsRoundRobin` | numa_alloc.c:52-55 | k consecutive allocations target c, c+1, ..., c+k-1 (mod `num_nodes`) in call order and leave the cursor at c+k (mod `num_nodes`) |
| `NodeSelector.ScheduleNoRepeat` | numa_alloc.c:52-55 | up to `num_nodes` consecutive allocations all target different nodes |
| `NodeSelector.ScheduleExtend` | numa_alloc.c:52-55 | the schedule of k + 1 allocations is that of k followed by the node the cursor has reached after k |
| `NodeSelector.CursorAfterExtend` | numa_alloc.c:52-55 | the cursor after k + 1 allocations is the cursor after k, advanced once |
| `NodeSelector.TwoNodesFiveAllocations` | numa_alloc.c:52-55 | with two nodes, five allocations from cursor 0 target 0, 1, 0, 1, 0 and leave the cursor at 1 |
| `PolicyBinder.OnlyBit` | numa_alloc.c:68 | a power of two 2^t has bit n set exactly when n == t |
| `PolicyBinder.NodeMask` | numa_alloc.c:68-70 | for a target below 64, `1UL << target` fits the `sizeof(nodemask) * 8` = 64 bits `mbind` is told of (it is below 2^64), and bit n is set exactly when n is the target node |
| `PageWarmup.TouchesFromShape` | numa_alloc.c:38-40 | from counter i, the k-th write lands at i + k * page size, and the loop stops at the first offset not below the size |
| `PageWarmup.PageOffsetsAscending` | numa_alloc.c:38-40 | the k-th write is at offset k * page size, so writes are in strictly ascending order |
| `PageWarmup.WrittenOffsetIsPageStart` | numa_alloc.c:38-40 | every offset written is a multiple of the page size below the size |
| `PageWarmup.PageStartIsWritten` | numa_alloc.c:38-40 | every multiple of the page size below the size is written |
| `PageWarmup.PageOffsetsExactly` | numa_alloc.c:38-40 | an offset is written if and only if it is a multiple of the page size below the size |
| `PageWarmup.PageOffsetsCount` | numa_alloc.c:38-40 | the loop makes ceil(size / page size) writes |
| `PageWarmup.FirstTouch` | numa_alloc.c:34-41 | `first_touch_pages` writes 0 at exactly the page offsets, in ascending order, and leaves every other byte as it was |
| `NumaAlloc.DiscoveredNodes` | numa_alloc.c:20-31 | the node count is at least 1 whatever the topology calls return, and is the highest node index plus one when NUMA is available and that index is positive |
| `NumaAlloc.MulOverflows` | numa_alloc.c:108 | the guard `nmemb > 0 && size > SIZE_MAX / nmemb` holds exactly when `nmemb * size` exceeds `SIZE_MAX` |
| `NumaAlloc.CopySize` | numa_alloc.c:144 | the copied length is the smaller of the old and new sizes |
| `NumaAlloc.Resized` | numa_alloc.c:143-145 | the new block has the new size, starts with the old block's first `copy_size` bytes, and is zero after them |
| `NumaAlloc.WarmUpAndTag` | numa_alloc.c:76-79 | the warm-up writes exactly the offsets `PageOffsets(size + 8, page)` of the whole mapping, header included, in ascending order; afterwards the fresh zero-filled mapping holds the header for `size` and then `size` zero bytes |
| `NumaAlloc.Allocator.constructor` | numa_alloc.c:13-16 | the initial state: not yet initialised, counters zero, no mappings |
| `NumaAlloc.Allocator.InitAllocator` | numa_alloc.c:20-31 | `num_nodes` becomes the discovered node count, which is at least 1 |
| `NumaAlloc.Allocator.EnsureInitialized` | numa_alloc.c:46 | `init_allocator` runs on the first call only; afterwards `num_nodes` is kept |
| `NumaAlloc.Allocator.SelectNode` | numa_alloc.c:52-55 | the target is the cursor before the call; the cursor advances by one modulo `num_nodes` and stays in range |
| `NumaAlloc.Allocator.Mmap` | numa_alloc.c:61 | `mmap` either fails and changes nothing, or adds one fresh zero-filled mapping of the requested length at the address the kernel picks |
| `NumaAlloc.Allocator.Mbind` | numa_alloc.c:70 | `mbind` either installs the mask on the mapping and returns 0, or returns -1 and installs nothing |
| `NumaAlloc.Allocator.Munmap` | numa_alloc.c:72 | `munmap` of one whole mapping removes exactly that mapping and its mask |
| `NumaAlloc.Allocator.MapBound` | numa_alloc.c:61-74 | either call failing leaves the mappings and masks exactly as before; on success there is one more zero-filled mapping of `total` bytes, bound to the mask |
| `NumaAlloc.Allocator.TagBlock` | numa_alloc.c:76-79 | the warm-up touches `PageOffsets(size + 8, page)`; the mapping then holds the header for `size` followed by `size` zero bytes, and every mapping's header again records its user size |
| `NumaAlloc.Allocator.CreateBlock` | numa_alloc.c:57-84 | on success: one new mapping of `size + 8` bytes, bound to the target node alone and tagged with `size`, every page of it warmed in ascending order, and the pointer returned is its start plus 8; on failure: mappings and masks unchanged and nothing warmed |
| `NumaAlloc.Allocator.Malloc` | numa_alloc.c:44-85 | `malloc(0)` initialises and returns NULL without moving the cursor; otherwise the cursor advances whatever `mmap` and `mbind` answer; a non-NULL result is the mapping address plus 8 and means exactly one new mapping, holding a header for `size` then `size` zero bytes, bound to the old cursor's node alone, whose pages `PageOffsets(size + 8, page)` were all warmed in ascending order; on failure mappings and masks are unchanged and nothing is warmed |
| `NumaAlloc.Allocator.MallocRepeatedly` | numa_alloc.c:44-85 | k consecutive non-zero `malloc` calls: the i-th targets the i-th node of `Schedule(c, k, num_nodes)` and, when it succeeds, leaves a live block bound to that node alone; the i-th result is non-NULL exactly when its `mmap` and `mbind` succeed; the cursor ends at `CursorAfter(c, k, num_nodes)` |
| `NumaAlloc.Allocator.OriginalSize` | numa_alloc.c:98 | the size read from a live block's header is its user size, and adding 8 gives the mapping's length |
| `NumaAlloc.Allocator.Free` | numa_alloc.c:88-103 | `free(NULL)` changes nothing; otherwise exactly the block's mapping, of the length its header gives, is removed, and nothing else changes |
| `NumaAlloc.Allocator.Calloc` | numa_alloc.c:106-116 | on overflow: NULL, and no state changes, not even initialisation; otherwise exactly `malloc(nmemb * size)`, whose block is `nmemb * size` zero bytes, every page of its mapping warmed |
| `NumaAlloc.Allocator.Realloc` | numa_alloc.c:119-151 | a null pointer gives `malloc(new_size)`; a zero size gives `free(p)` and NULL; otherwise NULL with the old block untouched when the inner `malloc` fails, or a new block holding the first `min(old, new)` bytes of the old one, zeros after them, with the old mapping removed; only the new block's pages are warmed |
| `NumaAlloc.Allocator.Relocate` | numa_alloc.c:131-150 | the last case of `realloc`: allocate, then on success copy the common prefix and free the old block; on failure nothing but the node selector changes |
| `NumaAlloc.Allocator.CopyThenFree` | numa_alloc.c:143-148 | after the copy and the free, the new block holds the header then `Resized(old, new_size)`, the old mapping and mask are gone, and the node selector is untouched |

## Left out

- Threads: `pthread_once`, the mutex and concurrent callers. Each entry point is one atomic step and init-once is a boolean. Any interleaving of atomic calls is a sequence of calls, which the round-robin lemmas cover.
- Foreign calls:
  - `numa_available`, `numa_max_node`, `sysconf(_SC_PAGESIZE)`, `mmap`, `mbind` and `munmap` are not executed.
  - Their answers arrive as the `Os` parameter.
  - The kernel's choice of address is assumed by `CanMapAt`: non-null, page-aligned, below 2^64 and disjoint from live mappings.
  - Fresh anonymous mappings are assumed zero-filled.
- Mappings do not overlap: this is assumed of the kernel through `CanMapAt`, not kept as part of `Valid()`.
- Partial unmaps: `munmap` is modelled only for one whole mapping, which is the only way the allocator calls it.
- `perror` output on a failed `mbind` (numa_alloc.c:71).
- Physical page placement and NUMA locality: the model records the mask `mbind` installed, not where the pages end up.
- Byte order: the header is read and written little-endian, as on x86-64.
- User writes into blocks between calls.
- Symbol interposition and dynamic loading.
- `benchmark.c`, a demonstration client.
- MallocRepeatedly: no `free` between the calls, and each range the kernel hands out lies above the live mappings and the ranges handed out before it; the round-robin lemmas cover any other sequence of calls one step at a time.
- Malloc: requires `size <= SIZE_MAX - 8`. The source's unchecked wrap-around of `size + sizeof(size_t)` is not modelled.
- Calloc: requires that a product that does not overflow is at most `SIZE_MAX - 8`, for the same reason as `Malloc`.
- Realloc: requires `new_size <= SIZE_MAX - 8`, for the same reason as `Malloc`.
- Malloc: requires `next_node_to_use < 64`. `1UL << target_node` is undefined from 64 on, so machines with more than 64 nodes are not modelled. The same requirement is on `Calloc`, `Realloc` and `Relocate`.
- InitAllocator: requires `numa_max_node() < INT_MAX`. The `int` overflow of `numa_max_node() + 1` is not modelled. Callers that may initialise carry the same requirement.
- FirstTouch: requires a positive page size, and that size plus page size is at most 2^64. A `sysconf` failure (-1) and a wrap of the `size_t` counter are not modelled.
- Free: requires `NULL` or a live pointer from `malloc`. Freeing any other pointer is undefined in C.
- Masks are modelled as unsigned numbers below 2^64, with bit i of m being (m / 2^i) % 2, rather than as 64-bit bit-vectors.
