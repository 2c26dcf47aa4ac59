/**
 * The NUMA round-robin allocator: `malloc`, `free`, `calloc` and `realloc`
 * over one anonymous mapping per block, each block bound to the next node
 * in turn and prefixed by a `size_t` header holding the requested size.
 *
 * The process-wide state (`num_nodes`, `next_node_to_use`, the init-once
 * flag) and the address space the allocator maps are the fields of one
 * `Allocator` object. What the operating system answers during a call
 * (NUMA availability, highest node index, page size, the outcome of
 * `mmap` and `mbind`) is passed in as an `Os` value.
 */
module NumaAlloc {

  import opened Machine
  import opened NodeSelector
  import opened PolicyBinder
  import opened PageWarmup

  const NULL: nat := 0
  /** `(void*)-1`, what `mmap` returns on failure. */
  const MAP_FAILED: int := -1
  /** What `numa_available` returns when the kernel has no NUMA support. */
  const NUMA_UNAVAILABLE: int := -1

  /** The outcome of one `mmap` call. */
  datatype MmapAnswer = MapFailed | MappedAt(addr: nat)

  /** The answers of the foreign calls made during one entry-point call. */
  datatype Os = Os(
    numaAvailable: int,   // numa_available()
    maxNode: Int32,       // numa_max_node()
    pageSize: nat,        // sysconf(_SC_PAGESIZE)
    mmap: MmapAnswer,     // mmap(NULL, total, ...)
    mbindOk: bool)        // mbind(...) == 0

  /**
   * The node count topology discovery settles on: one node when NUMA is
   * unavailable or the highest node index is not positive, otherwise the
   * highest node index plus one.
   */
  function DiscoveredNodes(numaAvailable: int, maxNode: int): (n: int)
    ensures n >= 1
    ensures numaAvailable != NUMA_UNAVAILABLE && maxNode > 0 ==> n == maxNode + 1
  {
    if numaAvailable == NUMA_UNAVAILABLE || maxNode <= 0 then 1 else maxNode + 1
  }

  /** The `calloc` guard `nmemb > 0 && size > SIZE_MAX / nmemb`: true exactly when the product overflows `size_t`. */
  function MulOverflows(nmemb: SizeT, size: SizeT): (r: bool)
    ensures r <==> nmemb * size > SIZE_MAX
  {
    if nmemb > 0 then
      var q := SIZE_MAX / nmemb;
      DivModUnique(SIZE_MAX, nmemb, q, SIZE_MAX % nmemb);
      if size > q then
        assert size * nmemb >= (q + 1) * nmemb by { if size > q + 1 { MulMonotone(q + 1, size, nmemb); } }
        true
      else
        assert size * nmemb <= q * nmemb by { if size < q { MulMonotone(size, q, nmemb); } }
        false
    else
      false
  }

  /** The number of bytes `realloc` copies: the smaller of the old and new sizes. */
  function CopySize(oldSize: nat, newSize: nat): (n: nat)
    ensures n <= oldSize && n <= newSize
    ensures n == oldSize || n == newSize
  {
    if oldSize < newSize then oldSize else newSize
  }

  /** The user bytes of the block `realloc` returns: the old block's first CopySize bytes, then zeros. */
  function Resized(oldBlock: seq<Byte>, newSize: nat): (block: seq<Byte>)
    ensures |block| == newSize
    ensures block[..CopySize(|oldBlock|, newSize)] == oldBlock[..CopySize(|oldBlock|, newSize)]
    ensures forall i :: CopySize(|oldBlock|, newSize) <= i < newSize ==> block[i] == 0
  {
    var n := CopySize(|oldBlock|, newSize);
    oldBlock[..n] + Zeros(newSize - n)
  }

  /** Whether the address ranges [a, a + m) and [b, b + n) do not overlap. */
  predicate Disjoint(a: nat, m: nat, b: nat, n: nat) {
    a + m <= b || b + n <= a
  }

  /** A mapping whose first eight bytes hold the number of bytes after them. */
  predicate HeaderOk(mem: seq<Byte>) {
    HEADER <= |mem| && DecodeWord(mem[..HEADER]) == |mem| - HEADER
  }

  /** Every mapping in `regions` ends at or below addr. */
  ghost predicate EndsBelow(regions: map<nat, array<Byte>>, addr: nat) {
    forall s :: s in regions ==> s + regions[s].Length <= addr
  }

  lemma EndsBelowExtend(regions: map<nat, array<Byte>>, start: nat, mem: array<Byte>, addr: nat)
    requires EndsBelow(regions, addr) && start + mem.Length <= addr
    ensures EndsBelow(regions[start := mem], addr)
  {
  }

  /** Each of the results so far is non-null exactly when its `mmap` and `mbind` both succeeded. */
  predicate Outcomes(ptrs: seq<nat>, answers: seq<Os>) {
    && |ptrs| <= |answers|
    && forall j :: 0 <= j < |ptrs| ==> (ptrs[j] != NULL <==> answers[j].mmap.MappedAt? && answers[j].mbindOk)
  }

  lemma OutcomesExtend(ptrs: seq<nat>, answers: seq<Os>, p: nat)
    requires Outcomes(ptrs, answers) && |ptrs| < |answers|
    requires p != NULL <==> answers[|ptrs|].mmap.MappedAt? && answers[|ptrs|].mbindOk
    ensures Outcomes(ptrs + [p], answers)
  {
  }

  /** Every non-null result is a live block whose mapping is bound to the node targeted for it, alone. */
  ghost predicate BoundAsScheduled(ptrs: seq<nat>, targets: seq<nat>, regions: map<nat, array<Byte>>, policy: map<nat, nat>) {
    && |ptrs| == |targets|
    && forall j :: 0 <= j < |ptrs| && ptrs[j] != NULL ==>
         && HEADER <= ptrs[j] && ptrs[j] - HEADER in regions && ptrs[j] - HEADER in policy
         && targets[j] < ULONG_BITS && policy[ptrs[j] - HEADER] == NodeMask(targets[j])
  }

  /** A call that maps nothing, or maps one fresh block bound to t, keeps the earlier blocks bound as they were. */
  lemma BoundExtend(ptrs: seq<nat>, targets: seq<nat>, regions: map<nat, array<Byte>>, policy: map<nat, nat>,
                    p: nat, t: nat, regions': map<nat, array<Byte>>, policy': map<nat, nat>)
    requires BoundAsScheduled(ptrs, targets, regions, policy) && t < ULONG_BITS
    requires p == NULL ==> regions' == regions && policy' == policy
    requires p != NULL ==>
               && HEADER <= p && p - HEADER !in regions && p - HEADER in regions'
               && regions' == regions[p - HEADER := regions'[p - HEADER]] && policy' == policy[p - HEADER := NodeMask(t)]
    ensures BoundAsScheduled(ptrs + [p], targets + [t], regions', policy')
  {
  }

  class Allocator {
    /** `init_once`: whether `init_allocator` has run. */
    var initialized: bool
    /** `num_nodes` */
    var numNodes: Int32
    /** `next_node_to_use` */
    var cursor: Int32
    /** The live anonymous mappings, by start address; each array holds the mapping's bytes. */
    var regions: map<nat, array<Byte>>
    /** The node mask `mbind` installed on each mapping. */
    ghost var policy: map<nat, nat>
    /** The start address each mapping's memory was created for; a live mapping owns its memory. */
    ghost var Owner: map<array<Byte>, nat>

    /** `num_nodes` and `next_node_to_use`: zero before initialisation, then a cursor in [0, num_nodes). */
    ghost predicate Counters()
      reads this`initialized, this`numNodes, this`cursor
    {
      if initialized then 1 <= numNodes && 0 <= cursor < numNodes
      else numNodes == 0 && cursor == 0
    }

    /** Mappings are non-empty and lie in the address space. */
    ghost predicate Layout()
      reads this`regions
    {
      forall s :: s in regions ==> 0 < s && 0 < regions[s].Length && s + regions[s].Length <= ADDRESS_LIMIT
    }

    /** Every mapping owns its memory (so no two share it), has a node mask, and its header records its user size. */
    ghost predicate Blocks()
      reads this`regions, this`policy, this`Owner, Owner.Keys
    {
      && policy.Keys == regions.Keys
      && forall s :: s in regions ==> regions[s] in Owner && Owner[regions[s]] == s && HeaderOk(regions[s][..])
    }

    /** Blocks(), except that the mapping at `pending` need not be tagged yet. */
    ghost predicate BlocksExcept(pending: nat)
      reads this`regions, this`policy, this`Owner, Owner.Keys
    {
      && policy.Keys == regions.Keys
      && forall s :: s in regions && s != pending ==> regions[s] in Owner && Owner[regions[s]] == s && HeaderOk(regions[s][..])
    }

    /** The allocator's view of memory: the part of Valid() the node selector does not touch. */
    ghost predicate Mappings()
      reads this`regions, this`policy, this`Owner, Owner.Keys
    {
      Layout() && Blocks()
    }

    ghost predicate Valid()
      reads this`initialized, this`numNodes, this`cursor, this`regions, this`policy, this`Owner, Owner.Keys
    {
      Counters() && Mappings()
    }

    /** Whether p is a pointer `malloc` returned and `free` has not yet released. */
    ghost predicate Live(p: nat)
      reads this`regions
    {
      HEADER <= p && p - HEADER in regions
    }

    /** The user bytes of a live block. */
    ghost function Block(p: nat): (bytes: seq<Byte>)
      requires Mappings() && Live(p)
      reads this`regions, this`policy, this`Owner, Owner.Keys
      ensures HEADER + |bytes| == regions[p - HEADER].Length
    {
      regions[p - HEADER][HEADER..]
    }

    /** What `mmap` is assumed to do when it succeeds: a fresh, page-aligned range inside the address space. */
    ghost predicate CanMapAt(addr: nat, len: nat, pageSize: nat)
      requires 0 < pageSize
      reads this`regions
    {
      && 0 < addr && addr % pageSize == 0 && addr + len <= ADDRESS_LIMIT
      && forall s :: s in regions ==> Disjoint(s, regions[s].Length, addr, len)
    }

    constructor ()
      ensures Valid() && !initialized && regions == map[]
    {
      initialized := false;
      numNodes := 0;
      cursor := 0;
      regions := map[];
      policy := map[];
      Owner := map[];
    }

    /** `init_allocator`: sets `num_nodes` from the topology, falling back to one node. */
    method InitAllocator(numaAvailable: int, maxNode: Int32)
      requires maxNode < INT_MAX
      modifies this`numNodes
      ensures numNodes >= 1
      ensures numNodes == DiscoveredNodes(numaAvailable, maxNode)
    {
      if numaAvailable == NUMA_UNAVAILABLE {
        numNodes := 1;
        return;
      }
      numNodes := maxNode + 1;
      if numNodes <= 0 {
        numNodes := 1;
      }
    }

    /** `pthread_once(&init_once, init_allocator)`: initialises on the first call only. */
    method EnsureInitialized(os: Os)
      requires Counters()
      requires !initialized ==> os.maxNode < INT_MAX
      modifies this`initialized, this`numNodes
      ensures initialized && Counters()
      ensures numNodes == if old(initialized) then old(numNodes) else DiscoveredNodes(os.numaAvailable, os.maxNode)
    {
      if !initialized {
        InitAllocator(os.numaAvailable, os.maxNode);
        initialized := true;
      }
    }

    /** The critical section of `malloc`: take the node the cursor names and advance the cursor. */
    method SelectNode() returns (target: Int32)
      requires initialized && Counters()
      modifies this`cursor
      ensures target == old(cursor)
      ensures cursor == Advance(old(cursor), numNodes)
      ensures Counters()
    {
      target := cursor;
      AdvanceIsMod(cursor, numNodes);
      cursor := (cursor + 1) % numNodes;
    }

    /** `mmap` of an anonymous private read-write range: fails, or adds a fresh zero-filled mapping. */
    method Mmap(len: nat, answer: MmapAnswer, pageSize: nat) returns (ptr: int)
      requires Layout() && 0 < len && 0 < pageSize
      requires answer.MappedAt? ==> CanMapAt(answer.addr, len, pageSize)
      modifies this`regions, this`Owner
      ensures Layout()
      ensures answer.MapFailed? ==> ptr == MAP_FAILED && regions == old(regions) && Owner == old(Owner)
      ensures answer.MappedAt? ==>
        && ptr == answer.addr && ptr !in old(regions) && ptr in regions
        && fresh(regions[ptr]) && regions == old(regions)[ptr := regions[ptr]]
        && regions[ptr][..] == Zeros(len) && Owner == old(Owner)[regions[ptr] := ptr]
    {
      if answer.MapFailed? {
        return MAP_FAILED;
      }
      var mem := new Byte[len](_ => 0);
      ptr := answer.addr;
      regions := regions[ptr := mem];
      Owner := Owner[mem := ptr];
    }

    /** `mbind(addr, len, MPOL_BIND, &mask, ULONG_BITS, 0)`: installs the mask, or fails with -1. */
    method Mbind(addr: nat, len: nat, mask: nat, ok: bool) returns (rc: int)
      requires addr in regions && regions[addr].Length == len
      modifies this`policy
      ensures ok ==> rc == 0 && policy == old(policy)[addr := mask]
      ensures !ok ==> rc == -1 && policy == old(policy)
    {
      if ok {
        policy := policy[addr := mask];
        rc := 0;
      } else {
        rc := -1;
      }
    }

    /** `munmap(addr, len)` of exactly one whole mapping. */
    method Munmap(addr: nat, len: nat)
      requires addr in regions && regions[addr].Length == len
      modifies this`regions, this`policy
      ensures regions == old(regions) - {addr}
      ensures policy == old(policy) - {addr}
    {
      regions := regions - {addr};
      policy := policy - {addr};
    }

    /** The effect `malloc(size)` has on the node selector, whatever `mmap` and `mbind` answer. */
    twostate predicate NodeSelected(size: nat, os: Os)
      reads this`initialized, this`numNodes, this`cursor
    {
      && initialized
      && numNodes == (if old(initialized) then old(numNodes) else DiscoveredNodes(os.numaAvailable, os.maxNode))
      && (size == 0 ==> cursor == old(cursor))
      && (size > 0 ==> 0 <= old(cursor) < numNodes && cursor == Advance(old(cursor), numNodes))
    }

    /** The mappings are `before` plus one new mapping at `start`. */
    ghost predicate OneMore(before: map<nat, array<Byte>>, start: nat)
      reads this`regions
    {
      start !in before && start in regions && regions == before[start := regions[start]]
    }

    /** The user bytes of a block p that `malloc(size)` has just mapped: a header holding size, then zeros. */
    ghost predicate FreshlyTagged(p: nat, size: SizeT)
      reads this`regions, this`Owner, Owner.Keys
    {
      HEADER <= p && p - HEADER in regions && regions[p - HEADER] in Owner
      && regions[p - HEADER][..] == EncodeWord(size) + Zeros(size)
    }

    /** `malloc(size)`. */
    method Malloc(size: SizeT, os: Os) returns (p: nat, ghost touched: seq<nat>)
      requires Valid() && 0 < os.pageSize
      requires !initialized ==> os.maxNode < INT_MAX
      requires size <= SIZE_MAX - HEADER
      requires cursor < ULONG_BITS
      requires size > 0 && os.mmap.MappedAt? ==> CanMapAt(os.mmap.addr, size + HEADER, os.pageSize)
      modifies this
      ensures Valid()
      ensures NodeSelected(size, os)
      ensures p != NULL <==> size > 0 && os.mmap.MappedAt? && os.mbindOk
      ensures p == NULL ==> regions == old(regions) && policy == old(policy)
      ensures p != NULL ==> p == os.mmap.addr + HEADER && OneMore(old(regions), p - HEADER) && fresh(regions[p - HEADER]) && FreshlyTagged(p, size)
      ensures p != NULL ==> 0 <= old(cursor) < ULONG_BITS && policy == old(policy)[p - HEADER := NodeMask(old(cursor))]
      ensures touched == if p != NULL then PageOffsets(size + HEADER, os.pageSize) else []
    {
      EnsureInitialized(os);
      if size == 0 {
        return NULL, [];
      }
      var targetNode := SelectNode();
      p, touched := CreateBlock(size, targetNode, os);
    }

    /**
     * k = |answers| consecutive `malloc(size)` calls with no `free` between
     * them, the i-th answered by answers[i]; each range the kernel hands out
     * lies above the live mappings and above the ranges handed out before it.
     * The i-th call targets the i-th node of the round-robin schedule, binds
     * its block to that node alone, and the cursor ends where the schedule does.
     */
    method MallocRepeatedly(size: SizeT, answers: seq<Os>) returns (ptrs: seq<nat>, ghost targets: seq<nat>)
      requires Valid() && initialized && numNodes <= ULONG_BITS
      requires 0 < size <= SIZE_MAX - HEADER
      requires forall i :: 0 <= i < |answers| ==> 0 < answers[i].pageSize
      requires forall i :: 0 <= i < |answers| && answers[i].mmap.MappedAt? ==>
                 && 0 < answers[i].mmap.addr && answers[i].mmap.addr % answers[i].pageSize == 0
                 && answers[i].mmap.addr + size + HEADER <= ADDRESS_LIMIT && EndsBelow(regions, answers[i].mmap.addr)
      requires forall i, j :: 0 <= i < j < |answers| && answers[i].mmap.MappedAt? && answers[j].mmap.MappedAt? ==>
                 answers[i].mmap.addr + size + HEADER <= answers[j].mmap.addr
      modifies this
      ensures Valid() && initialized && numNodes == old(numNodes)
      ensures targets == Schedule(old(cursor), |answers|, numNodes)
      ensures cursor == CursorAfter(old(cursor), |answers|, numNodes)
      ensures |ptrs| == |answers| && Outcomes(ptrs, answers)
      ensures BoundAsScheduled(ptrs, targets, regions, policy)
    {
      ptrs, targets := [], [];
      var i := 0;
      while i < |answers|
        invariant 0 <= i <= |answers| && |ptrs| == i
        invariant Valid() && initialized && numNodes == old(numNodes)
        invariant targets == Schedule(old(cursor), i, numNodes)
        invariant cursor == CursorAfter(old(cursor), i, numNodes)
        invariant forall j :: i <= j < |answers| && answers[j].mmap.MappedAt? ==> EndsBelow(regions, answers[j].mmap.addr)
        invariant Outcomes(ptrs, answers)
        invariant BoundAsScheduled(ptrs, targets, regions, policy)
      {
        ghost var target: nat := cursor;
        ghost var regionsBefore, policyBefore := regions, policy;
        ghost var touched: seq<nat>;
        ScheduleExtend(old(cursor), i, numNodes);
        CursorAfterExtend(old(cursor), i, numNodes);
        var p: nat;
        p, touched := Malloc(size, answers[i]);
        OutcomesExtend(ptrs, answers, p);
        BoundExtend(ptrs, targets, regionsBefore, policyBefore, p, target, regions, policy);
        if p != NULL {
          forall j | i < j < |answers| && answers[j].mmap.MappedAt?
            ensures EndsBelow(regions, answers[j].mmap.addr)
          {
            EndsBelowExtend(regionsBefore, p - HEADER, regions[p - HEADER], answers[j].mmap.addr);
          }
        }
        ptrs, targets := ptrs + [p], targets + [target];
        i := i + 1;
      }
    }

    /**
     * The part of `malloc` after the critical section: map size + HEADER
     * bytes, bind them to the target node alone, warm them up and write
     * the header. On a failed `mbind` the mapping is removed again.
     */
    method CreateBlock(size: SizeT, targetNode: nat, os: Os) returns (p: nat, ghost touched: seq<nat>)
      requires Mappings() && 0 < os.pageSize
      requires 0 < size <= SIZE_MAX - HEADER
      requires targetNode < ULONG_BITS
      requires os.mmap.MappedAt? ==> CanMapAt(os.mmap.addr, size + HEADER, os.pageSize)
      modifies this`regions, this`policy, this`Owner
      ensures Mappings()
      ensures p != NULL <==> os.mmap.MappedAt? && os.mbindOk
      ensures p == NULL ==> regions == old(regions) && policy == old(policy)
      ensures p != NULL ==> p == os.mmap.addr + HEADER && OneMore(old(regions), p - HEADER) && fresh(regions[p - HEADER]) && FreshlyTagged(p, size)
      ensures p != NULL ==> policy == old(policy)[p - HEADER := NodeMask(targetNode)]
      ensures touched == if p != NULL then PageOffsets(size + HEADER, os.pageSize) else []
    {
      var total := size + HEADER;
      var ptr := MapBound(total, NodeMask(targetNode), os);
      if ptr == MAP_FAILED {
        return NULL, [];
      }
      touched := TagBlock(ptr, size, os.pageSize);
      p := ptr + HEADER;
    }

    /**
     * Lines 61-74 of `malloc`: map `total` bytes and bind them to `mask`.
     * Either call failing leaves no mapping behind and gives MAP_FAILED.
     */
    method MapBound(total: nat, mask: nat, os: Os) returns (ptr: int)
      requires Mappings() && 0 < os.pageSize && 0 < total
      requires os.mmap.MappedAt? ==> CanMapAt(os.mmap.addr, total, os.pageSize)
      modifies this`regions, this`policy, this`Owner
      ensures ptr != MAP_FAILED <==> os.mmap.MappedAt? && os.mbindOk
      ensures ptr == MAP_FAILED ==> Mappings() && regions == old(regions) && policy == old(policy)
      ensures ptr != MAP_FAILED ==>
        && ptr == os.mmap.addr && OneMore(old(regions), ptr) && fresh(regions[ptr])
        && regions[ptr][..] == Zeros(total) && policy == old(policy)[ptr := mask]
        && Owner == old(Owner)[regions[ptr] := ptr]
        && Layout() && BlocksExcept(ptr)
    {
      ptr := Mmap(total, os.mmap, os.pageSize);
      if ptr == MAP_FAILED {
        forall s | s in regions
          ensures regions[s] in Owner && Owner[regions[s]] == s && HeaderOk(regions[s][..])
        {
          assert regions[s][..] == old(regions[s][..]);
        }
        return;
      }
      var mem := regions[ptr];
      var rc := Mbind(ptr, total, mask, os.mbindOk);
      if rc != 0 {
        assert ptr !in old(policy);
        Munmap(ptr, total);
        MapAddRemove(old(regions), ptr, mem);
        MapRemoveAbsent(old(policy), ptr);
        forall s | s in regions
          ensures regions[s] in Owner && Owner[regions[s]] == s && HeaderOk(regions[s][..])
        {
          assert regions[s][..] == old(regions[s][..]);
        }
        return MAP_FAILED;
      }
      forall s | s in regions && s != ptr
        ensures regions[s] in Owner && Owner[regions[s]] == s && HeaderOk(regions[s][..])
      {
        assert regions[s][..] == old(regions[s][..]);
      }
    }

    /**
     * Lines 76-79 of `malloc` on the mapping at ptr, fresh and zero-filled:
     * touch every page, then store the requested size in the header.
     */
    method TagBlock(ptr: nat, size: SizeT, pageSize: nat) returns (ghost touched: seq<nat>)
      requires Layout() && BlocksExcept(ptr)
      requires ptr in regions && regions[ptr] in Owner && Owner[regions[ptr]] == ptr && 0 < pageSize && ptr % pageSize == 0
      requires regions[ptr].Length == size + HEADER && regions[ptr][..] == Zeros(size + HEADER)
      modifies regions[ptr]
      ensures Mappings()
      ensures touched == PageOffsets(size + HEADER, pageSize)
      ensures regions[ptr][..] == EncodeWord(size) + Zeros(size)
    {
      var mem := regions[ptr];
      AlignedAddressAtLeastPage(ptr, pageSize);
      touched := WarmUpAndTag(mem, size, pageSize);
      forall s | s in regions
        ensures regions[s] in Owner && Owner[regions[s]] == s && HeaderOk(regions[s][..])
      {
        if s != ptr {
          assert regions[s][..] == old(regions[s][..]);
        }
      }
    }

    /** `*(size_t*)(p - sizeof(size_t))`: the size `malloc` recorded for a live block. */
    method OriginalSize(p: nat) returns (size: SizeT)
      requires Mappings() && Live(p)
      ensures size == |Block(p)|
      ensures size + HEADER == regions[p - HEADER].Length
    {
      var original := regions[p - HEADER];
      size := DecodeWord(original[..HEADER]);
    }

    /** The effect of `free(p)` on a live block: its one mapping is gone, nothing else changes. */
    twostate predicate FreeDone(p: nat)
      reads this
    {
      && HEADER <= p
      && regions == old(regions) - {p - HEADER}
      && policy == old(policy) - {p - HEADER}
      && initialized == old(initialized) && numNodes == old(numNodes) && cursor == old(cursor)
    }

    /** `free(p)`. */
    method Free(p: nat)
      requires Valid()
      requires p == NULL || Live(p)
      modifies this`regions, this`policy
      ensures Valid()
      ensures p == NULL ==> unchanged(this)
      ensures p != NULL ==> FreeDone(p)
    {
      if p == NULL {
        return;
      }
      var originalPtr := p - HEADER;
      var originalSize := OriginalSize(p);
      var totalSize := originalSize + HEADER;
      Munmap(originalPtr, totalSize);
    }

    /** `calloc(nmemb, size)`: null on overflow before anything else happens, otherwise `malloc(nmemb * size)`. */
    method Calloc(nmemb: SizeT, size: SizeT, os: Os) returns (p: nat, ghost touched: seq<nat>)
      requires Valid() && 0 < os.pageSize
      requires !initialized ==> os.maxNode < INT_MAX
      requires cursor < ULONG_BITS
      requires !MulOverflows(nmemb, size) ==> nmemb * size <= SIZE_MAX - HEADER
      requires !MulOverflows(nmemb, size) && nmemb * size > 0 && os.mmap.MappedAt? ==>
                 CanMapAt(os.mmap.addr, nmemb * size + HEADER, os.pageSize)
      modifies this
      ensures Valid()
      ensures MulOverflows(nmemb, size) ==> p == NULL && unchanged(this)
      ensures !MulOverflows(nmemb, size) ==> NodeSelected(nmemb * size, os)
      ensures p != NULL <==> !MulOverflows(nmemb, size) && nmemb * size > 0 && os.mmap.MappedAt? && os.mbindOk
      ensures p == NULL ==> regions == old(regions) && policy == old(policy)
      ensures p != NULL ==> p == os.mmap.addr + HEADER && OneMore(old(regions), p - HEADER) && fresh(regions[p - HEADER]) && FreshlyTagged(p, nmemb * size)
      ensures p != NULL ==> 0 <= old(cursor) < ULONG_BITS && policy == old(policy)[p - HEADER := NodeMask(old(cursor))]
      ensures p != NULL ==> Live(p) && Block(p) == Zeros(nmemb * size)
      ensures touched == if p != NULL then PageOffsets(nmemb * size + HEADER, os.pageSize) else []
    {
      if MulOverflows(nmemb, size) {
        return NULL, [];
      }
      var totalSize := nmemb * size;
      p, touched := Malloc(totalSize, os);
      if p != NULL {
        assert regions[p - HEADER][..] == EncodeWord(totalSize) + Zeros(totalSize);
      }
    }

    /**
     * The mappings are `before` without the old block p and with a new
     * block q of newSize user bytes: the first CopySize(old size, newSize)
     * bytes of `oldBlock`, then zeros.
     */
    ghost predicate Moved(before: map<nat, array<Byte>>, p: nat, q: nat, newSize: SizeT, oldBlock: seq<Byte>)
      reads this`regions, this`Owner, Owner.Keys
    {
      && HEADER <= p && HEADER <= q
      && q - HEADER !in before && q - HEADER in regions
      && regions == before[q - HEADER := regions[q - HEADER]] - {p - HEADER}
      && regions[q - HEADER] in Owner
      && regions[q - HEADER][..] == EncodeWord(newSize) + Resized(oldBlock, newSize)
    }

    /** `realloc(p, newSize)`. */
    method Realloc(p: nat, newSize: SizeT, os: Os) returns (q: nat, ghost touched: seq<nat>)
      requires Valid() && 0 < os.pageSize
      requires p == NULL || Live(p)
      requires !initialized ==> os.maxNode < INT_MAX
      requires cursor < ULONG_BITS
      requires newSize <= SIZE_MAX - HEADER
      requires newSize > 0 && os.mmap.MappedAt? ==> CanMapAt(os.mmap.addr, newSize + HEADER, os.pageSize)
      modifies this
      ensures Valid()
      // realloc(NULL, newSize) is malloc(newSize)
      ensures p == NULL ==> NodeSelected(newSize, os)
      ensures p == NULL ==> (q != NULL <==> newSize > 0 && os.mmap.MappedAt? && os.mbindOk)
      ensures p == NULL && q == NULL ==> regions == old(regions) && policy == old(policy)
      ensures p == NULL && q != NULL ==> q == os.mmap.addr + HEADER && OneMore(old(regions), q - HEADER) && fresh(regions[q - HEADER]) && FreshlyTagged(q, newSize)
      ensures p == NULL && q != NULL ==>
                0 <= old(cursor) < ULONG_BITS && policy == old(policy)[q - HEADER := NodeMask(old(cursor))]
      // realloc(p, 0) is free(p)
      ensures p != NULL && newSize == 0 ==> q == NULL && FreeDone(p)
      // otherwise a new block, or nothing changed but the node selector
      ensures p != NULL && newSize > 0 ==> NodeSelected(newSize, os)
      ensures p != NULL && newSize > 0 ==> (q != NULL <==> os.mmap.MappedAt? && os.mbindOk)
      ensures p != NULL && newSize > 0 && q == NULL ==> regions == old(regions) && policy == old(policy)
      ensures p != NULL && newSize > 0 && q != NULL ==>
                q == os.mmap.addr + HEADER && Moved(old(regions), p, q, newSize, old(Block(p))) && fresh(regions[q - HEADER])
      ensures p != NULL && newSize > 0 && q != NULL ==>
                0 <= old(cursor) < ULONG_BITS
                && policy == old(policy)[q - HEADER := NodeMask(old(cursor))] - {p - HEADER}
      // the new block, and only it, is warmed up page by page
      ensures touched == if q != NULL then PageOffsets(newSize + HEADER, os.pageSize) else []
    {
      if p == NULL {
        q, touched := Malloc(newSize, os);
        return;
      }
      if newSize == 0 {
        Free(p);
        return NULL, [];
      }
      q, touched := Relocate(p, newSize, os);
    }

    /** The last case of `realloc`: allocate anew, copy the common prefix, free the old block. */
    method Relocate(p: nat, newSize: SizeT, os: Os) returns (q: nat, ghost touched: seq<nat>)
      requires Valid() && 0 < os.pageSize && Live(p)
      requires !initialized ==> os.maxNode < INT_MAX
      requires cursor < ULONG_BITS
      requires 0 < newSize <= SIZE_MAX - HEADER
      requires os.mmap.MappedAt? ==> CanMapAt(os.mmap.addr, newSize + HEADER, os.pageSize)
      modifies this
      ensures Valid()
      ensures NodeSelected(newSize, os)
      ensures q != NULL <==> os.mmap.MappedAt? && os.mbindOk
      ensures q == NULL ==> regions == old(regions) && policy == old(policy)
      ensures q != NULL ==> q == os.mmap.addr + HEADER && Moved(old(regions), p, q, newSize, old(Block(p))) && fresh(regions[q - HEADER])
      ensures q != NULL ==>
                0 <= old(cursor) < ULONG_BITS
                && policy == old(policy)[q - HEADER := NodeMask(old(cursor))] - {p - HEADER}
      ensures touched == if q != NULL then PageOffsets(newSize + HEADER, os.pageSize) else []
    {
      var originalSize := OriginalSize(p);
      ghost var oldBlock := Block(p);
      q, touched := Malloc(newSize, os);
      if q != NULL {
        CopyThenFree(p, q, originalSize, newSize, oldBlock, old(regions), old(policy), NodeMask(old(cursor)));
      }
    }

    /**
     * The rest of `realloc` once `malloc` has added the block q to the
     * mappings `before` and bound it with `mask`: copy the common prefix
     * into q, then free p.
     */
    method CopyThenFree(p: nat, q: nat, originalSize: SizeT, newSize: SizeT, ghost oldBlock: seq<Byte>,
                        ghost before: map<nat, array<Byte>>, ghost policyBefore: map<nat, nat>, ghost mask: nat)
      requires Valid() && Live(p) && Live(q) && p - HEADER in before
      requires OneMore(before, q - HEADER) && policy == policyBefore[q - HEADER := mask]
      requires oldBlock == Block(p) && originalSize == |oldBlock|
      requires regions[q - HEADER][..] == EncodeWord(newSize) + Zeros(newSize)
      modifies this`regions, this`policy, regions[q - HEADER]
      ensures Valid()
      ensures Moved(before, p, q, newSize, oldBlock) && regions[q - HEADER] == old(regions[q - HEADER])
      ensures policy == policyBefore[q - HEADER := mask] - {p - HEADER}
      ensures initialized == old(initialized) && numNodes == old(numNodes) && cursor == old(cursor)
    {
      var copySize := CopySize(originalSize, newSize);
      var src, dst := regions[p - HEADER], regions[q - HEADER];
      Memcpy(dst, HEADER, src, HEADER, copySize);
      assert dst[..] == EncodeWord(newSize) + Resized(oldBlock, newSize) by {
        assert src[HEADER..HEADER + copySize] == oldBlock[..copySize];
      }
      forall s | s in regions
        ensures regions[s] in Owner && Owner[regions[s]] == s && HeaderOk(regions[s][..])
      {
        if s != q - HEADER {
          assert regions[s][..] == old(regions[s][..]);
        }
      }
      Free(p);
    }
  }

  /**
   * Lines 76-79 of `malloc` on a fresh zero-filled mapping: touch every
   * page, then store the requested size in the header.
   */
  method WarmUpAndTag(mem: array<Byte>, size: SizeT, pageSize: nat) returns (ghost touched: seq<nat>)
    requires 0 < pageSize && mem.Length == size + HEADER
    requires mem.Length + pageSize <= ADDRESS_LIMIT
    requires mem[..] == Zeros(mem.Length)
    modifies mem
    ensures touched == PageOffsets(size + HEADER, pageSize)
    ensures mem[..] == EncodeWord(size) + Zeros(size)
    ensures HeaderOk(mem[..])
  {
    touched := FirstTouch(mem, mem.Length, pageSize);
    assert mem[..] == Zeros(mem.Length);
    StoreWord(mem, size);
    assert mem[..] == mem[..HEADER] + mem[HEADER..];
  }

  /** Mapping a fresh key and unmapping it again leaves the map as it was. */
  lemma MapAddRemove<K, V>(m: map<K, V>, k: K, v: V)
    requires k !in m
    ensures m[k := v] - {k} == m
  {
  }

  /** Removing a key that is not there changes nothing. */
  lemma MapRemoveAbsent<K, V>(m: map<K, V>, k: K)
    requires k !in m
    ensures m - {k} == m
  {
  }

  /** A non-null page-aligned address is at least one page. */
  lemma AlignedAddressAtLeastPage(addr: nat, pageSize: nat)
    requires 0 < pageSize && 0 < addr && addr % pageSize == 0
    ensures pageSize <= addr
  {
    if addr < pageSize {
      DivModUnique(addr, pageSize, 0, addr);
    }
  }
}
