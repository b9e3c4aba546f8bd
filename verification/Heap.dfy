/** The kernel heap (kernel/lib/kmalloc.c): an intrusive list of chunks that
    grows through the virtual page allocator. */
module KernelHeap {
  import opened Common
  import opened AddressSpace
  import Paging
  import opened VirtualMemory
  import opened HeapChunks
  import opened HeapMemory

  function AtOrNull(cs: seq<Chunk>, i: nat): nat { if i < |cs| then cs[i].at else 0 }

  class Heap {
    const vmm: Vmm
    var mem: HeapChunks.Memory
    var head: nat
    var heapStart: nat
    var heapEnd: nat
    ghost var chunks: seq<Chunk>

    /** Following next from the head, the chunks tile what vallocs has handed out,
        from KHEAP_BASE on, and every header in memory is a chunk's or an absorbed one
        in the body of a free chunk. This much survives any kfree. */
    ghost predicate Walkable()
      reads this, vmm, vmm.pmm, vmm.pmm.bitmap
    {
      && vmm.Valid()
      && Tiles(chunks, heapStart, heapEnd) && Forward(mem, head, chunks) && Remembered(mem, chunks)
      && (chunks == [] ==> vmm.nextVirt == KHEAP_BASE)
      && (chunks != [] ==> heapStart == KHEAP_BASE && heapEnd == vmm.nextVirt)
      && (forall p: nat :: HEAP_PAGE <= p < vmm.nextVirt / PAGE ==> p in vmm.leaves)
    }

    /** In addition prev undoes next, and no two neighbours are both free. */
    ghost predicate Intact()
      reads this
    {
      Coalesced(chunks) && Threaded(mem, head, chunks)
    }

    ghost predicate Valid()
      reads this, vmm, vmm.pmm, vmm.pmm.bitmap
    {
      Walkable() && Intact()
    }

    /** kmalloc_init, before anyone else has called vallocs. */
    constructor (vmm: Vmm)
      requires vmm.Valid() && vmm.nextVirt == KHEAP_BASE
      ensures Valid() && this.vmm == vmm && chunks == []
    {
      this.vmm, head, heapStart, heapEnd, mem := vmm, 0, 0, 0, map[];
      chunks := [];
    }

    method KmergeNext(chunk: nat)
      requires chunk != 0 ==> Followable(mem, chunk)
      modifies `mem
      ensures mem == MergeMem(old(mem), chunk)
    {
      if chunk == 0 {
        return;
      }
      if mem[chunk].state != STATE_FREE {
        return;
      }
      var next := mem[chunk].next;
      if next == 0 {
        return;
      }
      if mem[next].state != STATE_FREE {
        return;
      }
      mem := mem[chunk := mem[chunk].(length := mem[chunk].length + mem[next].length)];
      mem := mem[chunk := mem[chunk].(next := mem[next].next)];
      if mem[chunk].next != 0 {
        var after := mem[chunk].next;
        mem := mem[after := mem[after].(prev := chunk)];
      }
    }

    method Ksplit(chunk: nat, length: nat)
      requires chunk in mem && 0 < length <= mem[chunk].length
      requires mem[chunk].next != 0 ==> mem[chunk].next in mem && mem[chunk].next != chunk
      modifies `mem
      ensures mem == SplitMem(old(mem), chunk, length)
    {
      var newChunk := chunk + length;
      mem := mem[newChunk := Header(STATE_FREE, mem[chunk].length - length, mem[chunk].next, chunk)];
      if mem[chunk].next != 0 {
        var next := mem[chunk].next;
        mem := mem[next := mem[next].(prev := newChunk)];
      }
      mem := mem[chunk := mem[chunk].(next := newChunk)];
      mem := mem[chunk := mem[chunk].(length := length)];
    }

    /** The search loop of kmalloc: the first free chunk that is large enough, or NULL. */
    method Find(required: nat) returns (chunk: nat)
      requires Tiles(chunks, heapStart, heapEnd) && Forward(mem, head, chunks)
      ensures chunk == AtOrNull(chunks, FirstFit(chunks, required))
    {
      hide Tiles, Forward, FirstFit;
      chunk := head;
      ghost var i := 0;
      HeadIs(mem, head, chunks, heapStart, heapEnd);
      while chunk != 0
        invariant i <= |chunks| && chunk == AtOrNull(chunks, i) && (chunk == 0 <==> i == |chunks|)
        invariant forall j :: 0 <= j < i ==> !Fits(chunks[j], required)
        decreases |chunks| - i
      {
        ForwardAt(mem, head, chunks, i);
        if mem[chunk].state == STATE_FREE && mem[chunk].length >= required {
          FirstFitIs(chunks, required, i);
          return;
        }
        chunk := mem[chunk].next;
        i := i + 1;
        NextPositive(chunks, heapStart, heapEnd, i);
      }
      FirstFitIs(chunks, required, i);
    }

    /** kfree: of the chunk whose payload starts at ptr when its header says it is in use,
        of nothing when it does not, as after an earlier kfree. */
    method Kfree(ptr: nat)
      requires Walkable() && Safe(mem, ptr)
      modifies `mem, `chunks
      ensures Walkable() && mem.Keys == old(mem.Keys) && !Frees(mem, ptr)
      ensures !Frees(old(mem), ptr) ==> mem == old(mem) && chunks == old(chunks)
      ensures Frees(old(mem), ptr) ==> FreesChunk(old(mem), mem, old(chunks), chunks, ptr)
      ensures Frees(old(mem), ptr) && old(Intact()) ==>
                && MergedBack(old(chunks), chunks, ptr)
                && if BetweenFree(old(chunks), IndexOf(old(chunks), ptr - HEADER)) then
                     !exists ds :: HeapOk(mem, head, ds, heapStart, heapEnd)
                   else
                     Intact()
    {
      hide Vmm.Valid, Tiles, Coalesced, Threaded, Forward, Remembered, MergeMem, IndexOf, KfreeList, MergeListed;
      hide Followable, InUse, MergeAt, Freed;
      if ptr == 0 {
        return;
      }
      var chunk := ptr - HEADER;
      if mem[chunk].state != STATE_USED {
        return;
      }
      FreesListed(mem, head, chunks, ptr);
      ghost var k, was, cs := IndexOf(chunks, chunk), mem, chunks;
      KfreeWalkable(mem, head, chunks, heapStart, heapEnd, k);
      KfreeInUse(chunks, heapStart, heapEnd, k, mem[chunk].prev);
      NotEmpty(chunks, KfreeList(chunks, k, mem[chunk].prev), heapStart, heapEnd);
      KfreeReads(mem, head, chunks, heapStart, heapEnd, k);
      mem := mem[chunk := mem[chunk].(state := STATE_FREE)];
      if mem[chunk].prev != 0 {
        KmergeNext(mem[chunk].prev);
      }
      KmergeNext(chunk);
      assert mem == KfreeMem(was, chunk);
      KfreeState(was, chunk);
      chunks := KfreeList(cs, k, was[chunk].prev);
      if Coalesced(cs) && Threaded(was, head, cs) {
        KfreeListIntact(was, head, cs, heapStart, heapEnd, k);
        KfreeIff(was, head, cs, heapStart, heapEnd, k);
        if !BetweenFree(cs, k) {
          KfreeMerges(was, head, cs, heapStart, heapEnd, k);
        }
      }
    }

    /** A valid heap always leaves vallocs room below the pass-through window. */
    lemma Room()
      requires Walkable()
      ensures vmm.nextVirt / PAGE + |vmm.pmm.free| < HEAP_LIMIT
    {
      HeapFitsWindow(vmm.mem, vmm.root, vmm.tab, vmm.pmm.free, vmm.leaves, vmm.nextVirt / PAGE, vmm.pmm.maxPages);
    }

    /** The loop of kmalloc_grow that looks for the last chunk. */
    method LastChunk() returns (last: nat)
      requires Tiles(chunks, heapStart, heapEnd) && Forward(mem, head, chunks) && head != 0
      ensures chunks != [] && last == chunks[|chunks| - 1].at
    {
      hide Tiles, Forward;
      HeadIs(mem, head, chunks, heapStart, heapEnd);
      last := head;
      ghost var i := 0;
      ForwardAt(mem, head, chunks, i);
      NextPositive(chunks, heapStart, heapEnd, i + 1);
      while mem[last].next != 0
        invariant i < |chunks| && last == chunks[i].at && last in mem && mem[last].next == AtOrNull(chunks, i + 1)
        invariant AtOrNull(chunks, i + 1) == 0 <==> i + 1 >= |chunks|
        decreases |chunks| - i
      {
        last := mem[last].next;
        i := i + 1;
        ForwardAt(mem, head, chunks, i);
        NextPositive(chunks, heapStart, heapEnd, i + 1);
      }
    }

    /** The end of kmalloc_grow: a free chunk behind the last one, merged with it when that is free. */
    method AppendRegion(address: nat, bytes: nat)
      requires Tiles(chunks, heapStart, heapEnd) && Forward(mem, head, chunks) && head != 0 && Remembered(mem, chunks)
      requires address == heapEnd && bytes >= MIN_CHUNK && Aligned(bytes)
      modifies `mem, `heapEnd, `chunks
      ensures Tiles(chunks, heapStart, heapEnd) && Forward(mem, head, chunks) && (old(Intact()) ==> Intact())
      ensures Remembered(mem, chunks)
      ensures heapEnd == old(heapEnd) + bytes && chunks == WithRegion(old(chunks), address, bytes) && chunks != []
    {
      hide Tiles, Coalesced, Threaded, Forward, Remembered, WithRegion, MergeMem, MergeRight, MergeListed, IndexOf,
           Aligned;
      var last := LastChunk();
      ghost var longer := chunks + [Chunk(address, bytes, false)];
      LongerTiles(chunks, heapStart, heapEnd, bytes);
      AppendedForward(mem, head, chunks, heapStart, heapEnd, bytes);
      WithRegionTiles(chunks, heapStart, heapEnd, bytes);
      if Coalesced(chunks) {
        WithRegionCoalesced(chunks, address, bytes);
      }
      MergedForward(AppendMem(mem, last, address, bytes), head, longer, heapStart, heapEnd + bytes, |chunks| - 1);
      ForwardFollowable(AppendMem(mem, last, address, bytes), head, longer, |chunks| - 1);
      RememberedRegion(mem, head, chunks, heapStart, heapEnd, bytes);
      ForwardAt(AppendMem(mem, last, address, bytes), head, longer, |chunks| - 1);
      ghost var was := mem;
      mem := mem[address := Header(STATE_FREE, bytes, 0, last)];
      mem := mem[last := mem[last].(next := address)];
      assert mem == AppendMem(was, last, address, bytes);
      heapEnd := heapEnd + bytes;
      if mem[last].state == STATE_FREE {
        KmergeNext(last);
      }
      RegionMerged(chunks, address, bytes);
      chunks := WithRegion(chunks, address, bytes);
    }

    /** kmalloc_grow: size more bytes, in whole pages, at the end of the heap. */
    method KmallocGrow(size: nat) returns (halted: bool, ok: bool)
      requires Walkable() && MIN_CHUNK <= size < TWO_64
      modifies this, vmm, vmm.pmm`free, vmm.pmm`freePages, vmm.pmm.bitmap
      ensures halted ==> vmm.pmm.free == {}
      ensures !halted ==> Walkable() && (old(Intact()) ==> Intact())
      ensures !halted && ok <==> CanGrow(old(vmm.tab), old(vmm.pmm.free), old(vmm.nextVirt), size)
      ensures !halted && !ok ==> chunks == old(chunks) && mem == old(mem) && vmm.nextVirt == old(vmm.nextVirt)
      ensures !halted && ok ==>
                && size <= AlignUp(size, PAGE)
                && vmm.nextVirt == old(vmm.nextVirt) + AlignUp(size, PAGE)
                && chunks == WithRegion(old(chunks), old(vmm.nextVirt), AlignUp(size, PAGE))
    {
      hide Vmm.Core, Vmm.Live, Owned, Sound, Tiles, Coalesced, Threaded, Forward, Remembered, AlignUp, WithRegion,
           MergeMem;
      hide OutsideKept, ContentsKept, FreshPages, Pool, Needed, Paths;
      var bytes := AlignUp(size, PAGE);
      var pages := bytes / PAGE;
      Room();
      ghost var leaves := vmm.leaves;
      var address: nat;
      halted, address := vmm.Vallocs(true, pages);
      if halted {
        return true, false;
      }
      if address == 0 {
        return false, false;
      }
      PagesRounded(size);
      MorePages(leaves, vmm.leaves, address / PAGE, pages);
      HeadIs(mem, head, chunks, heapStart, heapEnd);
      if head == 0 {
        FirstRegion(mem, address, bytes);
        heapStart := address;
        heapEnd := address + bytes;
        head := address;
        mem := mem[address := Header(STATE_FREE, bytes, 0, 0)];
        chunks := [Chunk(address, bytes, false)];
        return false, true;
      }
      if address != heapEnd {
        assert false;  // vallocs always continues the heap, so this branch is dead
      }
      AppendRegion(address, bytes);
      return false, true;
    }

    /** The end of kmalloc: split the chosen chunk when enough remains, and take it. From here
        on the bytes behind its header are the caller's: a header absorbed there is no longer one. */
    method Take(chunk: nat, required: nat, ghost k: nat) returns (ptr: nat)
      requires Walkable() && k < |chunks| && chunk == chunks[k].at && Fits(chunks[k], required)
      requires required >= MIN_CHUNK && Aligned(required)
      modifies `mem, `chunks
      ensures Walkable() && (old(Intact()) ==> Intact()) && chunks == Allocate(old(chunks), k, required)
      ensures ptr == old(chunks)[k].Payload() && Carved(old(chunks), chunks, k, required)
    {
      hide Vmm.Valid, Tiles, Coalesced, Threaded, Forward, Remembered, SetState, Aligned, Allocate, Carved;
      ForwardAt(mem, head, chunks, k);
      AllocateTiles(chunks, heapStart, heapEnd, k, required);
      ghost var was, cs := mem, chunks;
      TakeMem(mem, head, chunks, heapStart, heapEnd, k, required);
      var limit, keep := chunk + mem[chunk].length, chunk;
      if mem[chunk].length >= required + HEADER + MIN_SPLIT {
        SplitReadable(mem, head, chunks, heapStart, heapEnd, k);
        Ksplit(chunk, required);
        limit, keep := chunk + required + HEADER, chunk + required;
      }
      StateSet(mem, chunk);
      mem := mem[chunk := mem[chunk].(state := STATE_USED)];
      mem := HandOut(mem, chunk, limit, keep);
      assert mem == HandOutOf(TakenMem(was, cs[k], required), cs[k], required);
      if Coalesced(cs) {
        AllocateKeeps(chunks, heapStart, heapEnd, k, required);
      }
      AllocateCarves(chunks, k, required);
      chunks := Allocate(chunks, k, required);
      return chunk + HEADER;
    }

    /** kmalloc. Beyond 2^64 - 48 the rounding to 16 or the header would wrap. */
    method Kmalloc(size: nat) returns (halted: bool, ptr: nat)
      requires Walkable() && size <= TWO_64 - MIN_CHUNK
      modifies this, vmm, vmm.pmm`free, vmm.pmm`freePages, vmm.pmm.bitmap
      ensures halted ==> vmm.pmm.free == {}
      ensures !halted ==> Walkable() && (old(Intact()) ==> Intact())
      ensures size == 0 ==> !halted && ptr == 0
      ensures size > 0 ==>
                var required := AlignUp(size, ALIGNMENT) + HEADER;
                !halted && ptr != 0 <==>
                  || FirstFit(old(chunks), required) < |old(chunks)|
                  || CanGrow(old(vmm.tab), old(vmm.pmm.free), old(vmm.nextVirt), Growth(required))
      ensures !halted && ptr == 0 ==> chunks == old(chunks) && mem == old(mem) && vmm.nextVirt == old(vmm.nextVirt)
      ensures !halted && ptr != 0 ==>
                Served(old(chunks), chunks, AlignUp(size, ALIGNMENT) + HEADER, old(vmm.nextVirt), vmm.nextVirt, ptr)
      ensures !halted && ptr != 0 ==> Outcome(old(chunks), chunks, size, old(vmm.nextVirt), vmm.nextVirt, ptr)
      ensures !halted && ptr != 0 ==> Gives(old(chunks), chunks, ptr, size)
    {
      hide CanGrow, Outcome, Carved;
      hide Vmm.Valid, Tiles, Coalesced, Threaded, Forward, Remembered, Gives, AlignUp, FirstFit, Allocate, WithRegion,
           Aligned;
      if size == 0 {
        return false, 0;
      }
      RequiredSize(size);
      var rounded := AlignUp(size, ALIGNMENT);
      var required := rounded + HEADER;
      var chunk := Find(required);
      ghost var start := vmm.nextVirt;
      ghost var before, k := chunks, FirstFit(chunks, required);
      ChunkIsNull(chunks, heapStart, heapEnd, k);
      if chunk == 0 {
        var growSize := required;
        if growSize < 16 * PAGE {
          growSize := 16 * PAGE;
        }
        var ok: bool;
        ghost var at := vmm.nextVirt;
        halted, ok := KmallocGrow(growSize);
        if halted {
          return true, 0;
        }
        if !ok {
          return false, 0;
        }
        RegionFits(before, at, AlignUp(growSize, PAGE), required);
        RegionInUse(before, at, AlignUp(growSize, PAGE));
        chunk := Find(required);
        k := FirstFit(chunks, required);
        ChunkIsNull(chunks, heapStart, heapEnd, k);
        if chunk == 0 {
          assert false;  // the grown chunk is large enough, so this exit is dead
        }
      }
      ghost var cs := chunks;
      ptr := Take(chunk, required, k);
      TakenGives(before, cs, heapStart, heapEnd, k, required, size);
      ServedOutcome(before, chunks, size, required, start, vmm.nextVirt, ptr);
      return false, ptr;
    }

    /** The first two small requests on an empty heap. */
    method FirstTwo() returns (halted: bool, p: nat, q: nat)
      requires Valid() && chunks == []
      modifies this, vmm, vmm.pmm`free, vmm.pmm`freePages, vmm.pmm.bitmap
      ensures !halted && p != 0 ==>
                && p == 0xFFFF_FFFE_0000_0020 && q == 0xFFFF_FFFE_0000_0050
                && chunks == [Chunk(0xFFFF_FFFE_0000_0000, 48, true), Chunk(0xFFFF_FFFE_0000_0030, 48, true),
                              Chunk(0xFFFF_FFFE_0000_0060, 0xFFA0, false)]
    {
      hide Vmm.Valid, Tiles, Coalesced, Threaded, Forward, Remembered, AlignUp, FirstFit, Allocate, Served, Gives,
           CanGrow;
      halted, p := Kmalloc(16);
      q := 0;
      if !halted && p != 0 {
        assert chunks == [Chunk(0xFFFF_FFFE_0000_0000, 48, true), Chunk(0xFFFF_FFFE_0000_0030, 0xFFD0, false)];
        ghost var mid := chunks;
        SecondFits(mid);
        halted, q := Kmalloc(16);
        assert FirstLongEnough(mid, 48, 1);
      }
    }

    /** A second kfree of the same payload changes nothing, wherever its chunk has gone. */
    method KfreeTwice(ptr: nat)
      requires Walkable() && Safe(mem, ptr) && Frees(mem, ptr)
      modifies `mem, `chunks
      ensures Walkable() && FreesChunk(old(mem), mem, old(chunks), chunks, ptr)
    {
      hide Vmm.Valid, Tiles, Coalesced, Threaded, Forward, Remembered, FreesChunk, MergedBack, HeapOk, Follows,
           BetweenFree;
      Kfree(ptr);
      Kfree(ptr);
    }

    /** kmalloc served without growth, then kfree: the chunk list is as it was. */
    method KmallocThenKfree(size: nat) returns (ptr: nat)
      requires Valid() && 0 < size <= TWO_64 - MIN_CHUNK
      requires FirstFit(chunks, AlignUp(size, ALIGNMENT) + HEADER) < |chunks|
      modifies this, vmm, vmm.pmm`free, vmm.pmm`freePages, vmm.pmm.bitmap
      ensures Valid() && chunks == old(chunks) && vmm.nextVirt == old(vmm.nextVirt)
    {
      hide Vmm.Valid, Tiles, Coalesced, Threaded, Forward, Remembered, AlignUp, FirstFit, Allocate, Freed, Aligned,
           Safe, Frees, Gives;
      RequiredSize(size);
      ghost var required := AlignUp(size, ALIGNMENT) + HEADER;
      ghost var k := FirstFit(chunks, required);
      FreeUndoesAllocate(chunks, k, required);
      AllocateKeeps(chunks, heapStart, heapEnd, k, required);
      var halted;
      halted, ptr := Kmalloc(size);
      IntactSafe(mem, head, chunks, heapStart, heapEnd, k);
      UsedFrees(mem, head, chunks, heapStart, heapEnd, k);
      Kfree(ptr);
    }
  }

  /** kfree has freed the chunk of ptr: the headers and the list are as the merges make
      them, and of the chunks in use that one is gone. */
  ghost predicate FreesChunk(mem: HeapChunks.Memory, mem': HeapChunks.Memory, cs: seq<Chunk>, ds: seq<Chunk>, ptr: nat)
    requires Frees(mem, ptr)
  {
    var k := IndexOf(cs, ptr - HEADER);
    && k < |cs| && cs[k].used
    && mem' == KfreeMem(mem, ptr - HEADER)
    && ds == KfreeList(cs, k, mem[ptr - HEADER].prev)
    && InUse(ds) == InUse(cs) - {cs[k]}
  }

  /** On an intact heap: merged with every free neighbour, but between two free ones
      with the one before only. */
  ghost predicate MergedBack(cs: seq<Chunk>, ds: seq<Chunk>, ptr: nat)
    requires ptr >= HEADER
  {
    var k := IndexOf(cs, ptr - HEADER);
    && k < |cs|
    && ds == if BetweenFree(cs, k) then MergeAt(Mark(cs, k, false), k - 1) else Freed(cs, k)
  }

  lemma UsedFrees(mem: HeapChunks.Memory, head: nat, cs: seq<Chunk>, start: nat, end: nat, k: nat)
    requires Tiles(cs, start, end) && Forward(mem, head, cs) && k < |cs| && cs[k].used
    ensures Frees(mem, cs[k].Payload()) && IndexOf(cs, cs[k].Payload() - HEADER) == k
  {
    IndexIs(cs, start, end, k);
  }

  /** A chunk in use whose payload starts at ptr and holds size bytes. */
  predicate Serves(c: Chunk, ptr: nat, size: nat) {
    c.used && c.Payload() == ptr && c.length - HEADER >= size && ptr % ALIGNMENT == 0
  }

  lemma StateSet(mem: HeapChunks.Memory, a: nat)
    requires a in mem
    ensures SetState(mem, a, STATE_USED) == mem[a := mem[a].(state := STATE_USED)]
  {
  }

  lemma RequiredSize(size: nat)
    requires 0 < size <= TWO_64 - MIN_CHUNK
    ensures MIN_CHUNK <= AlignUp(size, ALIGNMENT) + HEADER < TWO_64
    ensures AlignUp(size, ALIGNMENT) >= size && Aligned(AlignUp(size, ALIGNMENT) + HEADER)
  {
    AlignUpRounds(size, ALIGNMENT);
  }

  lemma SplitReadable(mem: HeapChunks.Memory, head: nat, cs: seq<Chunk>, start: nat, end: nat, k: nat)
    requires Tiles(cs, start, end) && Forward(mem, head, cs) && k < |cs|
    ensures cs[k].at in mem
    ensures mem[cs[k].at].next != 0 ==> mem[cs[k].at].next in mem && mem[cs[k].at].next != cs[k].at
  {
    if k + 1 < |cs| {
      Differ(cs, start, end, k, k + 1);
    }
  }

  lemma ChunkIsNull(cs: seq<Chunk>, start: nat, end: nat, k: nat)
    requires Tiles(cs, start, end) && k <= |cs|
    ensures AtOrNull(cs, k) == 0 <==> k == |cs|
  {
  }

  /** After growth exactly the new last chunk fits. */
  lemma RegionFits(cs: seq<Chunk>, at: nat, bytes: nat, required: nat)
    requires FirstFit(cs, required) == |cs| && bytes >= required
    ensures WithRegion(cs, at, bytes) != []
    ensures FirstFit(WithRegion(cs, at, bytes), required) == |WithRegion(cs, at, bytes)| - 1
  {
    var grown := WithRegion(cs, at, bytes);
    assert forall j :: 0 <= j < |grown| - 1 ==> grown[j] == cs[j];
    FirstFitIs(grown, required, |grown| - 1);
  }

  /** What kmalloc asks kmalloc_grow for. */
  function Growth(required: nat): nat { if required < 16 * PAGE then 16 * PAGE else required }

  /** There is a free frame for each page the heap has to grow by, and for each table missing above them. */
  ghost predicate CanGrow(tab: Paging.Tables, free: set<nat>, at: nat, size: nat) {
    var pages := AlignUp(size, PAGE) / PAGE;
    pages > 0 && Needed(tab, Paths(at / PAGE, pages), pages) <= |free|
  }

  /** The request is served from the first chunk that fits, or else from the last one
      of the heap, grown by whole pages, 16 of them at least. */
  ghost predicate Served(cs: seq<Chunk>, ds: seq<Chunk>, required: nat, at: nat, at': nat, ptr: nat) {
    var k := FirstFit(cs, required);
    if k < |cs| then
      ds == Allocate(cs, k, required) && ptr == cs[k].Payload() && at' == at
    else
      var bytes := AlignUp(Growth(required), PAGE);
      var grown := WithRegion(cs, at, bytes);
      var last := FirstFit(grown, required);
      && last == |grown| - 1 && at' == at + bytes
      && ds == Allocate(grown, last, required) && ptr == grown[last].Payload()
  }

  // ---------------------------------------------------------------------
  // The same in plain numbers
  // ---------------------------------------------------------------------

  /** Chunk k gives required bytes; 64 or more that remain become a free chunk of their
      own, fewer stay with it. No other chunk changes. */
  ghost predicate Carved(cs: seq<Chunk>, ds: seq<Chunk>, k: nat, required: nat) {
    && k < |cs| && required <= cs[k].length
    && var c := cs[k];
       ds == cs[..k]
           + (if c.length >= required + 64 then
                [Chunk(c.at, required, true), Chunk(c.at + required, c.length - required, false)]
              else
                [Chunk(c.at, c.length, true)])
           + cs[k + 1..]
  }

  ghost predicate FirstLongEnough(cs: seq<Chunk>, required: nat, k: nat) {
    && k < |cs| && !cs[k].used && cs[k].length >= required
    && forall j :: 0 <= j < k ==> cs[j].used || cs[j].length < required
  }

  ghost predicate FromFirst(cs: seq<Chunk>, ds: seq<Chunk>, required: nat, ptr: nat) {
    exists k: nat :: FirstLongEnough(cs, required, k) && Carved(cs, ds, k, required) && ptr == cs[k].at + 32
  }

  ghost predicate FromGrown(cs: seq<Chunk>, ds: seq<Chunk>, required: nat, at: nat, bytes: nat, ptr: nat) {
    var grown := Grown(cs, at, bytes);
    grown != [] && Carved(grown, ds, |grown| - 1, required) && ptr == grown[|grown| - 1].at + 32
  }

  /** The last chunk, if it is free, made longer, or else a new last one. */
  ghost function Grown(cs: seq<Chunk>, at: nat, bytes: nat): seq<Chunk> {
    if cs != [] && !cs[|cs| - 1].used then
      cs[..|cs| - 1] + [Chunk(cs[|cs| - 1].at, cs[|cs| - 1].length + bytes, false)]
    else
      cs + [Chunk(at, bytes, false)]
  }

  /** The size, rounded up to 16, and 32 bytes for the header come from the first free chunk
      that is long enough. Without one the heap first grows at its end, by whole pages and 64 KiB
      at least, which join the last chunk if that is free, and the last chunk gives them. */
  ghost predicate Outcome(cs: seq<Chunk>, ds: seq<Chunk>, size: nat, at: nat, at': nat, ptr: nat) {
    var required := (size + 15) / 16 * 16 + 32;
    var bytes := ((if required < 0x1_0000 then 0x1_0000 else required) + 0xFFF) / 0x1000 * 0x1000;
    if exists k: nat :: FirstLongEnough(cs, required, k) then at' == at && FromFirst(cs, ds, required, ptr)
    else at' == at + bytes && FromGrown(cs, ds, required, at, bytes, ptr)
  }

  lemma AllocateCarves(cs: seq<Chunk>, k: nat, required: nat)
    requires k < |cs| && required <= cs[k].length
    ensures Carved(cs, Allocate(cs, k, required), k, required)
  {
    var c, ds := cs[k], Allocate(cs, k, required);
    if c.length >= required + 64 {
      assert ds == cs[..k] + [Chunk(c.at, required, true), Chunk(c.at + required, c.length - required, false)]
                 + cs[k + 1..];
    } else {
      assert ds == cs[..k] + [Chunk(c.at, c.length, true)] + cs[k + 1..];
    }
  }

  /** Rounding in 64 bits, where nothing overflows. */
  lemma PlainRounding(value: nat)
    ensures value <= TWO_64 - MIN_CHUNK ==> AlignUp(value, ALIGNMENT) == (value + 15) / 16 * 16
    ensures 0 < value <= AlignUp(value, PAGE) && value < TWO_64 ==>
              AlignUp(value, PAGE) == (value + 0xFFF) / 0x1000 * 0x1000
  {
  }

  lemma ServedOutcome(cs: seq<Chunk>, ds: seq<Chunk>, size: nat, required: nat, at: nat, at': nat, ptr: nat)
    requires 0 < size <= TWO_64 - MIN_CHUNK && required == AlignUp(size, ALIGNMENT) + HEADER < TWO_64
    requires Served(cs, ds, required, at, at', ptr)
    requires FirstFit(cs, required) < |cs| || Growth(required) <= AlignUp(Growth(required), PAGE)
    ensures Outcome(cs, ds, size, at, at', ptr)
  {
    hide AlignUp, Allocate, WithRegion, Carved, FromFirst, FromGrown, FirstLongEnough, FirstFit;
    PlainRounding(size);
    PlainRounding(Growth(required));
    var k := FirstFit(cs, required);
    FirstFitPlain(cs, required);
    if k < |cs| {
      ServedFirst(cs, k, required);
    } else {
      var bytes := AlignUp(Growth(required), PAGE);
      ServedGrown(cs, at, bytes, required);
    }
  }

  lemma FirstFitPlain(cs: seq<Chunk>, required: nat)
    ensures FirstFit(cs, required) < |cs| <==> exists k: nat :: FirstLongEnough(cs, required, k)
    ensures FirstFit(cs, required) < |cs| ==> FirstLongEnough(cs, required, FirstFit(cs, required))
  {
    var k := FirstFit(cs, required);
    if k < |cs| {
      assert forall j :: 0 <= j < k ==> !Fits(cs[j], required);
      assert FirstLongEnough(cs, required, k);
    } else {
      forall i: nat | FirstLongEnough(cs, required, i)
        ensures false
      {
        assert Fits(cs[i], required);
      }
    }
  }

  lemma ServedFirst(cs: seq<Chunk>, k: nat, required: nat)
    requires FirstLongEnough(cs, required, k)
    ensures FromFirst(cs, Allocate(cs, k, required), required, cs[k].Payload())
  {
    AllocateCarves(cs, k, required);
  }

  lemma ServedGrown(cs: seq<Chunk>, at: nat, bytes: nat, required: nat)
    requires var grown := WithRegion(cs, at, bytes); grown != [] && required <= grown[|grown| - 1].length
    ensures var grown := WithRegion(cs, at, bytes);
            FromGrown(cs, Allocate(grown, |grown| - 1, required), required, at, bytes, grown[|grown| - 1].Payload())
  {
    var grown := WithRegion(cs, at, bytes);
    assert grown == Grown(cs, at, bytes) by { RegionPlain(cs, at, bytes); }
    hide WithRegion, Allocate, Carved, Grown;
    AllocateCarves(grown, |grown| - 1, required);
  }

  lemma SecondFits(cs: seq<Chunk>)
    requires cs == [Chunk(0xFFFF_FFFE_0000_0000, 48, true), Chunk(0xFFFF_FFFE_0000_0030, 0xFFD0, false)]
    ensures FirstFit(cs, AlignUp(16, ALIGNMENT) + HEADER) == 1
  {
    FirstFitIs(cs, 48, 1);
  }

  lemma RegionPlain(cs: seq<Chunk>, at: nat, bytes: nat)
    ensures WithRegion(cs, at, bytes) == Grown(cs, at, bytes)
  {
  }

  /** The chunks in use are those before and a new one, which serves the request. */
  ghost predicate Gives(cs: seq<Chunk>, ds: seq<Chunk>, ptr: nat, size: nat) {
    && (exists c :: c in ds && Serves(c, ptr, size) && InUse(ds) == InUse(cs) + {c})
    && (forall c :: c in InUse(cs) ==> c.Payload() != ptr)
  }

  lemma TakenGives(before: seq<Chunk>, cs: seq<Chunk>, start: nat, end: nat, k: nat, required: nat, size: nat)
    requires Tiles(cs, start, end) && k < |cs| && Fits(cs[k], required) && InUse(cs) == InUse(before)
    requires required >= MIN_CHUNK && Aligned(required) && size + HEADER <= required
    ensures Gives(before, Allocate(cs, k, required), cs[k].Payload(), size)
  {
    AllocateTiles(cs, start, end, k, required);
    PayloadAligned(cs, start, end, k);
    AllocateInUse(cs, k, required);
    hide Tiles, Allocate, InUse;
    var taken := Allocate(cs, k, required)[k];
    assert Serves(taken, cs[k].Payload(), size);
    forall c | c in InUse(cs)
      ensures c.Payload() != cs[k].Payload()
    {
      UsedElsewhere(cs, start, end, k, c);
    }
  }

  lemma UsedElsewhere(cs: seq<Chunk>, start: nat, end: nat, k: nat, c: Chunk)
    requires Tiles(cs, start, end) && k < |cs| && !cs[k].used && c in InUse(cs)
    ensures c.at != cs[k].at
  {
    var i :| 0 <= i < |cs| && cs[i] == c;
    Differ(cs, start, end, i, k);
  }

  lemma NotEmpty(cs: seq<Chunk>, ds: seq<Chunk>, start: nat, end: nat)
    requires Tiles(cs, start, end) && Tiles(ds, start, end) && cs != []
    ensures ds != []
  {
    Inside(cs, start, end, |cs| - 1);
    if |cs| > 1 {
      Ordered(cs, start, end, 0, |cs| - 1);
    }
  }

  lemma LongerTiles(cs: seq<Chunk>, start: nat, end: nat, bytes: nat)
    requires Tiles(cs, start, end) && cs != [] && bytes >= MIN_CHUNK && Aligned(bytes)
    ensures Tiles(cs + [Chunk(end, bytes, false)], start, end + bytes) && Aligned(start) && start > 0
  {
    AlignedSum(cs[|cs| - 1].at, cs[|cs| - 1].length);
    hide Aligned;
  }

  /** Merging after the append gives WithRegion in either case. */
  lemma RegionMerged(cs: seq<Chunk>, at: nat, bytes: nat)
    requires cs != []
    ensures MergeRight(cs + [Chunk(at, bytes, false)], |cs| - 1) == WithRegion(cs, at, bytes)
    ensures cs[|cs| - 1].used ==> WithRegion(cs, at, bytes) == cs + [Chunk(at, bytes, false)]
    ensures WithRegion(cs, at, bytes) != []
  {
  }

  lemma RememberedRegion(mem: HeapChunks.Memory, head: nat, cs: seq<Chunk>, start: nat, end: nat, bytes: nat)
    requires Remembered(mem, cs) && Tiles(cs, start, end) && cs != [] && cs[|cs| - 1].at in mem
    requires Tiles(cs + [Chunk(end, bytes, false)], start, end + bytes)
    requires Forward(AppendMem(mem, cs[|cs| - 1].at, end, bytes), head, cs + [Chunk(end, bytes, false)])
    ensures Remembered(MergeMem(AppendMem(mem, cs[|cs| - 1].at, end, bytes), cs[|cs| - 1].at), WithRegion(cs, end, bytes))
  {
    hide Tiles, Forward, Remembered, MergeMem, AppendMem, MergeRight, IndexOf, WithRegion;
    var last, longer := cs[|cs| - 1].at, cs + [Chunk(end, bytes, false)];
    assert longer[|cs| - 1].at == last;
    RememberedAppend(mem, cs, start, end, bytes);
    MergedListed(AppendMem(mem, last, end, bytes), head, longer, start, end + bytes, last);
    IndexIs(longer, start, end + bytes, |cs| - 1);
    RegionMerged(cs, end, bytes);
  }

  lemma PagesRounded(size: nat)
    requires size < TWO_64 && AlignUp(size, PAGE) / PAGE > 0
    ensures size <= AlignUp(size, PAGE) && Aligned(AlignUp(size, PAGE))
    ensures AlignUp(size, PAGE) / PAGE * PAGE == AlignUp(size, PAGE)
  {
  }

  lemma MorePages(leaves: map<nat, nat>, leaves': map<nat, nat>, lo: nat, count: nat)
    requires PagesAdded(leaves, leaves', lo, lo + count)
    requires forall p: nat :: HEAP_PAGE <= p < lo ==> p in leaves
    ensures forall p: nat :: HEAP_PAGE <= p < lo + count ==> p in leaves'
  {
    OldPagesStay(leaves, leaves', lo, lo + count);
  }

  lemma FirstRegion(mem: HeapChunks.Memory, address: nat, bytes: nat)
    requires address == KHEAP_BASE && bytes >= MIN_CHUNK && Aligned(bytes) && Remembered(mem, [])
    ensures var cs := [Chunk(address, bytes, false)];
            && Remembered(mem[address := Header(STATE_FREE, bytes, 0, 0)], cs)
            && Tiles(cs, address, address + bytes) && Coalesced(cs) && cs == WithRegion([], address, bytes)
            && Threaded(mem[address := Header(STATE_FREE, bytes, 0, 0)], address, cs)
            && Forward(mem[address := Header(STATE_FREE, bytes, 0, 0)], address, cs)
  {
  }

  lemma HeadIs(mem: HeapChunks.Memory, head: nat, cs: seq<Chunk>, start: nat, end: nat)
    requires Tiles(cs, start, end) && Forward(mem, head, cs)
    ensures head == AtOrNull(cs, 0) && (head == 0 <==> cs == [])
  {
  }

  lemma NextPositive(cs: seq<Chunk>, start: nat, end: nat, i: nat)
    requires Tiles(cs, start, end)
    ensures AtOrNull(cs, i) == 0 <==> i >= |cs|
  {
  }

  lemma FirstFitIs(cs: seq<Chunk>, required: nat, i: nat)
    requires i <= |cs| && forall j :: 0 <= j < i ==> !Fits(cs[j], required)
    requires i < |cs| ==> Fits(cs[i], required)
    ensures FirstFit(cs, required) == i
  {
    var k := FirstFit(cs, required);
  }

  // ---------------------------------------------------------------------
  // Runs
  // ---------------------------------------------------------------------

  datatype Call = KmallocCall(size: nat) | KfreeCall(ptr: nat)

  /** Call i of the first n is a kmalloc whose result none of the later ones frees. */
  predicate Live(calls: seq<Call>, results: seq<nat>, i: nat, n: nat)
    requires n <= |calls| && n <= |results|
  {
    && i < n && calls[i].KmallocCall? && results[i] != 0
    && forall j :: i < j < n ==> calls[j] != KfreeCall(results[i])
  }

  /** Every live result is the payload of its own chunk in use, and that chunk is
      long enough; the chunks in use before the run that were not freed still are. */
  ghost predicate Kept(calls: seq<Call>, results: seq<nat>, n: nat, before: seq<Chunk>, cs: seq<Chunk>)
    requires n <= |calls| && n <= |results|
  {
    && (forall i :: 0 <= i < n && Live(calls, results, i, n) ==>
          exists c :: c in InUse(cs) && Serves(c, results[i], calls[i].size))
    && (forall i, j :: 0 <= i < j < n && Live(calls, results, i, n) && Live(calls, results, j, n) ==>
          results[i] != results[j])
    && (forall c :: c in InUse(before) && Unfreed(calls, n, c) ==> c in InUse(cs))
  }

  predicate Unfreed(calls: seq<Call>, n: nat, c: Chunk)
    requires n <= |calls|
  {
    forall j :: 0 <= j < n ==> calls[j] != KfreeCall(c.Payload())
  }

  lemma KeptKmalloc(calls: seq<Call>, results: seq<nat>, n: nat, before: seq<Chunk>, cs: seq<Chunk>, ds: seq<Chunk>,
                    ptr: nat)
    requires n < |calls| && n == |results| && calls[n].KmallocCall? && Kept(calls, results, n, before, cs)
    requires if ptr == 0 then ds == cs else Gives(cs, ds, ptr, calls[n].size)
    ensures Kept(calls, results + [ptr], n + 1, before, ds)
  {
    hide InUse;
    var more := results + [ptr];
    forall i | 0 <= i < n + 1 && Live(calls, more, i, n + 1)
      ensures exists c :: c in InUse(ds) && Serves(c, more[i], calls[i].size)
      ensures i < n ==> ptr != more[i]
    {
      if i < n {
        assert Live(calls, results, i, n);
        var c :| c in InUse(cs) && Serves(c, results[i], calls[i].size);
        assert c in InUse(ds);
      } else {
        var c :| c in ds && Serves(c, ptr, calls[n].size) && InUse(ds) == InUse(cs) + {c};
        assert c in InUse(ds);
      }
    }
    forall i, j | 0 <= i < j < n + 1 && Live(calls, more, i, n + 1) && Live(calls, more, j, n + 1)
      ensures more[i] != more[j]
    {
      assert Live(calls, results, i, n);
      assert j < n ==> Live(calls, results, j, n);
    }
    forall c | c in InUse(before) && Unfreed(calls, n + 1, c)
      ensures c in InUse(ds)
    {
      assert Unfreed(calls, n, c);
    }
  }

  lemma KeptKfree(calls: seq<Call>, results: seq<nat>, n: nat, before: seq<Chunk>, cs: seq<Chunk>, ds: seq<Chunk>)
    requires n < |calls| && n == |results| && calls[n].KfreeCall? && Kept(calls, results, n, before, cs)
    requires forall c :: c in InUse(cs) && c.Payload() != calls[n].ptr ==> c in InUse(ds)
    ensures Kept(calls, results + [0], n + 1, before, ds)
  {
    hide InUse;
    var more := results + [0];
    forall i | 0 <= i < n + 1 && Live(calls, more, i, n + 1)
      ensures Live(calls, results, i, n) && exists c :: c in InUse(ds) && Serves(c, more[i], calls[i].size)
    {
      assert Live(calls, results, i, n);
      var c :| c in InUse(cs) && Serves(c, results[i], calls[i].size);
      assert calls[n] != KfreeCall(results[i]);
      assert c in InUse(ds);
    }
    forall c | c in InUse(before) && Unfreed(calls, n + 1, c)
      ensures c in InUse(ds)
    {
      assert Unfreed(calls, n, c) && calls[n] != KfreeCall(c.Payload());
    }
  }

  /** Calls of kmalloc and kfree one after the other, until one halts the machine or a kfree
      would look at a header that is not there. */
  method Run(heap: Heap, calls: seq<Call>) returns (halted: bool, results: seq<nat>)
    requires heap.Walkable()
    requires forall i :: 0 <= i < |calls| && calls[i].KmallocCall? ==> calls[i].size <= TWO_64 - MIN_CHUNK
    modifies heap, heap.vmm, heap.vmm.pmm`free, heap.vmm.pmm`freePages, heap.vmm.pmm.bitmap
    ensures |results| <= |calls|
    ensures halted ==> heap.vmm.pmm.free == {}
    ensures !halted ==> heap.Walkable() && Kept(calls, results, |results|, old(heap.chunks), heap.chunks)
    ensures !halted ==> LiveApart(calls, results, |results|)
    ensures !halted && |results| < |calls| ==> calls[|results|].KfreeCall? && !Safe(heap.mem, calls[|results|].ptr)
  {
    hide Tiles, LiveApart;
    hide Heap.Walkable, Heap.Intact, Kept, Safe, Served, InUse, Gives, Frees, FreesChunk, MergedBack, HeapOk, Follows,
         BetweenFree, FirstFit;
    results := [];
    KeptNothing(calls, heap.chunks);
    while |results| < |calls|
      invariant |results| <= |calls| && heap.Walkable()
      invariant Kept(calls, results, |results|, old(heap.chunks), heap.chunks)
      decreases |calls| - |results|
    {
      ghost var cs, mem, n := heap.chunks, heap.mem, |results|;
      match calls[|results|]
      case KmallocCall(size) =>
        var ptr;
        halted, ptr := heap.Kmalloc(size);
        if halted {
          return;
        }
        KeptKmalloc(calls, results, n, old(heap.chunks), cs, heap.chunks, ptr);
        results := results + [ptr];
      case KfreeCall(ptr) =>
        if !Safe(heap.mem, ptr) {
          KeptApart(heap, calls, results, old(heap.chunks));
          return false, results;
        }
        heap.Kfree(ptr);
        KfreeLeaves(mem, heap.mem, cs, heap.chunks, ptr);
        KeptKfree(calls, results, n, old(heap.chunks), cs, heap.chunks);
        results := results + [0];
    }
    halted := false;
    KeptApart(heap, calls, results, old(heap.chunks));
  }

  /** No two live results share a byte of what was asked for. */
  predicate LiveApart(calls: seq<Call>, results: seq<nat>, n: nat)
    requires n <= |calls| && n <= |results|
  {
    forall i, j :: 0 <= i < n && 0 <= j < n && i != j && Live(calls, results, i, n) && Live(calls, results, j, n) ==>
      results[i] + calls[i].size <= results[j] || results[j] + calls[j].size <= results[i]
  }

  lemma KeptApart(heap: Heap, calls: seq<Call>, results: seq<nat>, before: seq<Chunk>)
    requires heap.Walkable() && |results| <= |calls| && Kept(calls, results, |results|, before, heap.chunks)
    ensures LiveApart(calls, results, |results|)
  {
    hide Vmm.Valid, Tiles, Forward, Remembered, InUse, Serves;
    var n := |results|;
    forall i, j | 0 <= i < n && 0 <= j < n && i != j && Live(calls, results, i, n) && Live(calls, results, j, n)
      ensures results[i] + calls[i].size <= results[j] || results[j] + calls[j].size <= results[i]
    {
      var c :| c in InUse(heap.chunks) && Serves(c, results[i], calls[i].size);
      var d :| d in InUse(heap.chunks) && Serves(d, results[j], calls[j].size);
      assert results[i] != results[j];
      ServedApart(heap.chunks, heap.heapStart, heap.heapEnd, c, d, results[i], calls[i].size, results[j], calls[j].size);
    }
  }

  lemma ServedApart(cs: seq<Chunk>, start: nat, end: nat, c: Chunk, d: Chunk, p: nat, m: nat, q: nat, n: nat)
    requires Tiles(cs, start, end) && c in InUse(cs) && d in InUse(cs) && Serves(c, p, m) && Serves(d, q, n) && p != q
    ensures p + m <= q || q + n <= p
  {
    hide Tiles;
    var i :| 0 <= i < |cs| && cs[i] == c;
    var j :| 0 <= j < |cs| && cs[j] == d;
    if i < j {
      Ordered(cs, start, end, i, j);
    } else {
      Ordered(cs, start, end, j, i);
    }
  }

  /** From a valid heap the payloads of its chunks can be freed in any order, repeats and
      all, between free chunks or not: exactly those chunks are no longer in use. */
  method KfreeAll(heap: Heap, ptrs: seq<nat>)
    requires heap.Valid()
    requires forall i :: 0 <= i < |ptrs| ==>
               ptrs[i] == 0 || (ptrs[i] >= HEADER && ptrs[i] - HEADER in Heads(heap.chunks))
    modifies heap`mem, heap`chunks
    ensures heap.Walkable() && InUse(heap.chunks) == InUseBut(old(heap.chunks), ptrs)
  {
    hide Vmm.Valid, Heap.Intact, Tiles, Forward, Threaded, Coalesced, Remembered, InUse, FreesChunk, MergedBack,
         HeapOk, Follows;
    hide Heads, ClosedOn, BetweenFree, Safe, Frees, InUseBut;
    ghost var r := Heads(heap.chunks);
    ValidClosed(heap);
    InUseButNone(heap.chunks);
    for i := 0 to |ptrs|
      invariant heap.Walkable() && ClosedOn(heap.mem, r) && InUse(heap.chunks) == InUseBut(old(heap.chunks), ptrs[..i])
    {
      ghost var cs, mem := heap.chunks, heap.mem;
      ClosedSafe(mem, r, ptrs[i]);
      heap.Kfree(ptrs[i]);
      FreesStep(mem, heap.mem, heap.head, cs, heap.chunks, heap.heapStart, heap.heapEnd, ptrs[i], r);
      InUseButStep(old(heap.chunks), ptrs, i, InUse(cs), InUse(heap.chunks));
    }
    assert ptrs[..|ptrs|] == ptrs;
  }

  ghost function InUseBut(cs: seq<Chunk>, ptrs: seq<nat>): set<Chunk> {
    set c | c in InUse(cs) && c.Payload() !in ptrs
  }

  lemma ValidClosed(heap: Heap)
    requires heap.Valid()
    ensures ClosedOn(heap.mem, Heads(heap.chunks))
  {
    IntactClosed(heap.mem, heap.head, heap.chunks);
  }

  lemma InUseButNone(cs: seq<Chunk>)
    ensures InUseBut(cs, []) == InUse(cs)
  {
  }

  lemma ClosedSafe(mem: HeapChunks.Memory, r: set<nat>, ptr: nat)
    requires ClosedOn(mem, r) && (ptr == 0 || (ptr >= HEADER && ptr - HEADER in r))
    ensures Safe(mem, ptr)
  {
    if ptr != 0 {
      ClosedFollows(mem, r, ptr - HEADER);
    }
  }

  /** One kfree takes out exactly the chunks in use with that payload. */
  lemma FreesStep(mem: HeapChunks.Memory, mem': HeapChunks.Memory, head: nat, cs: seq<Chunk>, ds: seq<Chunk>,
                  start: nat, end: nat, ptr: nat, r: set<nat>)
    requires Tiles(cs, start, end) && Forward(mem, head, cs) && ClosedOn(mem, r)
    requires ptr == 0 || (ptr >= HEADER && ptr - HEADER in r)
    requires if Frees(mem, ptr) then FreesChunk(mem, mem', cs, ds, ptr) else mem' == mem && ds == cs
    ensures InUse(ds) == (set c | c in InUse(cs) && c.Payload() != ptr) && ClosedOn(mem', r)
  {
    hide Tiles, Forward, ClosedOn, KfreeMem, KfreeList;
    if Frees(mem, ptr) {
      ClosedKfree(mem, r, ptr - HEADER);
    }
    forall c | c in InUse(cs) && c.Payload() == ptr
      ensures Frees(mem, ptr) && c == cs[IndexOf(cs, ptr - HEADER)]
    {
      var i :| 0 <= i < |cs| && cs[i] == c;
      UsedFrees(mem, head, cs, start, end, i);
    }
  }

  lemma InUseButStep(cs: seq<Chunk>, ptrs: seq<nat>, i: nat, used: set<Chunk>, used': set<Chunk>)
    requires i < |ptrs| && used == InUseBut(cs, ptrs[..i]) && used' == set c | c in used && c.Payload() != ptrs[i]
    ensures used' == InUseBut(cs, ptrs[..i + 1])
  {
    hide InUse;
    assert ptrs[..i + 1] == ptrs[..i] + [ptrs[i]];
  }

  lemma KeptNothing(calls: seq<Call>, cs: seq<Chunk>)
    ensures Kept(calls, [], 0, cs, cs)
  {
  }

  lemma KfreeLeaves(mem: HeapChunks.Memory, mem': HeapChunks.Memory, cs: seq<Chunk>, ds: seq<Chunk>, ptr: nat)
    requires if Frees(mem, ptr) then FreesChunk(mem, mem', cs, ds, ptr) else ds == cs
    ensures forall c :: c in InUse(cs) && c.Payload() != ptr ==> c in InUse(ds)
  {
  }
}
