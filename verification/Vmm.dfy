/** The kernel's virtual memory: mapping and unmapping pages, and the bump
    allocator of virtual ranges on top (kernel/arch/x86_64/mm/vmm.c). */
module VirtualMemory {
  import opened Common
  import opened Paging
  import opened AddressSpace
  import PM = PhysicalMemory
  import Handoff

  class Vmm {
    const pmm: PM.Pmm
    /** The tables the bootloader has handed over. */
    const bootMem: Memory
    const bootRoot: nat
    var mem: Memory
    var root: nat
    var nextVirt: nat
    var virtualMemInitialized: bool

    /** Where each page table sits in the tree. */
    ghost var tab: Tables
    /** The frame behind each heap page in use, by page number. */
    ghost var leaves: map<nat, nat>
    /** Translations the TLB holds, by page number. */
    ghost var tlb: map<nat, nat>

    /** The globals before init_vmm, over whatever RAM holds. */
    constructor (pmm: PM.Pmm, ram: Memory, bootMem: Memory, bootRoot: nat)
      ensures this.pmm == pmm && mem == ram && nextVirt == KHEAP_BASE
      ensures this.bootMem == bootMem && this.bootRoot == bootRoot
      ensures !virtualMemInitialized && tab == map[] && tlb == map[] && leaves == map[]
    {
      this.pmm, this.bootMem, this.bootRoot := pmm, bootMem, bootRoot;
      mem, root, nextVirt, virtualMemInitialized := ram, 0, KHEAP_BASE, false;
      tab, tlb, leaves := map[], map[], map[];
    }

    /** The active address space: the bootloader's tables until the kernel's own are loaded. */
    function Resolve(v: nat): Option<nat>
      reads this
    {
      if virtualMemInitialized then Walk(mem, root, v) else Walk(bootMem, bootRoot, v)
    }

    function PageTablePtr(phys: nat): nat
      reads this
    {
      if !virtualMemInitialized then phys else GetVirtAddr(phys)
    }

    /** The bootloader's tables, under which all memory and the bitmap are within the first 512 GiB. */
    ghost predicate BootMapped()
      reads pmm`maxPages, pmm`bitmapAddr, pmm`sizeofBitmap
    {
      && Handoff.Covers(bootMem, bootRoot) && Handoff.Identity(bootMem, bootRoot)
      && pmm.maxPages <= Handoff.IDENTITY_PAGES && pmm.bitmapAddr + pmm.sizeofBitmap <= Handoff.IDENTITY_SIZE
    }

    ghost predicate Core()
      reads `mem, `root, `tab, `tlb, `virtualMemInitialized, pmm, pmm.bitmap
    {
      && pmm.Valid() && pmm.bitmapInit
      && Sound(mem, root, tab, pmm.free, pmm.maxPages, virtualMemInitialized)
      && TlbAgrees(tlb, mem, root, virtualMemInitialized)
      && (if virtualMemInitialized then BitmapMapped(mem, root, pmm.bitmapAddr, pmm.sizeofBitmap) else BootMapped())
    }

    /** palloc and pfree find their bitmap at its physical address. */
    ghost predicate BitmapReachable()
      reads this, pmm`bitmapAddr, pmm`sizeofBitmap
    {
      forall a: nat :: pmm.bitmapAddr <= a < pmm.bitmapAddr + pmm.sizeofBitmap ==> Resolve(a) == Some(a / PAGE)
    }

    lemma BitmapInReach()
      requires if virtualMemInitialized then BitmapMapped(mem, root, pmm.bitmapAddr, pmm.sizeofBitmap) else BootMapped()
      ensures BitmapReachable()
    {
      hide Walk;
    }

    /** palloc, in the address space that is active now. */
    method Palloc() returns (address: nat)
      requires pmm.Valid() && BitmapReachable()
      modifies pmm.bitmap, pmm`freePages, pmm`free
      ensures pmm.Valid()
      ensures !pmm.bitmapInit || old(pmm.free) == {} ==> address == 0 && pmm.free == old(pmm.free)
      ensures pmm.bitmapInit && old(pmm.free) != {} ==>
                && address % PAGE == 0
                && PM.Lowest(address / PAGE, old(pmm.free))
                && pmm.free == old(pmm.free) - {address / PAGE}
      ensures address == 0 <==> !pmm.bitmapInit || old(pmm.free) == {} || 0 in old(pmm.free)
    {
      hide PM.Pmm.Valid;
      address := pmm.Palloc();
    }

    method Pfree(address: nat)
      requires pmm.Valid() && BitmapReachable()
      modifies pmm.bitmap, pmm`freePages, pmm`free
      ensures pmm.Valid()
      ensures pmm.free == if address / PAGE < pmm.maxPages then old(pmm.free) + {address / PAGE} else old(pmm.free)
    {
      hide PM.Pmm.Valid;
      pmm.Pfree(address);
    }

    /** After the switch, with every heap page in use below nextPage. */
    ghost predicate Live(nextPage: nat)
      reads `mem, `root, `tab, `tlb, `leaves, `virtualMemInitialized, pmm, pmm.bitmap
    {
      && Core() && virtualMemInitialized
      && Owned(mem, root, tab, pmm.free, leaves, nextPage, pmm.maxPages)
    }

    ghost predicate Valid()
      reads this, pmm, pmm.bitmap
    {
      Live(nextVirt / PAGE) && nextVirt % PAGE == 0 && KHEAP_BASE <= nextVirt <= PASSTHRU_BASE
    }

    method Load(table: nat, i: nat) returns (w: nat)
      requires Resolve(table).Some?
      ensures w == Word(mem, Resolve(table).value, i)
    {
      w := Word(mem, Resolve(table).value, i);
    }

    method Store(table: nat, i: nat, w: nat)
      requires Resolve(table).Some? && Resolve(table).value in mem && i < |mem[Resolve(table).value]|
      modifies `mem
      ensures mem == old(SetWord(mem, Resolve(table).value, i, w))
    {
      mem := SetWord(mem, Resolve(table).value, i, w);
    }

    /** memset of one page through the address v. */
    method ZeroPage(v: nat)
      requires Resolve(v).Some?
      modifies `mem
      ensures mem == old(mem[Resolve(v).value := Zeros()])
    {
      mem := mem[Resolve(v).value := Zeros()];
    }

    /** Every frame is reachable for the kernel at page_table_ptr, before the
        switch and after it. */
    lemma FrameReachable(frame: nat, free: set<nat>)
      requires Sound(mem, root, tab, free, pmm.maxPages, virtualMemInitialized) && frame < pmm.maxPages
      requires !virtualMemInitialized ==> BootMapped()
      ensures Resolve(PageTablePtr(frame * PAGE)) == Some(frame)
      ensures frame in mem && |mem[frame]| == ENTRIES
    {
      hide Walk, Tree;
    }

    lemma TableReachable(n: Node, free: set<nat>)
      requires Sound(mem, root, tab, free, pmm.maxPages, virtualMemInitialized) && n in tab
      requires !virtualMemInitialized ==> BootMapped()
      ensures Resolve(PageTablePtr(tab[n] * PAGE)) == Some(tab[n])
      ensures tab[n] in mem && |mem[tab[n]]| == ENTRIES
    {
      FrameReachable(tab[n], free);
    }

    /** New tables change no translation, of the bitmap neither. */
    lemma KeepsBitmap(before: Memory)
      requires virtualMemInitialized ==> BitmapMapped(before, root, pmm.bitmapAddr, pmm.sizeofBitmap)
      requires SameWalks(before, mem, root)
      ensures virtualMemInitialized ==> BitmapMapped(mem, root, pmm.bitmapAddr, pmm.sizeofBitmap)
    {
      hide BitmapMapped, SameWalks;
      if virtualMemInitialized {
        BitmapSame(before, mem, root, pmm.bitmapAddr, pmm.sizeofBitmap);
      }
    }

    lemma KeepsBitmapRemapped(before: Memory, v: nat, target: Option<nat>)
      requires virtualMemInitialized ==> BitmapMapped(before, root, pmm.bitmapAddr, pmm.sizeofBitmap)
      requires Remapped(before, mem, root, v, target)
      requires virtualMemInitialized && OnBitmap(v / PAGE, pmm.bitmapAddr, pmm.sizeofBitmap) ==> target == Some(v / PAGE)
      ensures virtualMemInitialized ==> BitmapMapped(mem, root, pmm.bitmapAddr, pmm.sizeofBitmap)
    {
      hide BitmapMapped, Remapped, OnBitmap;
      if virtualMemInitialized {
        BitmapRemapped(before, mem, root, v, target, pmm.bitmapAddr, pmm.sizeofBitmap);
      }
    }

    /** An absent table: a frame from the physical allocator, zeroed, then linked. */
    method CreateTable(tablePhys: nat, i: nat, ghost n: Node) returns (halted: bool)
      requires Core()
      requires n in tab && tablePhys == tab[n] * PAGE && Depth(n) < 3 && i < ENTRIES
      requires !Present(Word(mem, tab[n], i))
      modifies `mem, `tab, pmm`free, pmm`freePages, pmm.bitmap
      ensures Core() && Extended(old(mem), old(tab), old(pmm.free), mem, tab, pmm.free, root)
      ensures halted ==> pmm.free == {} == old(pmm.free) && Sub(n, i) !in old(tab)
      ensures !halted ==> Sub(n, i) in tab && Spent(old(tab), old(pmm.free), tab, pmm.free, {Sub(n, i)}, 0)
    {
      hide PM.Pmm.Valid, BitmapMapped, BootMapped, Sound, SameWalks, Grown, DataKept, TlbAgrees, Walk, Depth, Present,
           GetVirtAddr, Pte, Word, Zeros;
      hide Spent;
      EntryBelow(mem, root, tab, pmm.free, pmm.maxPages, virtualMemInitialized, n, i);
      NothingChanged(mem, root, tab, pmm.free);
      FreeInRange(mem, root, tab, pmm.free, pmm.maxPages, virtualMemInitialized);
      BitmapInReach();
      var childPhys := Palloc();
      if childPhys == 0 {
        return true;
      }
      ghost var free, child := old(pmm.free), childPhys / PAGE;
      FreshTable(mem, root, tab, free, pmm.maxPages, virtualMemInitialized, n, i, child);
      ZeroedFrame(mem, root, tab, free, pmm.maxPages, virtualMemInitialized, child);
      FrameReachable(child, free);
      ZeroPage(PageTablePtr(childPhys));
      TableReachable(n, free);
      Store(PageTablePtr(tablePhys), i, Pte(childPhys));
      assert mem == AddTable(old(mem), tab, n, i, child);
      SpentOnTable(tab, free, Sub(n, i), child);
      tab := tab[Sub(n, i) := child];
      TlbSame(tlb, old(mem), mem, root, virtualMemInitialized);
      KeepsBitmap(old(mem));
      return false;
    }

    /** One level of map_page: the table below entry i, created when absent. */
    method EnsureTable(tablePhys: nat, i: nat, ghost n: Node) returns (halted: bool, childPhys: nat)
      requires Core()
      requires n in tab && tablePhys == tab[n] * PAGE && Depth(n) < 3 && i < ENTRIES
      modifies `mem, `tab, pmm`free, pmm`freePages, pmm.bitmap
      ensures Core() && Extended(old(mem), old(tab), old(pmm.free), mem, tab, pmm.free, root)
      ensures halted ==> pmm.free == {} && |old(pmm.free)| < Needed(old(tab), {Sub(n, i)}, 0)
      ensures !halted ==> Sub(n, i) in tab && childPhys == tab[Sub(n, i)] * PAGE
      ensures !halted ==> Spent(old(tab), old(pmm.free), tab, pmm.free, {Sub(n, i)}, 0)
    {
      hide Spent, Needed;
      hide PM.Pmm.Valid, BitmapMapped, BootMapped, Sound, SameWalks, DataKept, TlbAgrees, Walk, Depth, GetVirtAddr,
           FrameOf, Word;
      NothingChanged(mem, root, tab, pmm.free);
      NeededOne(tab, pmm.free, Sub(n, i));
      TableReachable(n, pmm.free);
      var e := Load(PageTablePtr(tablePhys), i);
      EntryBelow(mem, root, tab, pmm.free, pmm.maxPages, virtualMemInitialized, n, i);
      if !Present(e) {
        halted := CreateTable(tablePhys, i, n);
        if halted {
          return true, 0;
        }
        EntryBelow(mem, root, tab, pmm.free, pmm.maxPages, virtualMemInitialized, n, i);
      }
      TableReachable(n, pmm.free);
      e := Load(PageTablePtr(tablePhys), i);
      return false, FrameOf(e) * PAGE;
    }

    /** The three levels of map_page above the leaf. */
    method EnsureTables(virt: nat, pml4Phys: nat) returns (halted: bool, ptPhys: nat)
      requires Core() && pml4Phys == root * PAGE
      modifies `mem, `tab, pmm`free, pmm`freePages, pmm.bitmap
      ensures Core() && Extended(old(mem), old(tab), old(pmm.free), mem, tab, pmm.free, root)
      ensures halted ==> pmm.free == {} && |old(pmm.free)| < Needed(old(tab), Path(virt), 0)
      ensures !halted ==> PtNode(virt) in tab && ptPhys == tab[PtNode(virt)] * PAGE
      ensures !halted ==> Spent(old(tab), old(pmm.free), tab, pmm.free, Path(virt), 0)
    {
      hide Spent, Needed, Path, UpperPath;
      hide PM.Pmm.Valid, Extended, TlbAgrees, Walk, GetVirtAddr, FrameOf, Word, Pml4Index, PdptIndex, PdIndex;
      IndexRange(virt);
      ghost var node := Top;
      var pdptPhys: nat, pdPhys: nat;
      ghost var n1 := Sub(node, Pml4Index(virt));
      ghost var n2 := Sub(n1, PdptIndex(virt));
      NeededUpper(tab, virt);
      halted, pdptPhys := EnsureTable(pml4Phys, Pml4Index(virt), node);
      if halted {
        return true, 0;
      }
      ghost var mem1, tab1, free1 := mem, tab, pmm.free;
      halted, pdPhys := EnsureTable(pdptPhys, PdptIndex(virt), n1);
      ExtendedTrans(old(mem), old(tab), old(pmm.free), mem1, tab1, free1, mem, tab, pmm.free, root);
      SpentUpper(old(tab), old(pmm.free), tab1, free1, tab, pmm.free, virt);
      if halted {
        return true, 0;
      }
      ghost var mem2, tab2, free2 := mem, tab, pmm.free;
      halted, ptPhys := EnsureTable(pdPhys, PdIndex(virt), n2);
      ExtendedTrans(old(mem), old(tab), old(pmm.free), mem2, tab2, free2, mem, tab, pmm.free, root);
      SpentPath(old(tab), old(pmm.free), tab2, free2, tab, pmm.free, virt);
    }

    /** Maps one page, growing the tables on the way; out of memory halts. */
    method MapPage(phys: nat, virt: nat, pml4Phys: nat) returns (halted: bool)
      requires Core() && pml4Phys == root * PAGE && Canonical(virt)
      requires virtualMemInitialized ==> !InWindow(virt, pmm.maxPages)
      requires virtualMemInitialized && OnBitmap(virt / PAGE, pmm.bitmapAddr, pmm.sizeofBitmap) ==> FrameOf(phys) == virt / PAGE
      modifies `mem, `tab, `tlb, pmm`free, pmm`freePages, pmm.bitmap
      ensures Core()
      ensures Grown(old(tab), old(pmm.free), tab, pmm.free)
      ensures DataKept(old(mem), mem, tab)
      ensures halted ==> pmm.free == {} && SameWalks(old(mem), mem, root)
      ensures !halted ==> Remapped(old(mem), mem, root, virt, Some(FrameOf(phys)))
      ensures if halted then |old(pmm.free)| < Needed(old(tab), Path(virt), 0)
              else Spent(old(tab), old(pmm.free), tab, pmm.free, Path(virt), 0)
    {
      hide Spent, Needed, Path;
      hide PM.Pmm.Valid, BitmapMapped, BootMapped, Sound, SameWalks, Grown, DataKept, Remapped, TlbAgrees, Walk,
           Canonical, InWindow, GetVirtAddr;
      hide Present, FrameOf, Pte, Pml4Index, PdptIndex, PdIndex, PtIndex;
      var ptPhys: nat;
      halted, ptPhys := EnsureTables(virt, pml4Phys);
      if halted {
        return;
      }
      PteFields(phys);
      IndexRange(virt);
      TableReachable(PtNode(virt), pmm.free);
      ghost var mem1, tab1 := mem, tab;
      LeafStored(mem, root, tab, pmm.free, pmm.maxPages, virtualMemInitialized, virt, Pte(phys));
      Store(PageTablePtr(ptPhys), PtIndex(virt), Pte(phys));
      assert mem == SetLeaf(mem1, tab, virt, Pte(phys));
      FillTlb(mem1);
      AfterInvlpg(tlb, mem1, mem, root, virtualMemInitialized, virt, Some(FrameOf(phys)));
      Invlpg(virt);
      KeepsBitmapRemapped(mem1, virt, Some(FrameOf(phys)));
      RemappedAfter(old(mem), mem1, mem, root, virt, Some(FrameOf(phys)));
      DataKeptTrans(old(mem), mem1, mem, tab);
    }

    /** The TLB forgets the page of v. */
    method Invlpg(v: nat)
      modifies `tlb
      ensures tlb == old(tlb) - {v / PAGE}
    {
      tlb := tlb - {v / PAGE};
    }

    /** Between the store to the tables and the invlpg the MMU may cache anything it
        can walk before or after the store. */
    ghost method FillTlb(before: Memory)
      requires TlbAgrees(tlb, before, root, virtualMemInitialized)
      modifies `tlb
      ensures TlbBetween(tlb, before, mem, root, virtualMemInitialized)
    {
      hide Walk, Canonical;
      var nothing: map<nat, nat> := map[];
      assert TlbBetween(nothing, before, mem, root, virtualMemInitialized);
      var cached: map<nat, nat> :| TlbBetween(cached, before, mem, root, virtualMemInitialized);
      tlb := cached;
    }

    /** At any moment the MMU may cache a translation it can walk. */
    ghost method CacheTranslation(v: nat)
      requires Core() && Canonical(v) && Resolve(v).Some? && v % PAGE == 0
      modifies `tlb
      ensures Core()
    {
      hide PM.Pmm.Valid, BitmapMapped, Handoff.Covers, Sound, Walk, Canonical;
      assert v / PAGE * PAGE == v;
      tlb := tlb[v / PAGE := Resolve(v).value];
    }

    /** Unmaps one page and answers the address of the frame it had, 0 for none. */
    method UnmapPage(virt: nat, pml4Phys: nat) returns (phys: nat)
      requires Core() && pml4Phys == root * PAGE && Canonical(virt)
      requires virtualMemInitialized ==> !InWindow(virt, pmm.maxPages)
      requires virtualMemInitialized ==> !OnBitmap(virt / PAGE, pmm.bitmapAddr, pmm.sizeofBitmap)
      modifies `mem, `tlb
      ensures Core()
      ensures phys == match old(Walk(mem, root, virt)) case Some(f) => f * PAGE case None => 0
      ensures Remapped(old(mem), mem, root, virt, None)
      ensures DataKept(old(mem), mem, tab)
    {
      hide PM.Pmm.Valid, BitmapMapped, BootMapped, Sound, SameWalks, DataKept, Remapped, TlbAgrees, Canonical,
           InWindow, GetVirtAddr, Depth;
      hide Present, FrameOf, Word, Walk, Pml4Index, PdptIndex, PdIndex, PtIndex;
      ghost var free, maxPages, switched := pmm.free, pmm.maxPages, virtualMemInitialized;
      IndexRange(virt);
      NothingUnmapped(mem, root, tab, free, maxPages, switched, virt);
      var n1 := Sub(Top, Pml4Index(virt));
      var n2 := Sub(n1, PdptIndex(virt));
      TableReachable(Top, free);
      EntryBelow(mem, root, tab, free, maxPages, switched, Top, Pml4Index(virt));
      var e := Load(PageTablePtr(pml4Phys), Pml4Index(virt));
      if !Present(e) {
        return 0;
      }
      TableReachable(n1, free);
      EntryBelow(mem, root, tab, free, maxPages, switched, n1, PdptIndex(virt));
      e := Load(PageTablePtr(FrameOf(e) * PAGE), PdptIndex(virt));
      if !Present(e) {
        return 0;
      }
      TableReachable(n2, free);
      EntryBelow(mem, root, tab, free, maxPages, switched, n2, PdIndex(virt));
      e := Load(PageTablePtr(FrameOf(e) * PAGE), PdIndex(virt));
      if !Present(e) {
        return 0;
      }
      TableReachable(PtNode(virt), free);
      var pt := PageTablePtr(FrameOf(e) * PAGE);
      e := Load(pt, PtIndex(virt));
      phys := FrameOf(e) * PAGE;
      ZeroWord();
      LeafStored(mem, root, tab, free, maxPages, switched, virt, 0);
      Store(pt, PtIndex(virt), 0);
      FillTlb(old(mem));
      AfterInvlpg(tlb, old(mem), mem, root, switched, virt, None);
      Invlpg(virt);
      KeepsBitmapRemapped(old(mem), virt, None);
    }

    /** One turn of the vfrees loop. */
    method FreeOne(virt: nat, ghost nextPage: nat)
      requires Live(nextPage) && HEAP_PAGE <= virt / PAGE < HEAP_LIMIT
      modifies `mem, `tlb, `leaves, pmm`free, pmm`freePages, pmm.bitmap
      ensures Live(nextPage)
      ensures leaves == old(leaves) - {virt / PAGE}
      ensures pmm.free == old(pmm.free) + FramesIn(old(leaves), virt / PAGE, virt / PAGE + 1)
      ensures Pool(tab, pmm.free, leaves) == old(Pool(tab, pmm.free, leaves))
      ensures Remapped(old(mem), mem, root, virt, None)
      ensures DataKept(old(mem), mem, tab)
    {
      hide PM.Pmm.Valid, BitmapMapped, BootMapped, Sound, Owned, Pool, TlbAgrees, DataKept, Remapped, Walk, Canonical,
           InWindow, PageAddr;
      ghost var p := virt / PAGE;
      HeapLeaf(mem, root, tab, pmm.free, leaves, nextPage, pmm.maxPages, virtualMemInitialized, virt);
      HeapOffBitmap(mem, root, p, pmm.bitmapAddr, pmm.sizeofBitmap);
      var phys := UnmapPage(virt, root * PAGE);
      HeapAddress(p, pmm.maxPages);
      RemappedSame(old(mem), mem, root, virt, PageAddr(p), None);
      PageRemoved(old(mem), mem, root, tab, pmm.free, leaves, nextPage, p, pmm.maxPages);
      if phys != 0 {
        FreeMore(mem, root, tab, pmm.free, pmm.maxPages, virtualMemInitialized, phys / PAGE);
        BitmapInReach();
        Pfree(phys);
      }
      leaves := leaves - {p};
    }

    /** Unmaps count pages from virt on and frees the frames behind those that
        were mapped; pages already unmapped change nothing. */
    method Vfrees(virt: nat, count: nat, ghost nextPage: nat)
      requires Live(nextPage)
      requires HEAP_PAGE <= virt / PAGE && virt / PAGE + count <= HEAP_LIMIT
      modifies `mem, `tlb, `leaves, pmm`free, pmm`freePages, pmm.bitmap
      ensures Live(nextPage)
      ensures leaves == old(leaves) - Range(virt / PAGE, virt / PAGE + count)
      ensures pmm.free == old(pmm.free) + FramesIn(old(leaves), virt / PAGE, virt / PAGE + count)
      ensures Pool(tab, pmm.free, leaves) == old(Pool(tab, pmm.free, leaves))
      ensures OutsideKept(old(mem), mem, root, virt / PAGE, virt / PAGE + count)
      ensures DataKept(old(mem), mem, tab)
    {
      hide PM.Pmm.Valid, Core, Owned, Pool, OutsideKept, DataKept, Remapped, Walk, Canonical, InWindow, PageAddr;
      ghost var lo := virt / PAGE;
      NothingMoved(mem, root, tab, lo);
      for i := 0 to count
        invariant Live(nextPage)
        invariant leaves == old(leaves) - Range(lo, lo + i)
        invariant pmm.free == old(pmm.free) + FramesIn(old(leaves), lo, lo + i)
        invariant Pool(tab, pmm.free, leaves) == old(Pool(tab, pmm.free, leaves))
        invariant OutsideKept(old(mem), mem, root, lo, lo + i)
        invariant DataKept(old(mem), mem, tab)
      {
        ghost var before := mem;
        FramesSplit(old(leaves), lo, lo + i);
        FreeOne(virt + i * PAGE, nextPage);
        RangeGrows(old(mem), before, mem, root, lo, lo + i, virt + i * PAGE, None);
        DataKeptTrans(old(mem), before, mem, tab);
      }
    }

    /** One turn of the vallocs loop: a frame, its mapping at the next heap page,
        and the optional memset through the new address. No frame answers 0. */
    method AllocOne(zero: bool, virt: nat, ghost page: nat) returns (halted: bool, phys: nat)
      requires Live(page) && virt == PageAddr(page) && HEAP_PAGE <= page
      requires pmm.free != {} ==> page < HEAP_LIMIT
      modifies `mem, `tab, `tlb, `leaves, pmm`free, pmm`freePages, pmm.bitmap
      ensures halted ==> pmm.free == {}
      ensures halted || phys == 0 ==> |old(pmm.free)| < Needed(old(tab), Path(virt), 1)
      ensures !halted && phys == 0 ==> Live(page) && unchanged(this) && pmm.free == {} == old(pmm.free)
      ensures !halted && phys != 0 ==>
                && Live(page + 1) && phys / PAGE in old(pmm.free)
                && leaves == old(leaves)[page := phys / PAGE] && page !in old(leaves)
                && Pool(tab, pmm.free, leaves) == old(Pool(tab, pmm.free, leaves))
                && Remapped(old(mem), mem, root, virt, Some(phys / PAGE))
                && ContentsKept(old(mem), mem, old(leaves))
                && phys / PAGE in mem && (zero ==> mem[phys / PAGE] == Zeros())
                && pmm.free <= old(pmm.free) - {phys / PAGE}
                && Spent(old(tab), old(pmm.free), tab, pmm.free, Path(virt), 1)
    {
      hide Spent, Needed, Path;
      hide PM.Pmm.Valid, BitmapMapped, BootMapped, Sound, Owned, Pool, Grown, SameWalks, DataKept, ContentsKept,
           Remapped, TlbAgrees;
      hide Walk, Canonical, InWindow, PageAddr, FrameOf, Zeros;
      ghost var free, before := pmm.free, leaves;
      FreeInRange(mem, root, tab, free, pmm.maxPages, virtualMemInitialized);
      BitmapInReach();
      phys := Palloc();
      NeededData(tab, Path(virt), 1);
      if phys == 0 {
        return false, 0;
      }
      ghost var f := phys / PAGE;
      FreeLess(mem, root, tab, free, pmm.maxPages, virtualMemInitialized, f);
      HeapAddress(page, pmm.maxPages);
      HeapOffBitmap(mem, root, page, pmm.bitmapAddr, pmm.sizeofBitmap);
      halted := MapPage(phys, virt, root * PAGE);
      SpentOnData(old(tab), free, f, tab, pmm.free, Path(virt));
      if halted {
        return;
      }
      PageAdded(old(mem), old(tab), free, mem, tab, pmm.free, root, leaves, page, f, pmm.maxPages);
      FewerFree(old(tab), free - {f}, tab, pmm.free);
      leaves := leaves[page := f];
      PageBacked(mem, root, tab, pmm.free, leaves, page, page + 1, pmm.maxPages, virtualMemInitialized);
      ContentsFromData(old(mem), mem, root, tab, pmm.free, before, leaves, page, f, page + 1, pmm.maxPages);
      if zero {
        ghost var mapped := mem;
        ZeroedFrame(mem, root, tab, pmm.free, pmm.maxPages, virtualMemInitialized, f);
        ZeroPage(virt);
        TlbSame(tlb, mapped, mem, root, virtualMemInitialized);
        KeepsBitmap(mapped);
        SameWalksOwned(mapped, mem, root, tab, pmm.free, leaves, page + 1, pmm.maxPages);
        RemappedThenSame(old(mem), mapped, mem, root, virt, Some(f));
      }
    }

    /** The loop of vallocs; without enough frames the pages mapped so far are unmapped again. */
    method AllocRange(zero: bool, start: nat, count: nat, ghost lo: nat) returns (halted: bool, ok: bool)
      requires Live(lo) && start == PageAddr(lo) && HEAP_PAGE <= lo
      requires lo + (if count < |pmm.free| then count else |pmm.free|) <= HEAP_LIMIT
      modifies `mem, `tab, `tlb, `leaves, pmm`free, pmm`freePages, pmm.bitmap
      ensures halted ==> pmm.free == {}
      ensures !halted && ok <==> Needed(old(tab), Paths(lo, count), count) <= |old(pmm.free)|
      ensures !halted ==> Pool(tab, pmm.free, leaves) == old(Pool(tab, pmm.free, leaves))
      ensures !halted && ok ==>
                && Live(lo + count)
                && Allocating(old(mem), old(leaves), old(pmm.free), mem, root, leaves, pmm.free, lo, count, zero)
      ensures !halted && !ok ==>
                && Live(lo) && leaves == old(leaves) && |pmm.free| < count
                && ContentsKept(old(mem), mem, old(leaves)) && OutsideKept(old(mem), mem, root, lo, lo)
    {
      hide PM.Pmm.Valid, Sound, Owned, Pool, Remapped, OutsideKept, ContentsKept, DataKept, FreshPages, PagesAdded,
           TlbAgrees;
      hide BitmapMapped, BootMapped, Walk, Canonical, PageAddr, Zeros, FramesIn, Range, Resolve, PageTablePtr,
           Allocating;
      hide Spent, Needed, Path, Paths;
      NothingAdded(mem, root, tab, leaves, lo);
      AllocatingNone(mem, root, leaves, pmm.free, lo, zero);
      PathsNone(tab, pmm.free, lo);
      for i := 0 to count
        invariant Live(lo + i)
        invariant Pool(tab, pmm.free, leaves) == old(Pool(tab, pmm.free, leaves))
        invariant Allocating(old(mem), old(leaves), old(pmm.free), mem, root, leaves, pmm.free, lo, i, zero)
        invariant Spent(old(tab), old(pmm.free), tab, pmm.free, Paths(lo, i), i)
      {
        ghost var mem1, leaves1, free1, tab1 := mem, leaves, pmm.free, tab;
        AllocatingParts(old(mem), old(leaves), old(pmm.free), mem, root, leaves, pmm.free, lo, i, zero);
        PageAddrAt(start, lo, i);
        var phys: nat;
        halted, phys := AllocOne(zero, start + i * PAGE, lo + i);
        PathsMore(old(tab), old(pmm.free), tab1, free1, tab, pmm.free, lo, i, count);
        if halted {
          return true, false;
        }
        if phys == 0 {
          PageAddrAt(start, lo, 0);
          Vfrees(start, i, lo + i);
          RolledBack(old(mem), old(tab), old(pmm.free), old(leaves), mem1, leaves1, mem, root, tab, pmm.free, leaves,
                     lo, i, pmm.maxPages, old(virtualMemInitialized));
          return false, false;
        }
        AllocatingMore(old(mem), old(leaves), old(pmm.free), mem1, root, leaves1, free1, lo, i, zero,
                       mem, pmm.free, start + i * PAGE, phys / PAGE);
      }
      PathsEnough(old(tab), old(pmm.free), tab, pmm.free, Paths(lo, count), count);
      return false, true;
    }

    /** Maps count fresh pages at the next heap addresses. Answers their start,
        or 0 when count is 0 or the data frames run out; then the pages mapped so
        far are unmapped again and their frames returned. It succeeds exactly when there is
        a free frame for each page and for each table missing above them. */
    method Vallocs(zero: bool, count: nat) returns (halted: bool, start: nat)
      requires Valid()
      requires nextVirt / PAGE + (if count < |pmm.free| then count else |pmm.free|) <= HEAP_LIMIT
      modifies `mem, `tab, `tlb, `leaves, `nextVirt, pmm`free, pmm`freePages, pmm.bitmap
      ensures halted ==> pmm.free == {}
      ensures count > 0 ==>
                (!halted && start != 0 <==> Needed(old(tab), Paths(old(nextVirt) / PAGE, count), count) <= |old(pmm.free)|)
      ensures count == 0 ==> !halted && start == 0 && unchanged(this) && pmm.free == old(pmm.free) && Valid()
      ensures !halted ==> Valid() && Pool(tab, pmm.free, leaves) == old(Pool(tab, pmm.free, leaves))
      ensures !halted ==> ContentsKept(old(mem), mem, old(leaves))
      ensures !halted && start == 0 ==>
                && nextVirt == old(nextVirt) && leaves == old(leaves)
                && (count > 0 ==> |pmm.free| < count)
                && OutsideKept(old(mem), mem, root, nextVirt / PAGE, nextVirt / PAGE)
      ensures !halted && start != 0 ==>
                var lo := start / PAGE;
                && start == old(nextVirt) && nextVirt == start + count * PAGE
                && PagesAdded(old(leaves), leaves, lo, lo + count)
                && FreshPages(mem, leaves, lo, lo + count, old(pmm.free), zero)
                && OutsideKept(old(mem), mem, root, lo, lo + count)
    {
      hide Live, Pool, OutsideKept, ContentsKept, FreshPages, PagesAdded, Allocating, Needed, Paths;
      ghost var lo := nextVirt / PAGE;
      if count == 0 {
        NothingAdded(mem, root, tab, leaves, lo);
        return false, 0;
      }
      start := nextVirt;
      PageAddrAt(start, lo, count);
      var ok: bool;
      halted, ok := AllocRange(zero, start, count, lo);
      if halted {
        return;
      }
      if !ok {
        return false, 0;
      }
      AllocatingParts(old(mem), old(leaves), old(pmm.free), mem, root, leaves, pmm.free, lo, count, zero);
      nextVirt := nextVirt + count * PAGE;
      return false, start;
    }
  }

  // ---------------------------------------------------------------------
  // Whole runs
  // ---------------------------------------------------------------------

  datatype Call = VallocsCall(zero: bool, count: nat) | VfreesCall(virt: nat, count: nat)

  /** No call of the run reaches past the end of the heap range, when the heap is at page
      and the pool has that many frames: a vallocs of more than the pool must fail, and
      tries no more pages than the pool before it does. */
  ghost predicate RoomFor(calls: seq<Call>, page: nat, pool: nat) {
    calls == [] ||
    match calls[0]
    case VallocsCall(_, count) =>
      && page + (if count < pool then count else pool) <= HEAP_LIMIT
      && RoomFor(calls[1..], if count <= pool then page + count else page, pool)
    case VfreesCall(virt, count) =>
      HEAP_PAGE <= virt / PAGE && virt / PAGE + count <= HEAP_LIMIT && RoomFor(calls[1..], page, pool)
  }

  lemma {:induction false} RoomBelow(calls: seq<Call>, page: nat, page': nat, pool: nat)
    requires RoomFor(calls, page, pool) && page' <= page
    ensures RoomFor(calls, page', pool)
  {
    if calls != [] {
      match calls[0] {
        case VallocsCall(_, count) =>
          RoomBelow(calls[1..], if count <= pool then page + count else page,
                    if count <= pool then page' + count else page', pool);
        case VfreesCall(_, _) =>
          RoomBelow(calls[1..], page, page', pool);
      }
    }
  }

  lemma FreeInPool(tab: Tables, free: set<nat>, leaves: map<nat, nat>)
    ensures |free| <= |Pool(tab, free, leaves)|
  {
    SubsetSize(free, Pool(tab, free, leaves));
  }

  /** Any run of vallocs and vfrees on heap addresses, of any length: ownership
      holds at its end and not one frame of the pool has been lost or gained. */
  method Run(vmm: Vmm, calls: seq<Call>) returns (halted: bool)
    requires vmm.Valid()
    requires RoomFor(calls, vmm.nextVirt / PAGE, |Pool(vmm.tab, vmm.pmm.free, vmm.leaves)|)
    modifies vmm, vmm.pmm, vmm.pmm.bitmap
    ensures halted ==> vmm.pmm.free == {}
    ensures !halted ==> vmm.Valid()
    ensures !halted ==> Pool(vmm.tab, vmm.pmm.free, vmm.leaves) == old(Pool(vmm.tab, vmm.pmm.free, vmm.leaves))
  {
    hide Vmm.Core, Owned, Pool, OutsideKept, ContentsKept, FreshPages, PagesAdded, DataKept, Needed, Paths, FramesIn;
    ghost var bitmap, pool := vmm.pmm.bitmap, |Pool(vmm.tab, vmm.pmm.free, vmm.leaves)|;
    assert calls[0..] == calls;
    for i := 0 to |calls|
      invariant vmm.Valid() && vmm.pmm.bitmap == bitmap
      invariant Pool(vmm.tab, vmm.pmm.free, vmm.leaves) == old(Pool(vmm.tab, vmm.pmm.free, vmm.leaves))
      invariant RoomFor(calls[i..], vmm.nextVirt / PAGE, pool)
    {
      var c := calls[i];
      assert calls[i..][0] == c && calls[i..][1..] == calls[i + 1..];
      FreeInPool(vmm.tab, vmm.pmm.free, vmm.leaves);
      match c {
        case VallocsCall(zero, count) =>
          var start: nat;
          ghost var page := vmm.nextVirt / PAGE;
          NeededData(vmm.tab, Paths(page, count), count);
          halted, start := vmm.Vallocs(zero, count);
          if halted {
            return;
          }
          PageAddrAt(page * PAGE, page, count);
          RoomBelow(calls[i + 1..], if count <= pool then page + count else page, vmm.nextVirt / PAGE, pool);
        case VfreesCall(virt, count) =>
          vmm.Vfrees(virt, count, vmm.nextVirt / PAGE);
      }
    }
    return false;
  }
}
