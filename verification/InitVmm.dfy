/** Building the kernel's address space: map_range and the mapping sequence of
    init_vmm (kernel/arch/x86_64/mm/vmm.c). */
module AddressSpaceSetup {
  import opened Common
  import opened Paging
  import opened AddressSpace
  import opened VirtualMemory
  import PM = PhysicalMemory
  import Handoff

  const TWO_GIB: nat := 0x8000_0000
  const LOW_END: nat := 0x8000_0000_0000
  const PAGE_NUMBERS: nat := 0x10_0000_0000_0000

  /** One map_range call. */
  datatype Request = Request(phys: nat, virt: nat, size: nat) {
    /** The number of pages it maps: the size plus the offset into the first page, rounded up. */
    function Pages(): nat { (size + phys % PAGE + PAGE - 1) / PAGE }

    /** How far page p lies behind the first page; addresses wrap at 2^64. */
    function Offset(p: nat): nat { (p + PAGE_NUMBERS - virt / PAGE % PAGE_NUMBERS) % PAGE_NUMBERS }

    predicate Covers(p: nat) { Offset(p) < Pages() }

    /** The frame it gives page p. */
    function Target(p: nat): nat { (phys / PAGE + Offset(p)) % (TWO_52 / PAGE) }

    predicate Identity() { phys == virt && virt + size <= LOW_END }
  }

  /** What a page translates to after the first 2 MiB and then the requests
      have been mapped, a later request overriding an earlier one. */
  ghost function After(requests: seq<Request>, p: nat): Option<nat> {
    if requests == [] then (if p < ENTRIES then Some(p) else None)
    else
      var last := requests[|requests| - 1];
      if last.Covers(p) then Some(last.Target(p)) else After(requests[..|requests| - 1], p)
  }

  ghost predicate Maps(mem: Memory, root: nat, requests: seq<Request>) {
    forall u: nat :: Canonical(u) ==> Walk(mem, root, u) == After(requests, u / PAGE)
  }

  /** The first done pages of request r on top of the requests before it. */
  ghost predicate MapsPart(mem: Memory, root: nat, requests: seq<Request>, r: Request, done: nat) {
    forall u: nat :: Canonical(u) ==>
      Walk(mem, root, u) == if r.Offset(u / PAGE) < done then Some(r.Target(u / PAGE)) else After(requests, u / PAGE)
  }

  ghost predicate CanonicalRange(r: Request) {
    && r.virt < TWO_64 && r.phys + r.size + PAGE < TWO_64
    && forall k: nat :: k < r.Pages() ==> Canonical(VirtAt(r, k))
  }

  /** The address of the k-th page of a request. */
  function VirtAt(r: Request, k: nat): nat { (r.virt / PAGE + k) % PAGE_NUMBERS * PAGE }

  lemma WrapPages(n: nat)
    requires n < 2 * PAGE_NUMBERS
    ensures n % PAGE_NUMBERS == if n < PAGE_NUMBERS then n else n - PAGE_NUMBERS
  {
  }

  lemma VirtAtWraps(r: Request, k: nat)
    requires r.virt < TWO_64 && k < PAGE_NUMBERS
    ensures (r.virt / PAGE * PAGE + k * PAGE) % TWO_64 == VirtAt(r, k)
  {
    var n := r.virt / PAGE + k;
    WrapPages(n);
    assert r.virt / PAGE * PAGE + k * PAGE == n * PAGE;
    if n < PAGE_NUMBERS {
      assert n * PAGE < TWO_64;
    } else {
      assert n * PAGE == TWO_64 + (n - PAGE_NUMBERS) * PAGE;
    }
  }

  lemma VirtAtOffset(r: Request, k: nat, p: nat)
    requires r.virt < TWO_64 && k < PAGE_NUMBERS && p < PAGE_NUMBERS
    ensures VirtAt(r, k) / PAGE == p <==> r.Offset(p) == k
  {
    var v := r.virt / PAGE;
    WrapPages(v);
    WrapPages(v + k);
    WrapPages(p + PAGE_NUMBERS - v);
    assert VirtAt(r, k) / PAGE == (v + k) % PAGE_NUMBERS;
  }

  /** Mapping the k-th page of a request. */
  lemma OnePage(mem: Memory, mem': Memory, root: nat, requests: seq<Request>, r: Request, k: nat)
    requires MapsPart(mem, root, requests, r, k) && r.virt < TWO_64 && k < PAGE_NUMBERS
    requires Remapped(mem, mem', root, VirtAt(r, k), Some((r.phys / PAGE + k) % (TWO_52 / PAGE)))
    ensures MapsPart(mem', root, requests, r, k + 1)
  {
    hide Walk, After, VirtAt, Canonical;
    forall u: nat | Canonical(u)
      ensures Walk(mem', root, u) == if r.Offset(u / PAGE) < k + 1 then Some(r.Target(u / PAGE))
                                     else After(requests, u / PAGE)
    {
      CanonicalBound(u);
      VirtAtOffset(r, k, u / PAGE);
    }
  }

  lemma CanonicalBound(u: nat)
    requires Canonical(u)
    ensures u / PAGE < PAGE_NUMBERS
  {
  }

  lemma PartStart(mem: Memory, root: nat, requests: seq<Request>, r: Request)
    requires Maps(mem, root, requests)
    ensures MapsPart(mem, root, requests, r, 0)
  {
    hide Walk, After, Canonical;
  }

  lemma PartDone(mem: Memory, root: nat, requests: seq<Request>, r: Request)
    requires MapsPart(mem, root, requests, r, r.Pages())
    ensures Maps(mem, root, requests + [r])
  {
    hide Walk, Canonical;
    assert (requests + [r])[..|requests|] == requests;
  }

  /** map_range while the new tables are not active yet. */
  method MapRange(vmm: Vmm, phys: nat, virt: nat, size: nat, pml4Phys: nat, ghost requests: seq<Request>)
    returns (halted: bool)
    requires vmm.Core() && pml4Phys == vmm.root * PAGE && !vmm.virtualMemInitialized
    requires CanonicalRange(Request(phys, virt, size)) && Maps(vmm.mem, vmm.root, requests)
    modifies vmm`mem, vmm`tab, vmm`tlb, vmm.pmm`free, vmm.pmm`freePages, vmm.pmm.bitmap
    ensures halted ==> vmm.pmm.free == {}
    ensures !halted ==> vmm.Core() && Maps(vmm.mem, vmm.root, requests + [Request(phys, virt, size)])
    ensures !halted ==> Grown(old(vmm.tab), old(vmm.pmm.free), vmm.tab, vmm.pmm.free)
  {
    hide PM.Pmm.Valid, Sound, TlbAgrees, Grown, Remapped, DataKept, SameWalks, Maps, MapsPart, Canonical, VirtAt,
         FrameOf;
    hide Spent, Needed, Path;
    ghost var r := Request(phys, virt, size);
    var physPage := phys / PAGE * PAGE;
    var virtPage := virt / PAGE * PAGE;
    var offset := phys - physPage;
    var mappedSize := size + offset;
    PartStart(vmm.mem, vmm.root, requests, r);
    NothingGrown(vmm.tab, vmm.pmm.free);
    var off := 0;
    while off < mappedSize
      invariant off % PAGE == 0 && off / PAGE <= r.Pages() && (off < mappedSize <==> off / PAGE < r.Pages())
      invariant vmm.Core()
      invariant MapsPart(vmm.mem, vmm.root, requests, r, off / PAGE)
      invariant Grown(old(vmm.tab), old(vmm.pmm.free), vmm.tab, vmm.pmm.free)
      decreases mappedSize - off
    {
      ghost var k := off / PAGE;
      ghost var mem0, tab0, free0 := vmm.mem, vmm.tab, vmm.pmm.free;
      VirtAtWraps(r, k);
      FrameAt(phys, k);
      halted := vmm.MapPage(physPage + off, (virtPage + off) % TWO_64, pml4Phys);
      if halted {
        return;
      }
      OnePage(mem0, vmm.mem, vmm.root, requests, r, k);
      GrownTwice(old(vmm.tab), old(vmm.pmm.free), tab0, free0, vmm.tab, vmm.pmm.free);
      off := off + PAGE;
    }
    PartDone(vmm.mem, vmm.root, requests, r);
    return false;
  }

  lemma FrameAt(phys: nat, k: nat)
    ensures FrameOf(phys / PAGE * PAGE + k * PAGE) == (phys / PAGE + k) % (TWO_52 / PAGE)
  {
    assert phys / PAGE * PAGE + k * PAGE == (phys / PAGE + k) * PAGE;
  }

  lemma NothingGrown(tab: Tables, free: set<nat>)
    ensures Grown(tab, free, tab, free)
  {
  }

  lemma GrownTwice(tab0: Tables, free0: set<nat>, tab1: Tables, free1: set<nat>, tab2: Tables, free2: set<nat>)
    requires Grown(tab0, free0, tab1, free1) && Grown(tab1, free1, tab2, free2)
    ensures Grown(tab0, free0, tab2, free2)
  {
  }

  // ---------------------------------------------------------------------
  // The first four tables
  // ---------------------------------------------------------------------

  lemma BareRoot(mem: Memory, root: nat, free: set<nat>, maxPages: nat)
    requires root in mem && mem[root] == Zeros() && 0 < root < maxPages <= TWO_52 / PAGE && root !in free
    requires forall f: nat :: f < maxPages ==> f in mem && |mem[f]| == ENTRIES
    requires forall f :: f in free ==> 0 < f < maxPages
    ensures Sound(mem, root, map[Top := root], free, maxPages, false)
    ensures forall v :: Walk(mem, root, v) == None
  {
    var tab := map[Top := root];
    assert forall i: nat :: Word(mem, root, i) == 0;
    hide Word, Zeros;
    ZeroWord();
    hide FrameOf, Present;
    assert Tree(mem, root, tab, false) by {
      assert forall n, i: nat :: n in tab && Depth(n) < 3 && i < ENTRIES ==> Linked(mem, tab, n, i, false);
    }
    forall v
      ensures Walk(mem, root, v) == None
    {
      assert Word(mem, root, Pml4Index(v)) == 0;
    }
  }

  lemma ZeroedLink(mem: Memory, tab: Tables, n: Node, child: nat)
    requires n in tab && tab[n] in mem && |mem[tab[n]]| == ENTRIES && tab[n] != child
    requires child in mem && mem[child] == Zeros() && child < TWO_52 / PAGE
    ensures AddTable(mem, tab, n, 0, child) == SetWord(mem, tab[n], 0, child * PAGE + 3)
  {
    PteFields(child * PAGE);
    hide Zeros;
    assert mem[child := Zeros()] == mem;
  }

  /** Puts an already zeroed child into the first entry of a table. */
  method LinkFirst(vmm: Vmm, tablePhys: nat, childPhys: nat, ghost n: Node, ghost child: nat, ghost free: set<nat>)
    requires Sound(vmm.mem, vmm.root, vmm.tab, free, vmm.pmm.maxPages, false) && !vmm.virtualMemInitialized
    requires vmm.BootMapped()
    requires n in vmm.tab && tablePhys == vmm.tab[n] * PAGE && Depth(n) < 3 && Sub(n, 0) !in vmm.tab
    requires childPhys == child * PAGE && child in free && child in vmm.mem && vmm.mem[child] == Zeros()
    modifies vmm`mem, vmm`tab
    ensures vmm.tab == old(vmm.tab)[Sub(n, 0) := child]
    ensures Sound(vmm.mem, vmm.root, vmm.tab, free - {child}, vmm.pmm.maxPages, false)
    ensures Extended(old(vmm.mem), old(vmm.tab), free, vmm.mem, vmm.tab, free - {child}, vmm.root)
  {
    hide Vmm.BootMapped, Sound, Extended, Walk, Depth, Word, FrameOf, Pte, Present, Zeros, AddTable, SetWord,
         GetVirtAddr;
    EntryBelow(vmm.mem, vmm.root, vmm.tab, free, vmm.pmm.maxPages, false, n, 0);
    FreeLess(vmm.mem, vmm.root, vmm.tab, free, vmm.pmm.maxPages, false, child);
    vmm.TableReachable(n, free);
    FreshTable(vmm.mem, vmm.root, vmm.tab, free, vmm.pmm.maxPages, false, n, 0, child);
    ZeroedLink(vmm.mem, vmm.tab, n, child);
    vmm.Store(tablePhys, 0, childPhys + 3);
    vmm.tab := vmm.tab[Sub(n, 0) := child];
  }

  /** The state init_vmm starts from: a working frame allocator over all of RAM,
      no tables of its own, and the bootloader's tables active, which reach all of RAM. */
  ghost predicate Booted(vmm: Vmm)
    reads vmm, vmm.pmm, vmm.pmm.bitmap
  {
    && vmm.pmm.Valid() && vmm.pmm.bitmapInit && 0 !in vmm.pmm.free
    && vmm.pmm.maxPages == vmm.pmm.maxPhysicalAddress / PAGE && vmm.pmm.maxPhysicalAddress <= Handoff.IDENTITY_SIZE
    && vmm.BootMapped()
    && (forall f: nat :: f < vmm.pmm.maxPages ==> f in vmm.mem && |vmm.mem[f]| == ENTRIES)
    && !vmm.virtualMemInitialized && vmm.tlb == map[] && vmm.leaves == map[] && vmm.nextVirt == KHEAP_BASE
  }

  /** palloc before the switch; 0 when nothing is free. */
  method TakeFrame(vmm: Vmm) returns (phys: nat, ghost f: nat)
    requires vmm.pmm.Valid() && vmm.pmm.bitmapInit && 0 !in vmm.pmm.free && vmm.BitmapReachable()
    modifies vmm.pmm`free, vmm.pmm`freePages, vmm.pmm.bitmap
    ensures vmm.pmm.Valid() && phys == f * PAGE
    ensures phys == 0 ==> vmm.pmm.free == {} == old(vmm.pmm.free)
    ensures phys != 0 ==> f in old(vmm.pmm.free) && f < vmm.pmm.maxPages && vmm.pmm.free == old(vmm.pmm.free) - {f}
  {
    hide PM.Describes, Vmm.BitmapReachable;
    phys := vmm.Palloc();
    f := phys / PAGE;
  }

  /** memset of one frame before the switch. */
  method ZeroFrame(vmm: Vmm, phys: nat, ghost f: nat)
    requires phys == f * PAGE && !vmm.virtualMemInitialized && vmm.BootMapped() && f < vmm.pmm.maxPages
    modifies vmm`mem
    ensures vmm.mem == old(vmm.mem[f := Zeros()])
  {
    hide Walk;
    assert phys < Handoff.IDENTITY_SIZE && phys / PAGE == f;
    vmm.ZeroPage(phys);
  }

  /** The four palloc calls of init_vmm. */
  method TakeFour(vmm: Vmm) returns (halted: bool, pml4Phys: nat, pdptPhys: nat, pdPhys: nat, ptPhys: nat,
                                     ghost a: nat, ghost b: nat, ghost c: nat, ghost d: nat)
    requires vmm.pmm.Valid() && vmm.pmm.bitmapInit && 0 !in vmm.pmm.free && vmm.BitmapReachable()
    modifies vmm.pmm`free, vmm.pmm`freePages, vmm.pmm.bitmap
    ensures halted ==> vmm.pmm.free == {}
    ensures !halted ==>
              && vmm.pmm.Valid()
              && pml4Phys == a * PAGE && pdptPhys == b * PAGE && pdPhys == c * PAGE && ptPhys == d * PAGE
              && a !in {b, c, d} && b !in {c, d} && c != d && {a, b, c, d} <= old(vmm.pmm.free)
              && a < vmm.pmm.maxPages && b < vmm.pmm.maxPages && c < vmm.pmm.maxPages && d < vmm.pmm.maxPages
              && vmm.pmm.free == old(vmm.pmm.free) - {a, b, c, d}
  {
    hide PM.Pmm.Valid, Vmm.BitmapReachable;
    ghost var free := vmm.pmm.free;
    pml4Phys, a := TakeFrame(vmm);
    pdptPhys, b := TakeFrame(vmm);
    pdPhys, c := TakeFrame(vmm);
    ptPhys, d := TakeFrame(vmm);
    halted := pml4Phys == 0 || pdptPhys == 0 || pdPhys == 0 || ptPhys == 0;
    if !halted {
      TakenFour(free, a, b, c, d);
    }
  }

  lemma TakenFour(free: set<nat>, a: nat, b: nat, c: nat, d: nat)
    requires a in free && b in free - {a} && c in free - {a} - {b} && d in free - {a} - {b} - {c}
    ensures a !in {b, c, d} && b !in {c, d} && c != d && {a, b, c, d} <= free
    ensures free - {a} - {b} - {c} - {d} == free - {a, b, c, d}
  {
  }

  /** Four zeroed frames, or a halt when there are fewer. */
  method FourFrames(vmm: Vmm) returns (halted: bool, pml4Phys: nat, pdptPhys: nat, pdPhys: nat, ptPhys: nat,
                                       ghost a: nat, ghost b: nat, ghost c: nat, ghost d: nat)
    requires Booted(vmm)
    modifies vmm`mem, vmm.pmm`free, vmm.pmm`freePages, vmm.pmm.bitmap
    ensures halted ==> vmm.pmm.free == {}
    ensures !halted ==>
              && Booted(vmm)
              && pml4Phys == a * PAGE && pdptPhys == b * PAGE && pdPhys == c * PAGE && ptPhys == d * PAGE
              && a !in {b, c, d} && b !in {c, d} && c != d && {a, b, c, d} <= old(vmm.pmm.free)
              && Zeroed(vmm.mem, {a, b, c, d})
              && vmm.pmm.free == old(vmm.pmm.free) - {a, b, c, d}
  {
    hide PM.Pmm.Valid, Vmm.BitmapReachable, Vmm.BootMapped, Zeros;
    vmm.BitmapInReach();
    halted, pml4Phys, pdptPhys, pdPhys, ptPhys, a, b, c, d := TakeFour(vmm);
    if halted {
      return;
    }
    ZeroLength();
    ZeroFrame(vmm, pml4Phys, a);
    ZeroFrame(vmm, pdptPhys, b);
    ZeroFrame(vmm, pdPhys, c);
    ZeroFrame(vmm, ptPhys, d);
  }

  ghost predicate Zeroed(mem: Memory, frames: set<nat>) {
    forall f :: f in frames ==> f in mem && mem[f] == Zeros()
  }

  lemma ZeroLength()
    ensures |Zeros()| == ENTRIES
  {
  }

  /** The pages of the first 2 MiB, up to the done-th. */
  ghost predicate MapsLow(mem: Memory, root: nat, done: nat) {
    forall u: nat :: Canonical(u) ==> Walk(mem, root, u) == if u / PAGE < done then Some(u / PAGE) else None
  }

  lemma LowPage(i: nat)
    requires i < ENTRIES
    ensures Canonical(PageAddr(i)) && PageAddr(i) / PAGE == i && PtIndex(PageAddr(i)) == i
    ensures PtNode(PageAddr(i)) == Sub(Sub(Sub(Top, 0), 0), 0)
    ensures Pte(PageAddr(i)) == i * PAGE + 3 && Present(Pte(PageAddr(i))) && FrameOf(Pte(PageAddr(i))) == i
  {
    LowIndices(i);
    PteOfFrame(i);
    PteFields(PageAddr(i));
    hide Pml4Index, PdptIndex, PdIndex, PtIndex, FrameOf, Present;
  }

  lemma LowIndices(i: nat)
    requires i < ENTRIES
    ensures Pml4Index(i * PAGE) == PdptIndex(i * PAGE) == PdIndex(i * PAGE) == 0 && PtIndex(i * PAGE) == i
  {
    assert i * PAGE < 0x20_0000;
    assert i * PAGE / 0x1000 == i;
  }

  lemma OneLowPage(mem: Memory, mem': Memory, root: nat, i: nat)
    requires MapsLow(mem, root, i) && i < ENTRIES && Remapped(mem, mem', root, PageAddr(i), Some(i))
    ensures MapsLow(mem', root, i + 1)
  {
    LowPage(i);
    hide Walk, Canonical, PageAddr;
  }

  ghost function Chain(a: nat, b: nat, c: nat, d: nat): Tables {
    map[Top := a][Sub(Top, 0) := b][Sub(Sub(Top, 0), 0) := c][Sub(Sub(Sub(Top, 0), 0), 0) := d]
  }

  lemma ChainValues(a: nat, b: nat, c: nat, d: nat)
    ensures map[Top := a].Values == {a}
    ensures map[Top := a][Sub(Top, 0) := b].Values == {a, b}
    ensures map[Top := a][Sub(Top, 0) := b][Sub(Sub(Top, 0), 0) := c].Values == {a, b, c}
    ensures Chain(a, b, c, d).Values == {a, b, c, d}
  {
    assert map[Top := a][Top] == a;
    NewValue(map[Top := a], Sub(Top, 0), b);
    NewValue(map[Top := a][Sub(Top, 0) := b], Sub(Sub(Top, 0), 0), c);
    NewValue(map[Top := a][Sub(Top, 0) := b][Sub(Sub(Top, 0), 0) := c], Sub(Sub(Sub(Top, 0), 0), 0), d);
  }

  lemma StillZeroed(mem: Memory, mem': Memory, tab': Tables, frames: set<nat>)
    requires Zeroed(mem, frames) && DataKept(mem, mem', tab') && frames !! tab'.Values
    ensures Zeroed(mem', frames)
  {
    hide Zeros;
  }

  /** The four zeroed frames linked into one branch that maps nothing yet. */
  method LinkFour(vmm: Vmm, pml4Phys: nat, pdptPhys: nat, pdPhys: nat, ptPhys: nat,
                  ghost a: nat, ghost b: nat, ghost c: nat, ghost d: nat)
    requires Booted(vmm)
    requires pml4Phys == a * PAGE && pdptPhys == b * PAGE && pdPhys == c * PAGE && ptPhys == d * PAGE
    requires a !in {b, c, d} && b !in {c, d} && c != d
    requires 0 < a < vmm.pmm.maxPages && 0 < b < vmm.pmm.maxPages
    requires 0 < c < vmm.pmm.maxPages && 0 < d < vmm.pmm.maxPages
    requires {a, b, c, d} !! vmm.pmm.free
    requires Zeroed(vmm.mem, {a, b, c, d})
    modifies vmm`mem, vmm`root, vmm`tab
    ensures vmm.root == a && vmm.tab == Chain(a, b, c, d)
    ensures Sound(vmm.mem, vmm.root, vmm.tab, vmm.pmm.free, vmm.pmm.maxPages, false)
    ensures MapsLow(vmm.mem, vmm.root, 0)
  {
    hide PM.Pmm.Valid, Vmm.BootMapped, Sound, SameWalks, DataKept, Walk, Canonical, Zeros, Depth, MapsLow;
    ghost var free := vmm.pmm.free;
    ghost var mem0 := vmm.mem;
    FreeBelow(vmm);
    vmm.root := pml4Phys / PAGE;
    vmm.tab := map[Top := a];
    assert vmm.root == a;
    ChainDepths();
    ChainValues(a, b, c, d);
    assert a !in free + {b, c, d} && a in {a, b, c, d};
    BareRoot(vmm.mem, vmm.root, free + {b, c, d}, vmm.pmm.maxPages);

    ThreeLeft(free, b, c, d);
    LinkFirst(vmm, pml4Phys, pdptPhys, Top, b, free + {b, c, d});
    ghost var mem1 := vmm.mem;
    assert Zeroed(mem0, {c, d});
    assert vmm.tab.Values == {a, b};
    StillZeroed(mem0, mem1, vmm.tab, {c, d});

    LinkFirst(vmm, pdptPhys, pdPhys, Sub(Top, 0), c, free + {c, d});
    ghost var mem2 := vmm.mem;
    assert Zeroed(mem1, {d});
    assert vmm.tab.Values == {a, b, c};
    StillZeroed(mem1, mem2, vmm.tab, {d});

    LinkFirst(vmm, pdPhys, ptPhys, Sub(Sub(Top, 0), 0), d, free + {d});
    NothingMapped(mem0, mem1, mem2, vmm.mem, vmm.root);
  }

  lemma ThreeLeft(free: set<nat>, b: nat, c: nat, d: nat)
    requires {b, c, d} !! free && b !in {c, d} && c != d
    ensures free + {b, c, d} - {b} == free + {c, d}
    ensures free + {c, d} - {c} == free + {d}
    ensures free + {d} - {d} == free
  {
  }

  lemma ChainDepths()
    ensures Depth(Top) == 0 && Depth(Sub(Top, 0)) == 1 && Depth(Sub(Sub(Top, 0), 0)) == 2
  {
  }

  lemma FreeBelow(vmm: Vmm)
    requires Booted(vmm)
    ensures vmm.pmm.maxPages <= TWO_52 / PAGE
    ensures forall p :: p in vmm.pmm.free ==> p < vmm.pmm.maxPages
  {
  }

  lemma NothingMapped(mem0: Memory, mem1: Memory, mem2: Memory, mem3: Memory, root: nat)
    requires forall v :: Walk(mem0, root, v) == None
    requires SameWalks(mem0, mem1, root) && SameWalks(mem1, mem2, root) && SameWalks(mem2, mem3, root)
    ensures MapsLow(mem3, root, 0)
  {
    hide Walk, Canonical;
    assert forall v :: Walk(mem3, root, v) == Walk(mem2, root, v) == Walk(mem1, root, v) == Walk(mem0, root, v);
  }

  /** The tables for the first 2 MiB, mapped 1:1. */
  method FirstTables(vmm: Vmm) returns (halted: bool, pml4Phys: nat)
    requires Booted(vmm)
    modifies vmm`mem, vmm`root, vmm`tab, vmm`tlb, vmm.pmm`free, vmm.pmm`freePages, vmm.pmm.bitmap
    ensures halted ==> vmm.pmm.free == {}
    ensures !halted ==>
              && vmm.Core() && pml4Phys == vmm.root * PAGE
              && Maps(vmm.mem, vmm.root, [])
              && vmm.pmm.free + vmm.tab.Values == old(vmm.pmm.free)
  {
    hide PM.Pmm.Valid, Vmm.BootMapped, Sound, MapsLow, Remapped, Walk, Canonical, PageAddr, Zeros, Present, FrameOf,
         Pte, DataKept, SetLeaf;
    hide GetVirtAddr;
    var pdptPhys: nat, pdPhys: nat, ptPhys: nat;
    ghost var a: nat, b: nat, c: nat, d: nat;
    FreeBelow(vmm);
    halted, pml4Phys, pdptPhys, pdPhys, ptPhys, a, b, c, d := FourFrames(vmm);
    if halted {
      return;
    }
    ghost var free := vmm.pmm.free;
    LinkFour(vmm, pml4Phys, pdptPhys, pdPhys, ptPhys, a, b, c, d);
    ChainValues(a, b, c, d);
    ghost var n := Sub(Sub(Sub(Top, 0), 0), 0);
    for i := 0 to ENTRIES
      invariant vmm.tab == Chain(a, b, c, d) && vmm.root == a && vmm.tlb == map[]
      invariant vmm.pmm.Valid() && vmm.pmm.free == free
      invariant Sound(vmm.mem, vmm.root, vmm.tab, free, vmm.pmm.maxPages, false)
      invariant MapsLow(vmm.mem, vmm.root, i)
    {
      ghost var before := vmm.mem;
      LowPage(i);
      vmm.TableReachable(n, free);
      LeafStored(vmm.mem, vmm.root, vmm.tab, free, vmm.pmm.maxPages, false, PageAddr(i), Pte(PageAddr(i)));
      StoredLeaf(vmm.mem, vmm.tab, i);
      vmm.Store(ptPhys, i, i * PAGE + 3);
      OneLowPage(before, vmm.mem, vmm.root, i);
    }
    LowMapped(vmm.mem, vmm.root);
    halted := false;
  }

  lemma StoredLeaf(mem: Memory, tab: Tables, i: nat)
    requires i < ENTRIES && Sub(Sub(Sub(Top, 0), 0), 0) in tab
    requires var frame := tab[Sub(Sub(Sub(Top, 0), 0), 0)]; frame in mem && |mem[frame]| == ENTRIES
    ensures PtNode(PageAddr(i)) == Sub(Sub(Sub(Top, 0), 0), 0)
    ensures SetLeaf(mem, tab, PageAddr(i), Pte(PageAddr(i))) ==
            SetWord(mem, tab[Sub(Sub(Sub(Top, 0), 0), 0)], i, i * PAGE + 3)
  {
    LowPage(i);
  }

  lemma LowMapped(mem: Memory, root: nat)
    requires MapsLow(mem, root, ENTRIES)
    ensures Maps(mem, root, [])
  {
    hide Walk, Canonical;
  }

  // ---------------------------------------------------------------------
  // The whole of init_vmm
  // ---------------------------------------------------------------------

  /** The BootInfo fields init_vmm reads; at is its own address. */
  datatype BootInfo = BootInfo(at: nat,
                               kernelPhysicalStart: nat, kernelVirtual: nat, kernelSize: nat,
                               framebufferBase: nat, framebufferSize: nat,
                               initramfsAddress: nat, initramfsSize: nat,
                               memoryMap: nat, memoryMapSize: nat, descriptors: seq<PM.Descriptor>)

  /** Register values; apic holds the APIC base register when CPUID reports one. */
  datatype Cpu = Cpu(rsp: nat, rip: nat, apic: Option<nat>)

  function PageStart(a: nat): nat { a / PAGE * PAGE }

  function StackRequest(cpu: Cpu): Request
    requires cpu.rsp >= 16 * PAGE
  {
    var bottom := PageStart(cpu.rsp) - 16 * PAGE;
    Request(bottom, bottom, 32 * PAGE)
  }

  function RipRequest(cpu: Cpu): Request
    requires cpu.rip >= PAGE
  {
    var first := PageStart(cpu.rip) - PAGE;
    Request(first, first, 10 * PAGE)
  }

  function WindowRequest(maxPhysical: nat): Request { Request(0, PASSTHRU_BASE, maxPhysical) }

  function ConventionalRequests(ds: seq<PM.Descriptor>): seq<Request> {
    if ds == [] then []
    else
      var d := ds[|ds| - 1];
      ConventionalRequests(ds[..|ds| - 1]) +
      if d.Conventional() then [Request(d.physicalStart, d.physicalStart, d.numberOfPages * PAGE)] else []
  }

  function ApicBase(msr: nat): nat { msr / PAGE % 0x10_0000 * PAGE }

  function ApicRequests(boot: BootInfo, cpu: Cpu): seq<Request> {
    match cpu.apic
    case None => []
    case Some(msr) => ConventionalRequests(boot.descriptors) + [Request(ApicBase(msr), ApicBase(msr), 0x4000)]
  }

  function FirstRequests(boot: BootInfo, cpu: Cpu, maxPhysical: nat): seq<Request>
    requires cpu.rsp >= 16 * PAGE && cpu.rip >= PAGE
  {
    [Request(boot.kernelPhysicalStart, boot.kernelVirtual, boot.kernelSize),
     StackRequest(cpu),
     RipRequest(cpu),
     Request(boot.framebufferBase, boot.framebufferBase, boot.framebufferSize),
     WindowRequest(maxPhysical),
     Request(boot.initramfsAddress, boot.initramfsAddress, boot.initramfsSize)]
  }

  function LastRequests(boot: BootInfo): seq<Request> {
    [Request(PageStart(boot.at), PageStart(boot.at), PAGE),
     Request(PageStart(boot.memoryMap), PageStart(boot.memoryMap), boot.memoryMapSize + boot.memoryMap % PAGE)]
  }

  /** Every map_range call of init_vmm, in order. */
  function Requests(boot: BootInfo, cpu: Cpu, maxPhysical: nat): seq<Request>
    requires cpu.rsp >= 16 * PAGE && cpu.rip >= PAGE
  {
    FirstRequests(boot, cpu, maxPhysical) + ApicRequests(boot, cpu) + LastRequests(boot)
  }

  /** All the other ranges are physical ranges of the lower half, mapped 1:1. */
  ghost predicate OthersIdentity(requests: seq<Request>, maxPhysical: nat) {
    && WindowRequest(maxPhysical) in requests
    && forall r :: r in requests ==> r == WindowRequest(maxPhysical) || r.Identity()
  }

  /** No request, and no page of the first 2 MiB, is redirected by a later one. */
  ghost predicate NoRedirect(requests: seq<Request>) {
    forall p: nat :: p < PAGE_NUMBERS ==>
      && (p < ENTRIES ==> After(requests, p) == Some(p))
      && forall r :: r in requests && r.Covers(p) ==> After(requests, p) == Some(r.Target(p))
  }

  lemma IdentityPages(r: Request, p: nat)
    requires r.Identity() && p < PAGE_NUMBERS
    ensures r.Covers(p) <==> r.virt / PAGE <= p < r.virt / PAGE + r.Pages()
    ensures r.Covers(p) ==> p < LOW_END / PAGE && r.Target(p) == p
  {
    var v := r.virt / PAGE;
    WrapPages(v);
    WrapPages(p + PAGE_NUMBERS - v);
    assert v + r.Pages() == (r.virt + r.size + PAGE - 1) / PAGE;
    if r.Covers(p) {
      assert r.Target(p) == p % (TWO_52 / PAGE);
    }
  }

  lemma WindowPages(maxPhysical: nat, p: nat)
    requires p < PAGE_NUMBERS
    ensures var r := WindowRequest(maxPhysical);
            && (maxPhysical <= TWO_GIB ==>
                  (r.Covers(p) <==> HEAP_LIMIT <= p < HEAP_LIMIT + r.Pages()) &&
                  (r.Covers(p) ==> r.Target(p) == p - HEAP_LIMIT))
            && (maxPhysical > TWO_GIB ==> r.Covers(0) && r.Target(0) == 0x8_0000)
  {
    WrapPages(HEAP_LIMIT);
    WrapPages(p + PAGE_NUMBERS - HEAP_LIMIT);
  }

  /** Where everything but the window is 1:1, each page has one possible target. */
  lemma AfterCases(requests: seq<Request>, maxPhysical: nat, p: nat)
    requires forall r :: r in requests ==> r == WindowRequest(maxPhysical) || r.Identity()
    requires maxPhysical <= TWO_GIB && p < PAGE_NUMBERS
    ensures p < HEAP_LIMIT ==>
              After(requests, p) == if p < ENTRIES || exists r :: r in requests && r.Covers(p) then Some(p) else None
    ensures p >= HEAP_LIMIT ==>
              After(requests, p) == if exists r :: r in requests && r.Covers(p) then Some(p - HEAP_LIMIT) else None
  {
    WindowPages(maxPhysical, p);
    if requests != [] {
      var last := requests[|requests| - 1];
      var before := requests[..|requests| - 1];
      assert requests == before + [last] && last in requests;
      AfterCases(before, maxPhysical, p);
      if last.Identity() {
        IdentityPages(last, p);
      }
    }
  }

  /** Exactly when the physical memory fits the window of 2 GiB does no mapping of
      init_vmm destroy another; beyond that the window wraps onto low memory. */
  lemma NoRedirectIff(requests: seq<Request>, maxPhysical: nat)
    requires OthersIdentity(requests, maxPhysical)
    ensures NoRedirect(requests) <==> maxPhysical <= TWO_GIB
  {
    if maxPhysical <= TWO_GIB {
      forall p: nat | p < PAGE_NUMBERS
        ensures p < ENTRIES ==> After(requests, p) == Some(p)
        ensures forall r :: r in requests && r.Covers(p) ==> After(requests, p) == Some(r.Target(p))
      {
        AfterCases(requests, maxPhysical, p);
        WindowPages(maxPhysical, p);
        forall r | r in requests && r.Covers(p)
          ensures After(requests, p) == Some(r.Target(p))
        {
          if r.Identity() {
            IdentityPages(r, p);
          }
        }
      }
    } else {
      WindowPages(maxPhysical, 0);
      var conflict := After(requests, 0);  // both Some(0) and Some(0x8_0000) if nothing were redirected
    }
  }

  /** The address space after init_vmm, when nothing was redirected: low memory
      is 1:1 where it is mapped, the window shows all of RAM, the heap is empty. */
  lemma EndState(mem: Memory, root: nat, tab: Tables, free: set<nat>, requests: seq<Request>,
                 maxPhysical: nat, maxPages: nat)
    requires Sound(mem, root, tab, free, maxPages, false) && Maps(mem, root, requests)
    requires OthersIdentity(requests, maxPhysical) && maxPhysical <= TWO_GIB && maxPages == maxPhysical / PAGE
    ensures Sound(mem, root, tab, free, maxPages, true)
    ensures Owned(mem, root, tab, free, map[], HEAP_PAGE, maxPages)
    ensures forall u: nat :: u < LOW_END ==>
              Walk(mem, root, u) == None || Walk(mem, root, u) == Some(u / PAGE)
  {
    hide Tree, Walk;
    forall f: nat | f < maxPages
      ensures Walk(mem, root, GetVirtAddr(f * PAGE)) == Some(f)
    {
      WindowAddress(f, maxPages);
      AfterCases(requests, maxPhysical, HEAP_LIMIT + f);
      WindowPages(maxPhysical, HEAP_LIMIT + f);
    }
    forall p: nat | HEAP_PAGE <= p < HEAP_LIMIT
      ensures Walk(mem, root, PageAddr(p)) == None
    {
      HeapAddress(p, maxPages);
      AfterCases(requests, maxPhysical, p);
      WindowPages(maxPhysical, p);
      forall r | r in requests && r.Identity()
        ensures !r.Covers(p)
      {
        IdentityPages(r, p);
      }
    }
    forall u: nat | u < LOW_END
      ensures Walk(mem, root, u) == None || Walk(mem, root, u) == Some(u / PAGE)
    {
      AfterCases(requests, maxPhysical, u / PAGE);
    }
  }

  /** Each page the bitmap touches is one of the first 2 MiB or in some request. */
  ghost predicate BitmapCovered(requests: seq<Request>, at: nat, bytes: nat) {
    forall p: nat :: OnBitmap(p, at, bytes) ==> p < ENTRIES || exists r :: r in requests && r.Covers(p)
  }

  /** After the switch the frame allocator reaches its bitmap, which it addresses
      physically, exactly if the requests cover it. */
  lemma BitmapMappedIff(mem: Memory, root: nat, requests: seq<Request>, maxPhysical: nat, at: nat, bytes: nat)
    requires Maps(mem, root, requests) && OthersIdentity(requests, maxPhysical) && maxPhysical <= TWO_GIB
    requires at + bytes <= LOW_END
    ensures BitmapMapped(mem, root, at, bytes) <==> BitmapCovered(requests, at, bytes)
  {
    hide Walk;
    if BitmapCovered(requests, at, bytes) {
      forall a: nat | at <= a < at + bytes
        ensures Walk(mem, root, a) == Some(a / PAGE)
      {
        assert OnBitmap(a / PAGE, at, bytes);
        AfterCases(requests, maxPhysical, a / PAGE);
      }
    }
    if BitmapMapped(mem, root, at, bytes) {
      forall p: nat | OnBitmap(p, at, bytes)
        ensures p < ENTRIES || exists r :: r in requests && r.Covers(p)
      {
        var a := if p * PAGE < at then at else p * PAGE;
        assert at <= a < at + bytes && a / PAGE == p;
        assert Walk(mem, root, a) == Some(p);
        AfterCases(requests, maxPhysical, p);
      }
    }
  }

  /** With an APIC the conventional regions are mapped, the one that hosts the bitmap among them. */
  lemma ApicCoversBitmap(boot: BootInfo, cpu: Cpu, maxPhysical: nat, d: PM.Descriptor, bytes: nat)
    requires cpu.rsp >= 16 * PAGE && cpu.rip >= PAGE && cpu.apic.Some?
    requires OthersIdentity(Requests(boot, cpu, maxPhysical), maxPhysical)
    requires d in boot.descriptors && PM.CanHost(d, bytes)
    ensures BitmapCovered(Requests(boot, cpu, maxPhysical), d.physicalStart, bytes)
  {
    var requests := Requests(boot, cpu, maxPhysical);
    var r := Request(d.physicalStart, d.physicalStart, d.numberOfPages * PAGE);
    ConventionalRequested(boot.descriptors, d);
    assert r in ApicRequests(boot, cpu) && r in requests;
    forall p: nat | OnBitmap(p, d.physicalStart, bytes)
      ensures r.Covers(p)
    {
      IdentityPages(r, p);
    }
  }

  lemma ConventionalRequested(ds: seq<PM.Descriptor>, d: PM.Descriptor)
    requires d in ds && d.Conventional()
    ensures Request(d.physicalStart, d.physicalStart, d.numberOfPages * PAGE) in ConventionalRequests(ds)
  {
    if d != ds[|ds| - 1] {
      assert ds == ds[..|ds| - 1] + [ds[|ds| - 1]];
      ConventionalRequested(ds[..|ds| - 1], d);
    }
  }

  // ---------------------------------------------------------------------
  // What is mapped, address by address
  // ---------------------------------------------------------------------

  /** The addresses init_vmm maps below the window: the first 2 MiB, the kernel, 16 pages below and
      16 from the page of the stack pointer on, one below and 9 from the page of the instruction
      pointer on, framebuffer, RAM disk, with an APIC its four pages and all conventional memory,
      the page of the boot information, and the memory map; ranges from the start of their first page on. */
  ghost predicate Wanted(boot: BootInfo, cpu: Cpu, a: nat) {
    || a < 0x20_0000
    || boot.kernelVirtual / 0x1000 * 0x1000 <= a < boot.kernelVirtual + boot.kernelSize
    || cpu.rsp / 0x1000 * 0x1000 - 0x1_0000 <= a < cpu.rsp / 0x1000 * 0x1000 + 0x1_0000
    || cpu.rip / 0x1000 * 0x1000 - 0x1000 <= a < cpu.rip / 0x1000 * 0x1000 + 0x9000
    || boot.framebufferBase / 0x1000 * 0x1000 <= a < boot.framebufferBase + boot.framebufferSize
    || boot.initramfsAddress / 0x1000 * 0x1000 <= a < boot.initramfsAddress + boot.initramfsSize
    || WantedForApic(boot, cpu, a)
    || boot.at / 0x1000 * 0x1000 <= a < boot.at / 0x1000 * 0x1000 + 0x1000
    || boot.memoryMap / 0x1000 * 0x1000 <= a < boot.memoryMap + boot.memoryMapSize
  }

  ghost predicate WantedForApic(boot: BootInfo, cpu: Cpu, a: nat) {
    && cpu.apic.Some?
    && var base := cpu.apic.value / 0x1000 % 0x10_0000 * 0x1000;
       || base <= a < base + 0x4000
       || exists d :: d in boot.descriptors && d.kind == 7 &&
                      d.physicalStart / 0x1000 * 0x1000 <= a < d.physicalStart + d.numberOfPages * 0x1000
  }

  ghost predicate PageWanted(boot: BootInfo, cpu: Cpu, p: nat) {
    exists a: nat :: a / 0x1000 == p && Wanted(boot, cpu, a)
  }

  /** Below the window exactly the pages of these addresses translate, each to itself; the window
      translates exactly the pages of physical memory, from 0 on. */
  ghost predicate MappedExactly(mem: Memory, root: nat, boot: BootInfo, cpu: Cpu, maxPhysical: nat) {
    && (forall a: nat :: Canonical(a) && a < 0xFFFF_FFFF_8000_0000 ==>
          Walk(mem, root, a) == if PageWanted(boot, cpu, a / 0x1000) then Some(a / 0x1000) else None)
    && (forall a: nat :: a < 0x8000_0000 ==>
          Walk(mem, root, 0xFFFF_FFFF_8000_0000 + a) ==
            if a / 0x1000 * 0x1000 < maxPhysical then Some(a / 0x1000) else None)
  }

  /** From the start of its first page to its last byte. */
  predicate Spans(r: Request, a: nat) { r.virt / PAGE * PAGE <= a < r.virt + r.size }

  lemma SpansCovers(r: Request, p: nat)
    requires r.Identity() && p < PAGE_NUMBERS
    ensures r.Covers(p) <==> exists a: nat :: a / 0x1000 == p && Spans(r, a)
  {
    IdentityPages(r, p);
    if r.Covers(p) {
      assert p * PAGE / 0x1000 == p && Spans(r, p * PAGE);
    }
    forall a: nat | a / 0x1000 == p && Spans(r, a)
      ensures r.Covers(p)
    {
    }
  }

  lemma ConventionalListed(ds: seq<PM.Descriptor>, r: Request)
    requires r in ConventionalRequests(ds)
    ensures exists d :: d in ds && d.Conventional() &&
                        r == Request(d.physicalStart, d.physicalStart, d.numberOfPages * PAGE)
  {
    var front, last := ds[..|ds| - 1], ds[|ds| - 1];
    if r in ConventionalRequests(front) {
      ConventionalListed(front, r);
    } else {
      assert last in ds;
    }
  }

  /** The requests, the window aside, span exactly those addresses. */
  lemma RequestsSpan(boot: BootInfo, cpu: Cpu, maxPhysical: nat, a: nat)
    requires cpu.rsp >= 16 * PAGE && cpu.rip >= PAGE && a < PASSTHRU_BASE
    ensures Wanted(boot, cpu, a) <==>
            a < 0x20_0000 || exists r :: r in Requests(boot, cpu, maxPhysical) && Spans(r, a)
  {
    FirstSpan(boot, cpu, maxPhysical, a);
    ApicSpan(boot, cpu, a);
    LastSpan(boot, a);
    hide FirstRequests, ApicRequests, LastRequests, WantedForApic, Spans;
  }

  lemma FirstSpan(boot: BootInfo, cpu: Cpu, maxPhysical: nat, a: nat)
    requires cpu.rsp >= 16 * PAGE && cpu.rip >= PAGE && a < PASSTHRU_BASE
    ensures (exists r :: r in FirstRequests(boot, cpu, maxPhysical) && Spans(r, a)) <==>
            || boot.kernelVirtual / 0x1000 * 0x1000 <= a < boot.kernelVirtual + boot.kernelSize
            || cpu.rsp / 0x1000 * 0x1000 - 0x1_0000 <= a < cpu.rsp / 0x1000 * 0x1000 + 0x1_0000
            || cpu.rip / 0x1000 * 0x1000 - 0x1000 <= a < cpu.rip / 0x1000 * 0x1000 + 0x9000
            || boot.framebufferBase / 0x1000 * 0x1000 <= a < boot.framebufferBase + boot.framebufferSize
            || boot.initramfsAddress / 0x1000 * 0x1000 <= a < boot.initramfsAddress + boot.initramfsSize
  {
    hide Spans, StackRequest, RipRequest, WindowRequest;
    SpansOfSix(FirstRequests(boot, cpu, maxPhysical), a);
    RangeSpan(boot.kernelPhysicalStart, boot.kernelVirtual, boot.kernelSize, a);
    StackSpan(cpu, a);
    RipSpan(cpu, a);
    RangeSpan(boot.framebufferBase, boot.framebufferBase, boot.framebufferSize, a);
    WindowSpan(maxPhysical, a);
    RangeSpan(boot.initramfsAddress, boot.initramfsAddress, boot.initramfsSize, a);
  }

  lemma RangeSpan(phys: nat, virt: nat, size: nat, a: nat)
    ensures Spans(Request(phys, virt, size), a) <==> virt / 0x1000 * 0x1000 <= a < virt + size
  {
  }

  lemma StackSpan(cpu: Cpu, a: nat)
    requires cpu.rsp >= 16 * PAGE
    ensures Spans(StackRequest(cpu), a) <==>
            cpu.rsp / 0x1000 * 0x1000 - 0x1_0000 <= a < cpu.rsp / 0x1000 * 0x1000 + 0x1_0000
  {
  }

  lemma RipSpan(cpu: Cpu, a: nat)
    requires cpu.rip >= PAGE
    ensures Spans(RipRequest(cpu), a) <==>
            cpu.rip / 0x1000 * 0x1000 - 0x1000 <= a < cpu.rip / 0x1000 * 0x1000 + 0x9000
  {
  }

  lemma WindowSpan(maxPhysical: nat, a: nat)
    requires a < PASSTHRU_BASE
    ensures !Spans(WindowRequest(maxPhysical), a)
  {
  }

  lemma SpansOfSix(rs: seq<Request>, a: nat)
    requires |rs| == 6
    ensures (exists r :: r in rs && Spans(r, a)) <==>
            || Spans(rs[0], a) || Spans(rs[1], a) || Spans(rs[2], a)
            || Spans(rs[3], a) || Spans(rs[4], a) || Spans(rs[5], a)
  {
    hide Spans;
  }

  lemma ApicSpan(boot: BootInfo, cpu: Cpu, a: nat)
    ensures (exists r :: r in ApicRequests(boot, cpu) && Spans(r, a)) <==> WantedForApic(boot, cpu, a)
  {
    if cpu.apic.Some? {
      var base := ApicBase(cpu.apic.value);
      var ds, registers := boot.descriptors, Request(base, base, 0x4000);
      assert Spans(registers, a) <==> base <= a < base + 0x4000;
      assert registers in ApicRequests(boot, cpu);
      forall r | r in ConventionalRequests(ds) && Spans(r, a)
        ensures WantedForApic(boot, cpu, a)
      {
        ConventionalListed(ds, r);
      }
      forall d | d in ds && d.kind == 7 &&
                 d.physicalStart / 0x1000 * 0x1000 <= a < d.physicalStart + d.numberOfPages * 0x1000
        ensures exists r :: r in ApicRequests(boot, cpu) && Spans(r, a)
      {
        ConventionalRequested(ds, d);
        var r := Request(d.physicalStart, d.physicalStart, d.numberOfPages * PAGE);
        assert r in ApicRequests(boot, cpu) && Spans(r, a);
      }
    }
  }

  lemma LastSpan(boot: BootInfo, a: nat)
    ensures (exists r :: r in LastRequests(boot) && Spans(r, a)) <==>
            || boot.at / 0x1000 * 0x1000 <= a < boot.at / 0x1000 * 0x1000 + 0x1000
            || boot.memoryMap / 0x1000 * 0x1000 <= a < boot.memoryMap + boot.memoryMapSize
  {
    var rs := LastRequests(boot);
    assert rs == [rs[0], rs[1]];
    assert Spans(rs[0], a) <==> boot.at / 0x1000 * 0x1000 <= a < boot.at / 0x1000 * 0x1000 + 0x1000;
    assert Spans(rs[1], a) <==> boot.memoryMap / 0x1000 * 0x1000 <= a < boot.memoryMap + boot.memoryMapSize;
    hide Spans, LastRequests;
  }

  lemma PageCovered(boot: BootInfo, cpu: Cpu, maxPhysical: nat, p: nat)
    requires cpu.rsp >= 16 * PAGE && cpu.rip >= PAGE && p < HEAP_LIMIT && maxPhysical <= TWO_GIB
    requires OthersIdentity(Requests(boot, cpu, maxPhysical), maxPhysical)
    ensures PageWanted(boot, cpu, p) <==>
            p < ENTRIES || exists r :: r in Requests(boot, cpu, maxPhysical) && r.Covers(p)
  {
    hide Requests, Wanted, Request.Covers, Request.Pages, Request.Identity, Spans;
    var requests := Requests(boot, cpu, maxPhysical);
    WindowPages(maxPhysical, p);
    if PageWanted(boot, cpu, p) {
      var a: nat :| a / 0x1000 == p && Wanted(boot, cpu, a);
      RequestsSpan(boot, cpu, maxPhysical, a);
      if a >= 0x20_0000 {
        var r :| r in requests && Spans(r, a);
        SpanningCovers(r, maxPhysical, p, a);
      }
    }
    if p < ENTRIES {
      RequestsSpan(boot, cpu, maxPhysical, p * PAGE);
      assert p * PAGE / 0x1000 == p;
    }
    forall r | r in requests && r.Covers(p)
      ensures PageWanted(boot, cpu, p)
    {
      SpansCovers(r, p);
      var a: nat :| a / 0x1000 == p && Spans(r, a);
      RequestsSpan(boot, cpu, maxPhysical, a);
    }
  }

  lemma SpanningCovers(r: Request, maxPhysical: nat, p: nat, a: nat)
    requires r == WindowRequest(maxPhysical) || r.Identity()
    requires Spans(r, a) && a / 0x1000 == p < HEAP_LIMIT
    ensures r.Covers(p)
  {
    assert r != WindowRequest(maxPhysical);
    SpansCovers(r, p);
  }

  /** Where nothing is redirected, the finished tables map exactly those addresses. */
  lemma AddressesMapped(mem: Memory, root: nat, boot: BootInfo, cpu: Cpu, maxPhysical: nat)
    requires cpu.rsp >= 16 * PAGE && cpu.rip >= PAGE && maxPhysical <= TWO_GIB
    requires Maps(mem, root, Requests(boot, cpu, maxPhysical))
    requires OthersIdentity(Requests(boot, cpu, maxPhysical), maxPhysical)
    ensures MappedExactly(mem, root, boot, cpu, maxPhysical)
  {
    hide Requests, PageWanted, Walk, Request.Covers, Request.Pages, Canonical;
    var requests := Requests(boot, cpu, maxPhysical);
    forall a: nat | Canonical(a) && a < 0xFFFF_FFFF_8000_0000
      ensures Walk(mem, root, a) == if PageWanted(boot, cpu, a / 0x1000) then Some(a / 0x1000) else None
    {
      AfterCases(requests, maxPhysical, a / PAGE);
      PageCovered(boot, cpu, maxPhysical, a / PAGE);
    }
    forall a: nat | a < 0x8000_0000
      ensures Walk(mem, root, 0xFFFF_FFFF_8000_0000 + a) ==
              if a / 0x1000 * 0x1000 < maxPhysical then Some(a / 0x1000) else None
    {
      WindowAt(requests, maxPhysical, a);
    }
  }

  lemma WindowAt(requests: seq<Request>, maxPhysical: nat, a: nat)
    requires OthersIdentity(requests, maxPhysical) && maxPhysical <= TWO_GIB && a < 0x8000_0000
    ensures var u := 0xFFFF_FFFF_8000_0000 + a;
            && Canonical(u)
            && After(requests, u / PAGE) == if a / 0x1000 * 0x1000 < maxPhysical then Some(a / 0x1000) else None
  {
    var p := (0xFFFF_FFFF_8000_0000 + a) / PAGE;
    assert p == HEAP_LIMIT + a / 0x1000;
    AfterCases(requests, maxPhysical, p);
    WindowPages(maxPhysical, p);
    forall r | r in requests && r.Identity()
      ensures !r.Covers(p)
    {
      IdentityPages(r, p);
    }
    hide After;
  }

  /** A kernel mapped elsewhere than to itself: page k of its virtual range translates to page k
      of its physical one, unless the page is in another range too. */
  lemma KernelMapped(mem: Memory, root: nat, boot: BootInfo, cpu: Cpu, maxPhysical: nat, k: nat)
    requires cpu.rsp >= 16 * PAGE && cpu.rip >= PAGE && maxPhysical <= TWO_GIB
    requires Maps(mem, root, Requests(boot, cpu, maxPhysical))
    requires var others := boot.(kernelPhysicalStart := 0, kernelVirtual := 0, kernelSize := 0);
             && OthersIdentity(Requests(others, cpu, maxPhysical), maxPhysical)
             && !PageWanted(others, cpu, boot.kernelVirtual / 0x1000 + k)
    requires k * 0x1000 < boot.kernelSize + boot.kernelPhysicalStart % 0x1000
    requires var a := boot.kernelVirtual / 0x1000 * 0x1000 + k * 0x1000; Canonical(a) && a < 0xFFFF_FFFF_8000_0000
    ensures Walk(mem, root, boot.kernelVirtual / 0x1000 * 0x1000 + k * 0x1000) ==
            Some((boot.kernelPhysicalStart / 0x1000 + k) % 0x100_0000_0000)
  {
    hide Walk, Canonical, PageWanted, OthersIdentity, After, Maps;
    var p := boot.kernelVirtual / PAGE + k;
    var others := boot.(kernelPhysicalStart := 0, kernelVirtual := 0, kernelSize := 0);
    var kernel := Request(boot.kernelPhysicalStart, boot.kernelVirtual, boot.kernelSize);
    var rest := Requests(boot, cpu, maxPhysical)[1..];
    KernelFirst(boot, cpu, maxPhysical, rest);
    PageCovered(others, cpu, maxPhysical, p);
    KernelPage(kernel, k);
    AfterFirst(kernel, rest, p);
    MapsAt(mem, root, [kernel] + rest, boot.kernelVirtual / PAGE * PAGE + k * PAGE, p);
  }

  lemma KernelFirst(boot: BootInfo, cpu: Cpu, maxPhysical: nat, rest: seq<Request>)
    requires cpu.rsp >= 16 * PAGE && cpu.rip >= PAGE && rest == Requests(boot, cpu, maxPhysical)[1..]
    ensures Requests(boot, cpu, maxPhysical) ==
            [Request(boot.kernelPhysicalStart, boot.kernelVirtual, boot.kernelSize)] + rest
    ensures var others := boot.(kernelPhysicalStart := 0, kernelVirtual := 0, kernelSize := 0);
            Requests(others, cpu, maxPhysical) == [Request(0, 0, 0)] + rest
  {
    hide ConventionalRequests;
    var others := boot.(kernelPhysicalStart := 0, kernelVirtual := 0, kernelSize := 0);
    assert FirstRequests(others, cpu, maxPhysical)[1..] == FirstRequests(boot, cpu, maxPhysical)[1..];
    assert ApicRequests(others, cpu) == ApicRequests(boot, cpu) && LastRequests(others) == LastRequests(boot);
  }

  lemma KernelPage(r: Request, k: nat)
    requires k * PAGE < r.size + r.phys % PAGE && r.virt / PAGE + k < PAGE_NUMBERS
    ensures r.Covers(r.virt / PAGE + k) && r.Target(r.virt / PAGE + k) == (r.phys / PAGE + k) % 0x100_0000_0000
  {
    var v := r.virt / PAGE;
    WrapPages(v);
    WrapPages(v + k + PAGE_NUMBERS - v);
  }

  /** What only the first request covers keeps its target. */
  lemma {:induction false} AfterFirst(first: Request, rest: seq<Request>, p: nat)
    requires first.Covers(p) && forall r :: r in rest ==> !r.Covers(p)
    ensures After([first] + rest, p) == Some(first.Target(p))
    decreases |rest|
  {
    hide Request.Covers, Request.Target;
    var rs := [first] + rest;
    if rest == [] {
      assert rs == [first];
    } else {
      assert rs[..|rs| - 1] == [first] + rest[..|rest| - 1] && rs[|rs| - 1] == rest[|rest| - 1];
      AfterFirst(first, rest[..|rest| - 1], p);
    }
  }

  lemma MapsAt(mem: Memory, root: nat, requests: seq<Request>, u: nat, p: nat)
    requires Maps(mem, root, requests) && Canonical(u) && u / PAGE == p
    ensures Walk(mem, root, u) == After(requests, p)
  {
    hide Walk, Canonical, After;
  }

  /** The conditions in terms of the machine: a kernel at its physical address and every range
      below 2^47. The boot path meets them: it links the kernel at 1 MiB and loads it there. */
  ghost predicate LowMachine(boot: BootInfo, cpu: Cpu) {
    && boot.kernelPhysicalStart == boot.kernelVirtual && boot.kernelVirtual + boot.kernelSize <= 0x8000_0000_0000
    && 0x1_0000 <= cpu.rsp <= 0x8000_0000_0000 - 0x1_0000 && 0x1000 <= cpu.rip <= 0x8000_0000_0000 - 0x9000
    && boot.framebufferBase + boot.framebufferSize <= 0x8000_0000_0000
    && boot.initramfsAddress + boot.initramfsSize <= 0x8000_0000_0000
    && boot.at < 0x8000_0000_0000 && boot.memoryMap + boot.memoryMapSize <= 0x8000_0000_0000
    && (forall d :: d in boot.descriptors && d.kind == 7 ==>
          d.physicalStart + d.numberOfPages * 0x1000 <= 0x8000_0000_0000)
  }

  lemma LowMachineFits(boot: BootInfo, cpu: Cpu, maxPhysical: nat)
    requires LowMachine(boot, cpu) && maxPhysical <= TWO_GIB
    ensures OthersIdentity(Requests(boot, cpu, maxPhysical), maxPhysical)
    ensures forall r :: r in Requests(boot, cpu, maxPhysical) ==> CanonicalRange(r)
  {
    hide CanonicalRange;
    WindowCanonical(maxPhysical);
    assert Requests(boot, cpu, maxPhysical)[4] == WindowRequest(maxPhysical);
    forall r | r in Requests(boot, cpu, maxPhysical)
      ensures (r == WindowRequest(maxPhysical) || r.Identity()) && CanonicalRange(r)
    {
      LowRequest(boot, cpu, maxPhysical, r);
      if r.Identity() {
        IdentityCanonical(r);
      }
    }
  }

  lemma LowRequest(boot: BootInfo, cpu: Cpu, maxPhysical: nat, r: Request)
    requires LowMachine(boot, cpu) && r in Requests(boot, cpu, maxPhysical)
    ensures r == WindowRequest(maxPhysical) || r.Identity()
  {
    if r in FirstRequests(boot, cpu, maxPhysical) {
    } else if r in ApicRequests(boot, cpu) {
      if r in ConventionalRequests(boot.descriptors) {
        ConventionalListed(boot.descriptors, r);
      }
    } else {
      assert r in LastRequests(boot);
    }
  }

  /** Without an APIC no conventional memory is mapped: a machine with RAM from 16 MiB to
      1 GiB and everything else below 1 MiB meets all other conditions and loses its bitmap. */
  lemma NoApicLosesBitmap()
    ensures var ram := PM.Descriptor(PM.EFI_CONVENTIONAL_MEMORY, 0x100_0000, 0x3_F000);
            var boot := BootInfo(0x8000, 0x2_0000, 0x2_0000, 0x1_0000, 0xA_0000, 0x1000, 0x3_0000, 0x1000,
                                 0x9000, 0x100, [ram]);
            var cpu := Cpu(0x8_0000, 0x4_0000, None);
            var requests := Requests(boot, cpu, 0x4000_0000);
            && PM.IsTop(boot.descriptors, 0x4000_0000) && PM.CanHost(ram, PM.BitmapBytes(0x4000_0000))
            && (forall r :: r in requests ==> CanonicalRange(r))
            && OthersIdentity(requests, 0x4000_0000) && 0x4000_0000 <= TWO_GIB
            && After(requests, ram.physicalStart / PAGE) == None
            && !BitmapCovered(requests, ram.physicalStart, PM.BitmapBytes(0x4000_0000))
  {
    var ram := PM.Descriptor(PM.EFI_CONVENTIONAL_MEMORY, 0x100_0000, 0x3_F000);
    var boot := BootInfo(0x8000, 0x2_0000, 0x2_0000, 0x1_0000, 0xA_0000, 0x1000, 0x3_0000, 0x1000, 0x9000, 0x100, [ram]);
    var cpu := Cpu(0x8_0000, 0x4_0000, None);
    var requests := Requests(boot, cpu, 0x4000_0000);
    assert requests == LowRequests() by { ListedRequests(); }
    hide Requests, FirstRequests, LastRequests, ApicRequests;
    LowRequestsFit(requests);
    assert ram.End() == 0x4000_0000;
    AfterCases(requests, 0x4000_0000, 0x1000);
    assert OnBitmap(0x1000, 0x100_0000, PM.BitmapBytes(0x4000_0000));
  }

  function LowRequests(): seq<Request> {
    [Request(0x2_0000, 0x2_0000, 0x1_0000), Request(0x7_0000, 0x7_0000, 0x2_0000), Request(0x3_F000, 0x3_F000, 0xA000),
     Request(0xA_0000, 0xA_0000, 0x1000), WindowRequest(0x4000_0000), Request(0x3_0000, 0x3_0000, 0x1000),
     Request(0x8000, 0x8000, 0x1000), Request(0x9000, 0x9000, 0x100)]
  }

  lemma ListedRequests()
    ensures var ram := PM.Descriptor(PM.EFI_CONVENTIONAL_MEMORY, 0x100_0000, 0x3_F000);
            var boot := BootInfo(0x8000, 0x2_0000, 0x2_0000, 0x1_0000, 0xA_0000, 0x1000, 0x3_0000, 0x1000,
                                 0x9000, 0x100, [ram]);
            Requests(boot, Cpu(0x8_0000, 0x4_0000, None), 0x4000_0000) == LowRequests()
  {
  }

  /** Each of these requests is canonical and, but for the window, 1:1 below 1 MiB. */
  lemma LowRequestsFit(requests: seq<Request>)
    requires requests == LowRequests()
    ensures forall r :: r in requests ==> CanonicalRange(r)
    ensures OthersIdentity(requests, 0x4000_0000)
    ensures forall r :: r in requests ==> !r.Covers(0x1000)
  {
    var window := WindowRequest(0x4000_0000);
    assert requests[4] == window;
    forall r | r in requests
      ensures CanonicalRange(r) && !r.Covers(0x1000) && (r == window || r.Identity())
    {
      if r == window {
        WindowCanonical(0x4000_0000);
        WindowPages(0x4000_0000, 0x1000);
      } else {
        assert r.phys == r.virt && r.virt + r.size <= 0x10_0000;
        IdentityCanonical(r);
        IdentityPages(r, 0x1000);
      }
    }
  }

  lemma IdentityCanonical(r: Request)
    requires r.Identity()
    ensures CanonicalRange(r)
  {
    forall k: nat | k < r.Pages()
      ensures Canonical(VirtAt(r, k))
    {
      WrapPages(r.virt / PAGE + k);
      assert r.virt / PAGE + k < LOW_END / PAGE;
    }
  }

  lemma WindowCanonical(maxPhysical: nat)
    requires maxPhysical <= TWO_GIB
    ensures CanonicalRange(WindowRequest(maxPhysical))
  {
    var r := WindowRequest(maxPhysical);
    forall k: nat | k < r.Pages()
      ensures Canonical(VirtAt(r, k))
    {
      WrapPages(HEAP_LIMIT + k);
      assert HEAP_LIMIT + k < PAGE_NUMBERS;
    }
  }

  /** The new tables under construction, with the requests done so far. */
  ghost predicate Building(vmm: Vmm, pml4Phys: nat, requests: seq<Request>, pool: set<nat>)
    reads vmm, vmm.pmm, vmm.pmm.bitmap
  {
    && vmm.Core() && !vmm.virtualMemInitialized && pml4Phys == vmm.root * PAGE
    && Maps(vmm.mem, vmm.root, requests)
    && vmm.pmm.free + vmm.tab.Values == pool
  }

  method MapNext(vmm: Vmm, phys: nat, virt: nat, size: nat, pml4Phys: nat,
                 ghost requests: seq<Request>, ghost pool: set<nat>) returns (halted: bool)
    requires Building(vmm, pml4Phys, requests, pool) && CanonicalRange(Request(phys, virt, size))
    modifies vmm`mem, vmm`tab, vmm`tlb, vmm.pmm`free, vmm.pmm`freePages, vmm.pmm.bitmap
    ensures halted ==> vmm.pmm.free == {}
    ensures !halted ==> Building(vmm, pml4Phys, requests + [Request(phys, virt, size)], pool)
  {
    hide Vmm.Core, Maps, CanonicalRange;
    halted := MapRange(vmm, phys, virt, size, pml4Phys, requests);
  }

  /** The APIC branch: the conventional ranges 1:1, then the APIC registers. */
  method MapApic(vmm: Vmm, boot: BootInfo, msr: nat, pml4Phys: nat,
                 ghost requests: seq<Request>, ghost pool: set<nat>) returns (halted: bool)
    requires Building(vmm, pml4Phys, requests, pool)
    requires forall r :: r in ConventionalRequests(boot.descriptors) ==> CanonicalRange(r)
    requires CanonicalRange(Request(ApicBase(msr), ApicBase(msr), 0x4000))
    modifies vmm`mem, vmm`tab, vmm`tlb, vmm.pmm`free, vmm.pmm`freePages, vmm.pmm.bitmap
    ensures halted ==> vmm.pmm.free == {}
    ensures !halted ==> Building(vmm, pml4Phys, requests + ConventionalRequests(boot.descriptors)
                                                + [Request(ApicBase(msr), ApicBase(msr), 0x4000)], pool)
  {
    hide Building, CanonicalRange;
    var ds := boot.descriptors;
    assert requests + [] == requests;
    for i := 0 to |ds|
      invariant Building(vmm, pml4Phys, requests + ConventionalRequests(ds[..i]), pool)
    {
      var d := ds[i];
      assert ds[..i + 1][..i] == ds[..i];
      if d.Conventional() {
        ConventionalPrefix(ds, i + 1);
        ghost var r := Request(d.physicalStart, d.physicalStart, d.numberOfPages * PAGE);
        assert r in ConventionalRequests(ds[..i + 1]);
        assert requests + ConventionalRequests(ds[..i]) + [r] == requests + ConventionalRequests(ds[..i + 1]);
        halted := MapNext(vmm, d.physicalStart, d.physicalStart, d.numberOfPages * PAGE, pml4Phys,
                          requests + ConventionalRequests(ds[..i]), pool);
        if halted {
          return;
        }
      } else {
        assert ConventionalRequests(ds[..i + 1]) == ConventionalRequests(ds[..i]);
      }
    }
    assert ds[..|ds|] == ds;
    halted := MapNext(vmm, ApicBase(msr), ApicBase(msr), 0x4000, pml4Phys, requests + ConventionalRequests(ds), pool);
  }

  lemma ConventionalPrefix(ds: seq<PM.Descriptor>, n: nat)
    requires n <= |ds|
    ensures forall r :: r in ConventionalRequests(ds[..n]) ==> r in ConventionalRequests(ds)
  {
    if n == |ds| {
      assert ds[..n] == ds;
    } else {
      ConventionalPrefix(ds[..|ds| - 1], n);
      assert ds[..|ds| - 1][..n] == ds[..n];
    }
  }

  /** One more of the requests rs is mapped. */
  method MapAt(vmm: Vmm, phys: nat, virt: nat, size: nat, pml4Phys: nat,
               ghost requests: seq<Request>, ghost rs: seq<Request>, ghost i: nat, ghost pool: set<nat>)
    returns (halted: bool)
    requires i < |rs| && rs[i] == Request(phys, virt, size) && CanonicalRange(rs[i])
    requires Building(vmm, pml4Phys, requests + rs[..i], pool)
    modifies vmm`mem, vmm`tab, vmm`tlb, vmm.pmm`free, vmm.pmm`freePages, vmm.pmm.bitmap
    ensures halted ==> vmm.pmm.free == {}
    ensures !halted ==> Building(vmm, pml4Phys, requests + rs[..i + 1], pool)
  {
    hide Building, CanonicalRange;
    assert requests + rs[..i] + [rs[i]] == requests + rs[..i + 1];
    halted := MapNext(vmm, phys, virt, size, pml4Phys, requests + rs[..i], pool);
  }

  /** Kernel, stack, code, framebuffer, the window and the RAM disk. */
  method MapFirst(vmm: Vmm, boot: BootInfo, cpu: Cpu, pml4Phys: nat, ghost pool: set<nat>) returns (halted: bool)
    requires cpu.rsp >= 16 * PAGE && cpu.rip >= PAGE
    requires Building(vmm, pml4Phys, [], pool)
    requires forall r :: r in FirstRequests(boot, cpu, vmm.pmm.maxPhysicalAddress) ==> CanonicalRange(r)
    modifies vmm`mem, vmm`tab, vmm`tlb, vmm.pmm`free, vmm.pmm`freePages, vmm.pmm.bitmap
    ensures halted ==> vmm.pmm.free == {}
    ensures !halted ==> Building(vmm, pml4Phys, FirstRequests(boot, cpu, vmm.pmm.maxPhysicalAddress), pool)
  {
    hide Building, CanonicalRange;
    var maxPhysical := vmm.pmm.maxPhysicalAddress;
    var stack, code := StackRequest(cpu), RipRequest(cpu);
    ghost var rs := FirstRequests(boot, cpu, maxPhysical);
    assert rs[..0] == [] && [] + rs[..0] == [] && [] + rs[..6] == rs;
    halted := MapAt(vmm, boot.kernelPhysicalStart, boot.kernelVirtual, boot.kernelSize, pml4Phys, [], rs, 0, pool);
    if halted {
      return;
    }
    halted := MapAt(vmm, stack.phys, stack.virt, stack.size, pml4Phys, [], rs, 1, pool);
    if halted {
      return;
    }
    halted := MapAt(vmm, code.phys, code.virt, code.size, pml4Phys, [], rs, 2, pool);
    if halted {
      return;
    }
    halted := MapAt(vmm, boot.framebufferBase, boot.framebufferBase, boot.framebufferSize, pml4Phys, [], rs, 3, pool);
    if halted {
      return;
    }
    halted := MapAt(vmm, 0, PASSTHRU_BASE, maxPhysical, pml4Phys, [], rs, 4, pool);
    if halted {
      return;
    }
    halted := MapAt(vmm, boot.initramfsAddress, boot.initramfsAddress, boot.initramfsSize, pml4Phys, [], rs, 5, pool);
  }

  /** The boot information and the memory map. */
  method MapLast(vmm: Vmm, boot: BootInfo, pml4Phys: nat, ghost requests: seq<Request>, ghost pool: set<nat>)
    returns (halted: bool)
    requires Building(vmm, pml4Phys, requests, pool)
    requires forall r :: r in LastRequests(boot) ==> CanonicalRange(r)
    modifies vmm`mem, vmm`tab, vmm`tlb, vmm.pmm`free, vmm.pmm`freePages, vmm.pmm.bitmap
    ensures halted ==> vmm.pmm.free == {}
    ensures !halted ==> Building(vmm, pml4Phys, requests + LastRequests(boot), pool)
  {
    hide Building, CanonicalRange, PageStart;
    ghost var rs := LastRequests(boot);
    assert requests + rs[..0] == requests && rs[..2] == rs;
    var bootPage, mapPage := PageStart(boot.at), PageStart(boot.memoryMap);
    halted := MapAt(vmm, bootPage, bootPage, PAGE, pml4Phys, requests, rs, 0, pool);
    if halted {
      return;
    }
    halted := MapAt(vmm, mapPage, mapPage, boot.memoryMapSize + boot.memoryMap % PAGE, pml4Phys, requests, rs, 1, pool);
  }

  /** init_vmm: builds the tables and switches to them. */
  method InitVmm(vmm: Vmm, boot: BootInfo, cpu: Cpu) returns (halted: bool)
    requires Booted(vmm) && cpu.rsp >= 16 * PAGE && cpu.rip >= PAGE
    requires forall r :: r in Requests(boot, cpu, vmm.pmm.maxPhysicalAddress) ==> CanonicalRange(r)
    modifies vmm, vmm.pmm`free, vmm.pmm`freePages, vmm.pmm.bitmap
    ensures halted ==> vmm.pmm.free == {}
    ensures !halted ==>
              && vmm.virtualMemInitialized
              && Maps(vmm.mem, vmm.root, Requests(boot, cpu, vmm.pmm.maxPhysicalAddress))
    ensures !halted && OthersIdentity(Requests(boot, cpu, vmm.pmm.maxPhysicalAddress), vmm.pmm.maxPhysicalAddress)
              && vmm.pmm.maxPhysicalAddress <= TWO_GIB ==>
                && (vmm.Valid() <==> BitmapCovered(Requests(boot, cpu, vmm.pmm.maxPhysicalAddress),
                                                   vmm.pmm.bitmapAddr, vmm.pmm.sizeofBitmap))
                && vmm.leaves == map[] && Pool(vmm.tab, vmm.pmm.free, vmm.leaves) == old(vmm.pmm.free)
                && MappedExactly(vmm.mem, vmm.root, boot, cpu, vmm.pmm.maxPhysicalAddress)
  {
    hide MappedExactly;
    hide Building, CanonicalRange, OthersIdentity, BitmapCovered, Vmm.Core, PM.Pmm.Valid, Vmm.Valid, Maps, After, Pool;
    hide FirstRequests, ConventionalRequests, LastRequests;
    ghost var pool := vmm.pmm.free;
    ghost var requests := FirstRequests(boot, cpu, vmm.pmm.maxPhysicalAddress);
    var pml4Phys: nat;
    halted, pml4Phys := StartTables(vmm);
    if halted {
      return;
    }
    halted := MapFirst(vmm, boot, cpu, pml4Phys, pool);
    if halted {
      return;
    }
    match cpu.apic {
      case None =>
      case Some(msr) =>
        halted := MapApic(vmm, boot, msr, pml4Phys, requests, pool);
        if halted {
          return;
        }
    }
    ghost var conventional := ConventionalRequests(boot.descriptors);
    assert cpu.apic.Some? ==>
        var last := [Request(ApicBase(cpu.apic.value), ApicBase(cpu.apic.value), 0x4000)];
        requests + conventional + last == requests + (conventional + last);
    assert cpu.apic.None? ==> requests + [] == requests;
    halted := MapLast(vmm, boot, pml4Phys, requests + ApicRequests(boot, cpu), pool);
    if halted {
      return;
    }
    SwitchTables(vmm, pml4Phys, Requests(boot, cpu, vmm.pmm.maxPhysicalAddress), pool);
    if OthersIdentity(Requests(boot, cpu, vmm.pmm.maxPhysicalAddress), vmm.pmm.maxPhysicalAddress)
       && vmm.pmm.maxPhysicalAddress <= TWO_GIB {
      AddressesMapped(vmm.mem, vmm.root, boot, cpu, vmm.pmm.maxPhysicalAddress);
    }
  }

  method StartTables(vmm: Vmm) returns (halted: bool, pml4Phys: nat)
    requires Booted(vmm)
    modifies vmm`mem, vmm`root, vmm`tab, vmm`tlb, vmm.pmm`free, vmm.pmm`freePages, vmm.pmm.bitmap
    ensures halted ==> vmm.pmm.free == {}
    ensures !halted ==> Building(vmm, pml4Phys, [], old(vmm.pmm.free))
  {
    hide Vmm.Core, Maps, PM.Pmm.Valid;
    halted, pml4Phys := FirstTables(vmm);
  }

  /** write_cr3: the new tables become the active ones and the TLB starts empty. */
  method SwitchTables(vmm: Vmm, pml4Phys: nat, ghost requests: seq<Request>, ghost pool: set<nat>)
    requires Building(vmm, pml4Phys, requests, pool) && vmm.leaves == map[] && vmm.nextVirt == KHEAP_BASE
    requires vmm.pmm.maxPages == vmm.pmm.maxPhysicalAddress / PAGE
    modifies vmm`virtualMemInitialized, vmm`tlb
    ensures vmm.virtualMemInitialized && Maps(vmm.mem, vmm.root, requests)
    ensures OthersIdentity(requests, vmm.pmm.maxPhysicalAddress) && vmm.pmm.maxPhysicalAddress <= TWO_GIB ==>
              && (vmm.Valid() <==> BitmapCovered(requests, vmm.pmm.bitmapAddr, vmm.pmm.sizeofBitmap))
              && Pool(vmm.tab, vmm.pmm.free, vmm.leaves) == pool
  {
    hide PM.Pmm.Valid, Sound, Owned, OthersIdentity, Maps, BitmapMapped, BitmapCovered, Handoff.Covers,
         Handoff.Identity;
    vmm.virtualMemInitialized := true;
    vmm.tlb := map[];
    if OthersIdentity(requests, vmm.pmm.maxPhysicalAddress) && vmm.pmm.maxPhysicalAddress <= TWO_GIB {
      EndState(vmm.mem, vmm.root, vmm.tab, vmm.pmm.free, requests, vmm.pmm.maxPhysicalAddress, vmm.pmm.maxPages);
      BitmapMappedIff(vmm.mem, vmm.root, requests, vmm.pmm.maxPhysicalAddress, vmm.pmm.bitmapAddr, vmm.pmm.sizeofBitmap);
    }
  }
}
