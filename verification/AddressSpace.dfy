/** The address space the kernel's page tables describe, as a value: what each
    operation of kernel/arch/x86_64/mm/vmm.c may change in it, and which frame
    belongs to whom. */
module AddressSpace {
  import opened Common
  import opened Paging

  const KHEAP_BASE: nat := 0xFFFF_FFFE_0000_0000
  const PASSTHRU_BASE: nat := 0xFFFF_FFFF_8000_0000

  /** Where the pass-through window shows a physical address (64-bit addition). */
  function GetVirtAddr(phys: nat): nat { (phys + PASSTHRU_BASE) % TWO_64 }

  /** The window shows every frame below maxPages, all within its 2 GiB. */
  ghost predicate Passthru(mem: Memory, root: nat, maxPages: nat) {
    && maxPages <= 0x8_0000
    && forall f: nat :: f < maxPages ==> Walk(mem, root, GetVirtAddr(f * PAGE)) == Some(f)
  }

  ghost predicate InWindow(v: nat, maxPages: nat) {
    PASSTHRU_BASE / PAGE <= v / PAGE < PASSTHRU_BASE / PAGE + maxPages
  }

  // ---------------------------------------------------------------------
  // How one operation may change the address space
  // ---------------------------------------------------------------------

  /** The page of v translates to target; every other canonical address is untouched. */
  ghost predicate Remapped(mem: Memory, mem': Memory, root: nat, v: nat, target: Option<nat>) {
    forall u: nat :: Canonical(u) ==>
      Walk(mem', root, u) == if u / PAGE == v / PAGE then target else Walk(mem, root, u)
  }

  /** Tables are only added, each one taken from the free frames, none lost. */
  ghost predicate Grown(tab: Tables, free: set<nat>, tab': Tables, free': set<nat>) {
    && (forall n :: n in tab ==> n in tab' && tab'[n] == tab[n])
    && free' <= free
    && free' + tab'.Values == free + tab.Values
  }

  /** Frames that are not tables keep their contents. */
  ghost predicate DataKept(mem: Memory, mem': Memory, tab': Tables) {
    mem'.Keys == mem.Keys && forall f :: f in mem && f !in tab'.Values ==> mem'[f] == mem[f]
  }

  /** What the tables, the frames and the window owe each other at all times. */
  ghost predicate Sound(mem: Memory, root: nat, tab: Tables, free: set<nat>, maxPages: nat, switched: bool) {
    && Tree(mem, root, tab, false)
    && maxPages <= TWO_52 / PAGE
    && (forall f: nat :: f < maxPages ==> f in mem && |mem[f]| == ENTRIES)
    && (forall n :: n in tab ==> 0 < tab[n] < maxPages && tab[n] !in free)
    && (forall f :: f in free ==> 0 < f < maxPages)
    && (switched ==> Passthru(mem, root, maxPages))
  }

  /** The TLB holds only translations the active address space still has. */
  ghost predicate TlbAgrees(tlb: map<nat, nat>, mem: Memory, root: nat, switched: bool) {
    forall p :: p in tlb ==>
      Canonical(p * PAGE) && (if switched then Walk(mem, root, p * PAGE) else Some(p)) == Some(tlb[p])
  }

  lemma TlbSame(tlb: map<nat, nat>, mem: Memory, mem': Memory, root: nat, switched: bool)
    requires TlbAgrees(tlb, mem, root, switched) && SameWalks(mem, mem', root)
    ensures TlbAgrees(tlb, mem', root, switched)
  {
    hide Walk, Canonical;
  }

  /** What the TLB may hold after a store to the tables and before the invlpg:
      translations from before the store and from after it. */
  ghost predicate TlbBetween(tlb: map<nat, nat>, mem: Memory, mem': Memory, root: nat, switched: bool) {
    forall p :: p in tlb ==>
      && Canonical(p * PAGE)
      && if switched then Walk(mem, root, p * PAGE) == Some(tlb[p]) || Walk(mem', root, p * PAGE) == Some(tlb[p])
         else tlb[p] == p
  }

  /** Whatever was cached meanwhile, dropping the page that changed is enough. */
  lemma AfterInvlpg(tlb: map<nat, nat>, mem: Memory, mem': Memory, root: nat, switched: bool, v: nat, target: Option<nat>)
    requires TlbBetween(tlb, mem, mem', root, switched) && Remapped(mem, mem', root, v, target)
    ensures TlbAgrees(tlb - {v / PAGE}, mem', root, switched)
  {
    hide Walk, Canonical;
    forall p | p in tlb && p != v / PAGE
      ensures switched ==> Walk(mem', root, p * PAGE) == Some(tlb[p])
    {
      assert p * PAGE / PAGE == p;
    }
  }

  // ---------------------------------------------------------------------
  // How many frames an operation takes
  // ---------------------------------------------------------------------

  /** The tables above the leaf entry of v, the top one aside. */
  function Path(v: nat): set<Node> {
    {PtNode(v), PtNode(v).up, PtNode(v).up.up}
  }

  /** The tables above count pages from page lo on. */
  function Paths(lo: nat, count: nat): set<Node> {
    if count == 0 then {} else Paths(lo, count - 1) + Path(PageAddr(lo + count - 1))
  }

  /** One frame for each of those tables that does not exist yet, and data more. */
  ghost function Needed(tab: Tables, nodes: set<Node>, data: nat): nat {
    data + |nodes - tab.Keys|
  }

  /** The tables have come to include nodes, and exactly the frames needed are gone. */
  ghost predicate Spent(tab: Tables, free: set<nat>, tab': Tables, free': set<nat>, nodes: set<Node>, data: nat) {
    tab'.Keys == tab.Keys + nodes && |free'| + Needed(tab, nodes, data) == |free|
  }

  lemma SpentTwice(tab0: Tables, free0: set<nat>, tab1: Tables, free1: set<nat>, nodes1: set<Node>, data1: nat,
                   tab2: Tables, free2: set<nat>, nodes2: set<Node>, data2: nat)
    requires Spent(tab0, free0, tab1, free1, nodes1, data1)
    ensures Spent(tab1, free1, tab2, free2, nodes2, data2) ==>
              Spent(tab0, free0, tab2, free2, nodes1 + nodes2, data1 + data2)
    ensures |free1| < Needed(tab1, nodes2, data2) ==> |free0| < Needed(tab0, nodes1 + nodes2, data1 + data2)
  {
    MissingTwice(tab0.Keys, nodes1, nodes2);
    assert tab0.Keys + nodes1 + nodes2 == tab0.Keys + (nodes1 + nodes2);
  }

  lemma MissingTwice(known: set<Node>, nodes1: set<Node>, nodes2: set<Node>)
    ensures |nodes1 + nodes2 - known| == |nodes1 - known| + |nodes2 - (known + nodes1)|
  {
    var a, b := nodes1 - known, nodes2 - (known + nodes1);
    assert nodes1 + nodes2 - known == a + b && a !! b;
  }

  lemma NeededMore(tab: Tables, nodes: set<Node>, data: nat, nodes': set<Node>, data': nat)
    requires nodes <= nodes' && data <= data'
    ensures Needed(tab, nodes, data) <= Needed(tab, nodes', data')
  {
    SubsetSize(nodes - tab.Keys, nodes' - tab.Keys);
  }

  lemma {:induction false} PathsPrefix(lo: nat, i: nat, count: nat)
    requires i <= count
    ensures Paths(lo, i) <= Paths(lo, count)
  {
    if i < count {
      PathsPrefix(lo, i, count - 1);
    }
  }

  /** Whether one table is missing, and what it then takes. */
  lemma NeededOne(tab: Tables, free: set<nat>, n: Node)
    ensures n in tab ==> Spent(tab, free, tab, free, {n}, 0)
    ensures n !in tab ==> Needed(tab, {n}, 0) == 1
  {
    assert {n} - tab.Keys == if n in tab then {} else {n};
  }

  lemma NeededData(tab: Tables, nodes: set<Node>, data: nat)
    ensures data <= Needed(tab, nodes, data)
  {
  }

  function UpperPath(v: nat): set<Node> { {PtNode(v).up, PtNode(v).up.up} }

  lemma NeededUpper(tab: Tables, v: nat)
    ensures Needed(tab, {PtNode(v).up.up}, 0) <= Needed(tab, Path(v), 0)
  {
    NeededMore(tab, {PtNode(v).up.up}, 0, Path(v), 0);
  }

  /** The second of the three levels. */
  lemma SpentUpper(tab0: Tables, free0: set<nat>, tab1: Tables, free1: set<nat>, tab2: Tables, free2: set<nat>, v: nat)
    requires Spent(tab0, free0, tab1, free1, {PtNode(v).up.up}, 0)
    ensures Spent(tab1, free1, tab2, free2, {PtNode(v).up}, 0) ==> Spent(tab0, free0, tab2, free2, UpperPath(v), 0)
    ensures |free1| < Needed(tab1, {PtNode(v).up}, 0) ==> |free0| < Needed(tab0, Path(v), 0)
  {
    hide Spent, Needed;
    var a, b := {PtNode(v).up.up}, {PtNode(v).up};
    assert a + b == UpperPath(v);
    SpentTwice(tab0, free0, tab1, free1, a, 0, tab2, free2, b, 0);
    NeededMore(tab0, UpperPath(v), 0, Path(v), 0);
  }

  /** The third. */
  lemma SpentPath(tab0: Tables, free0: set<nat>, tab1: Tables, free1: set<nat>, tab2: Tables, free2: set<nat>, v: nat)
    requires Spent(tab0, free0, tab1, free1, UpperPath(v), 0)
    ensures Spent(tab1, free1, tab2, free2, {PtNode(v)}, 0) ==> Spent(tab0, free0, tab2, free2, Path(v), 0)
    ensures |free1| < Needed(tab1, {PtNode(v)}, 0) ==> |free0| < Needed(tab0, Path(v), 0)
  {
    hide Spent, Needed;
    assert UpperPath(v) + {PtNode(v)} == Path(v);
    SpentTwice(tab0, free0, tab1, free1, UpperPath(v), 0, tab2, free2, {PtNode(v)}, 0);
  }

  lemma PathsNone(tab: Tables, free: set<nat>, lo: nat)
    ensures Spent(tab, free, tab, free, Paths(lo, 0), 0)
  {
  }

  lemma PathsEnough(tab: Tables, free: set<nat>, tab': Tables, free': set<nat>, nodes: set<Node>, data: nat)
    requires Spent(tab, free, tab', free', nodes, data)
    ensures Needed(tab, nodes, data) <= |free|
  {
  }

  /** One more page of a range, as far as the frames go. */
  lemma PathsMore(tab0: Tables, free0: set<nat>, tab1: Tables, free1: set<nat>, tab2: Tables, free2: set<nat>,
                  lo: nat, i: nat, count: nat)
    requires Spent(tab0, free0, tab1, free1, Paths(lo, i), i) && i < count
    ensures Spent(tab1, free1, tab2, free2, Path(PageAddr(lo + i)), 1) ==>
              Spent(tab0, free0, tab2, free2, Paths(lo, i + 1), i + 1)
    ensures |free1| < Needed(tab1, Path(PageAddr(lo + i)), 1) ==> |free0| < Needed(tab0, Paths(lo, count), count)
  {
    hide Spent, Needed, Path;
    SpentTwice(tab0, free0, tab1, free1, Paths(lo, i), i, tab2, free2, Path(PageAddr(lo + i)), 1);
    assert Paths(lo, i + 1) == Paths(lo, i) + Path(PageAddr(lo + i));
    PathsPrefix(lo, i + 1, count);
    NeededMore(tab0, Paths(lo, i + 1), i + 1, Paths(lo, count), count);
  }

  lemma SpentOnTable(tab: Tables, free: set<nat>, n: Node, child: nat)
    requires n !in tab && child in free
    ensures Spent(tab, free, tab[n := child], free - {child}, {n}, 0)
  {
    assert {n} - tab.Keys == {n};
  }

  /** A frame for data first, then those for the tables. */
  lemma SpentOnData(tab: Tables, free: set<nat>, f: nat, tab': Tables, free': set<nat>, nodes: set<Node>)
    requires f in free
    ensures Spent(tab, free - {f}, tab', free', nodes, 0) ==> Spent(tab, free, tab', free', nodes, 1)
    ensures |free - {f}| < Needed(tab, nodes, 0) ==> |free| < Needed(tab, nodes, 1)
  {
  }

  // ---------------------------------------------------------------------
  // The bitmap of the frame allocator, which is read and written at its
  // physical address even after the switch
  // ---------------------------------------------------------------------

  /** Some byte of the bitmap lies on page p. */
  ghost predicate OnBitmap(p: nat, at: nat, bytes: nat) { bytes > 0 && at / PAGE <= p && p * PAGE < at + bytes }

  /** Every byte of the bitmap translates to itself. */
  ghost predicate BitmapMapped(mem: Memory, root: nat, at: nat, bytes: nat) {
    && at + bytes <= 0x8000_0000_0000
    && forall a: nat :: at <= a < at + bytes ==> Walk(mem, root, a) == Some(a / PAGE)
  }

  lemma HeapOffBitmap(mem: Memory, root: nat, p: nat, at: nat, bytes: nat)
    requires BitmapMapped(mem, root, at, bytes) && HEAP_PAGE <= p
    ensures !OnBitmap(p, at, bytes)
  {
  }

  lemma BitmapSame(mem: Memory, mem': Memory, root: nat, at: nat, bytes: nat)
    requires BitmapMapped(mem, root, at, bytes) && SameWalks(mem, mem', root)
    ensures BitmapMapped(mem', root, at, bytes)
  {
    hide Walk;
    assert forall a: nat :: Walk(mem', root, a) == Walk(mem, root, a);
  }

  /** Remapping any other page, or a bitmap page to its own frame, leaves the bitmap in reach. */
  lemma BitmapRemapped(mem: Memory, mem': Memory, root: nat, v: nat, target: Option<nat>, at: nat, bytes: nat)
    requires BitmapMapped(mem, root, at, bytes) && Remapped(mem, mem', root, v, target)
    requires OnBitmap(v / PAGE, at, bytes) ==> target == Some(v / PAGE)
    ensures BitmapMapped(mem', root, at, bytes)
  {
    hide Walk;
    forall a: nat | at <= a < at + bytes
      ensures Walk(mem', root, a) == Some(a / PAGE)
    {
      assert Canonical(a) && OnBitmap(a / PAGE, at, bytes);
    }
  }

  /** New empty tables, and nothing else, have appeared. */
  ghost predicate Extended(mem: Memory, tab: Tables, free: set<nat>,
                           mem': Memory, tab': Tables, free': set<nat>, root: nat) {
    SameWalks(mem, mem', root) && Grown(tab, free, tab', free') && DataKept(mem, mem', tab')
  }

  lemma ExtendedTrans(mem0: Memory, tab0: Tables, free0: set<nat>, mem1: Memory, tab1: Tables, free1: set<nat>,
                      mem2: Memory, tab2: Tables, free2: set<nat>, root: nat)
    requires Extended(mem0, tab0, free0, mem1, tab1, free1, root)
    requires Extended(mem1, tab1, free1, mem2, tab2, free2, root)
    ensures Extended(mem0, tab0, free0, mem2, tab2, free2, root)
  {
    hide Walk;
    assert forall v :: Walk(mem2, root, v) == Walk(mem1, root, v) == Walk(mem0, root, v);
    GrownValues(tab1, free1, tab2, free2);
  }

  lemma GrownValues(tab: Tables, free: set<nat>, tab': Tables, free': set<nat>)
    requires Grown(tab, free, tab', free')
    ensures tab.Values <= tab'.Values
  {
    forall f | f in tab.Values
      ensures f in tab'.Values
    {
      var n :| n in tab && tab[n] == f;
      assert tab'[n] == f;
    }
  }

  /** Linking a free frame as a new table keeps everything sound and changes no translation. */
  lemma FreshTable(mem: Memory, root: nat, tab: Tables, free: set<nat>, maxPages: nat, switched: bool,
                   n: Node, i: nat, child: nat)
    requires Sound(mem, root, tab, free, maxPages, switched)
    requires n in tab && Depth(n) < 3 && i < ENTRIES && !Present(Word(mem, tab[n], i)) && child in free
    ensures Sound(AddTable(mem, tab, n, i, child), root, tab[Sub(n, i) := child], free - {child}, maxPages, switched)
    ensures Extended(mem, tab, free, AddTable(mem, tab, n, i, child), tab[Sub(n, i) := child], free - {child}, root)
  {
    hide Tree, Word, AddTable, Depth, Present, Grown, DataKept, Walk, GetVirtAddr, SetWord;
    FreeInRange(mem, root, tab, free, maxPages, switched);
    EntryBelow(mem, root, tab, free, maxPages, switched, n, i);
    TreeBasics(mem, root, tab, n);
    FreshTableWalks(mem, root, tab, n, i, child);
    FreshTableData(mem, tab, n, i, child);
    FreshTableOwned(tab, free, Sub(n, i), child);
    AddTableWords(mem, tab, n, i, child);
  }

  lemma TreeBasics(mem: Memory, root: nat, tab: Tables, n: Node)
    requires Tree(mem, root, tab, false) && n in tab
    ensures tab[n] in mem && |mem[tab[n]]| == ENTRIES
  {
  }

  lemma FreshTableWalks(mem: Memory, root: nat, tab: Tables, n: Node, i: nat, child: nat)
    requires Vacant(mem, root, tab, false, n, i, child)
    ensures Tree(AddTable(mem, tab, n, i, child), root, tab[Sub(n, i) := child], false)
    ensures SameWalks(mem, AddTable(mem, tab, n, i, child), root)
  {
    AddTableTree(mem, root, tab, false, n, i, child);
    forall v
      ensures Walk(AddTable(mem, tab, n, i, child), root, v) == Walk(mem, root, v)
    {
      AddTableWalk(mem, root, tab, false, n, i, child, v);
    }
    hide Walk, AddTable, Vacant, Tree;
  }

  lemma FreshTableData(mem: Memory, tab: Tables, n: Node, i: nat, child: nat)
    requires n in tab && tab[n] in mem && i < |mem[tab[n]]| && child in mem && child !in tab.Values
    requires Sub(n, i) !in tab
    ensures DataKept(mem, AddTable(mem, tab, n, i, child), tab[Sub(n, i) := child])
  {
    NewValue(tab, Sub(n, i), child);
    hide Pte, Zeros;
    assert AddTable(mem, tab, n, i, child).Keys == mem.Keys;
  }

  lemma FreshTableOwned(tab: Tables, free: set<nat>, at: Node, child: nat)
    requires child in free && at !in tab
    ensures Grown(tab, free, tab[at := child], free - {child})
  {
    NewValue(tab, at, child);
  }

  lemma NewValue(tab: Tables, n: Node, child: nat)
    requires n !in tab
    ensures tab[n := child].Values == tab.Values + {child}
  {
    var tab' := tab[n := child];
    assert n in tab' && tab'[n] == child;
    forall f | f in tab.Values
      ensures f in tab'.Values
    {
      var m :| m in tab && tab[m] == f;
      assert m in tab' && tab'[m] == f;
    }
  }

  lemma EntryBelow(mem: Memory, root: nat, tab: Tables, free: set<nat>, maxPages: nat, switched: bool,
                   n: Node, i: nat)
    requires Sound(mem, root, tab, free, maxPages, switched)
    requires n in tab && Depth(n) < 3 && i < ENTRIES
    ensures Present(Word(mem, tab[n], i)) <==> Sub(n, i) in tab
    ensures Sub(n, i) in tab ==> FrameOf(Word(mem, tab[n], i)) == tab[Sub(n, i)]
  {
    assert Linked(mem, tab, n, i, false);
  }

  lemma NothingChanged(mem: Memory, root: nat, tab: Tables, free: set<nat>)
    ensures Extended(mem, tab, free, mem, tab, free, root)
  {
  }

  /** Writing one leaf entry. */
  lemma LeafStored(mem: Memory, root: nat, tab: Tables, free: set<nat>, maxPages: nat, switched: bool, v: nat, w: nat)
    requires Sound(mem, root, tab, free, maxPages, switched)
    requires PtNode(v) in tab && Canonical(v) && (Present(w) || FrameOf(w) == 0)
    requires switched ==> !InWindow(v, maxPages)
    ensures Sound(SetLeaf(mem, tab, v, w), root, tab, free, maxPages, switched)
    ensures Remapped(mem, SetLeaf(mem, tab, v, w), root, v, if Present(w) then Some(FrameOf(w)) else None)
    ensures DataKept(mem, SetLeaf(mem, tab, v, w), tab)
  {
    hide Tree, Walk, Canonical, Present, FrameOf, SetLeaf, Word, GetVirtAddr, PtNode, PtIndex;
    TreeBasics(mem, root, tab, PtNode(v));
    SetLeafTree(mem, root, tab, false, v, w);
    SetLeafWords(mem, tab, v, w);
    LeafData(mem, tab, v, w);
    var mem' := SetLeaf(mem, tab, v, w);
    forall u: nat | Canonical(u)
      ensures Walk(mem', root, u) == if u / PAGE != v / PAGE then Walk(mem, root, u)
                                     else if Present(w) then Some(FrameOf(w)) else None
    {
      SetLeafWalk(mem, root, tab, false, v, w, u);
    }
    if switched {
      forall f: nat | f < maxPages
        ensures Walk(mem', root, GetVirtAddr(f * PAGE)) == Some(f)
      {
        WindowAddress(f, maxPages);
      }
    }
  }

  lemma RemappedAfter(mem0: Memory, mem1: Memory, mem2: Memory, root: nat, v: nat, target: Option<nat>)
    requires SameWalks(mem0, mem1, root) && Remapped(mem1, mem2, root, v, target)
    ensures Remapped(mem0, mem2, root, v, target)
  {
    hide Walk, Canonical;
    assert forall u :: Walk(mem1, root, u) == Walk(mem0, root, u);
  }

  lemma DataKeptTrans(mem0: Memory, mem1: Memory, mem2: Memory, tab: Tables)
    requires DataKept(mem0, mem1, tab) && DataKept(mem1, mem2, tab)
    ensures DataKept(mem0, mem2, tab)
  {
  }

  /** A page whose tables are missing is unmapped already. */
  lemma NothingUnmapped(mem: Memory, root: nat, tab: Tables, free: set<nat>, maxPages: nat, switched: bool, v: nat)
    requires Sound(mem, root, tab, free, maxPages, switched)
    ensures Walk(mem, root, v) == if PtNode(v) !in tab then None
                                  else var w := Word(mem, tab[PtNode(v)], PtIndex(v));
                                       if Present(w) then Some(FrameOf(w)) else None
    ensures PtNode(v) in tab ==> PtNode(v).up in tab && PtNode(v).up.up in tab
    ensures PtNode(v) in tab && Walk(mem, root, v) == None ==> FrameOf(Word(mem, tab[PtNode(v)], PtIndex(v))) == 0
    ensures Walk(mem, root, v) == None ==> Remapped(mem, mem, root, v, None)
    ensures Top in tab && tab[Top] == root && DataKept(mem, mem, tab)
    ensures Depth(PtNode(v)) == 3 && Depth(PtNode(v).up) == 2 && Depth(PtNode(v).up.up) == 1 && Depth(Top) == 0
  {
    hide Present, FrameOf, Word, Pml4Index, PdptIndex, PdIndex, PtIndex, Canonical, GetVirtAddr;
    WalkInTree(mem, root, tab, false, v);
    IndexRange(v);
    assert Depth(PtNode(v)) == 3 && Depth(PtNode(v).up) == 2 && Depth(PtNode(v).up.up) == 1;
    if PtNode(v) in tab {
      assert CleanLeaf(mem, tab, PtNode(v), PtIndex(v));
    } else if PtNode(v).up in tab {
      assert Linked(mem, tab, PtNode(v).up, PdIndex(v), false);
    }
    if Walk(mem, root, v) == None {
      forall u: nat | Canonical(u) && u / PAGE == v / PAGE
        ensures Walk(mem, root, u) == None
      {
        SamePageWalk(mem, root, tab, u, v);
      }
    }
  }

  lemma SamePageWalk(mem: Memory, root: nat, tab: Tables, u: nat, v: nat)
    requires Tree(mem, root, tab, false) && u / PAGE == v / PAGE
    ensures Walk(mem, root, u) == Walk(mem, root, v)
  {
    SamePage(u, v);
    WalkInTree(mem, root, tab, false, u);
    WalkInTree(mem, root, tab, false, v);
    hide Tree, Walk, Pml4Index, PdptIndex, PdIndex, PtIndex;
  }

  lemma ZeroWord()
    ensures !Present(0) && FrameOf(0) == 0
  {
  }

  lemma IndexRange(v: nat)
    ensures Pml4Index(v) < ENTRIES && PdptIndex(v) < ENTRIES && PdIndex(v) < ENTRIES && PtIndex(v) < ENTRIES
  {
  }

  lemma LeafData(mem: Memory, tab: Tables, v: nat, w: nat)
    requires PtNode(v) in tab && tab[PtNode(v)] in mem && |mem[tab[PtNode(v)]]| == ENTRIES
    ensures DataKept(mem, SetLeaf(mem, tab, v, w), tab)
  {
    hide Pml4Index, PdptIndex, PdIndex, PtIndex;
    assert tab[PtNode(v)] in tab.Values;
  }

  lemma WindowAddress(f: nat, maxPages: nat)
    requires f < maxPages <= 0x8_0000
    ensures Canonical(GetVirtAddr(f * PAGE)) && InWindow(GetVirtAddr(f * PAGE), maxPages)
    ensures GetVirtAddr(f * PAGE) / PAGE == PASSTHRU_BASE / PAGE + f
  {
  }

  lemma FreeInRange(mem: Memory, root: nat, tab: Tables, free: set<nat>, maxPages: nat, switched: bool)
    requires Sound(mem, root, tab, free, maxPages, switched)
    ensures forall f :: f in free ==> 0 < f < maxPages && f !in tab.Values
  {
  }

  /** Clearing a frame that is no table changes no translation. */
  lemma ZeroedFrame(mem: Memory, root: nat, tab: Tables, free: set<nat>, maxPages: nat, switched: bool, f: nat)
    requires Sound(mem, root, tab, free, maxPages, switched) && f !in tab.Values && f < maxPages
    ensures Sound(mem[f := Zeros()], root, tab, free, maxPages, switched)
    ensures SameWalks(mem, mem[f := Zeros()], root)
  {
    OtherMemory(mem, mem[f := Zeros()], root, tab, false);
  }

  // ---------------------------------------------------------------------
  // Who owns a frame
  // ---------------------------------------------------------------------

  const HEAP_PAGE: nat := KHEAP_BASE / PAGE
  const HEAP_LIMIT: nat := PASSTHRU_BASE / PAGE

  function PageAddr(p: nat): nat { p * PAGE }

  /** The heap pages in use are exactly leaves: each below nextPage, each on a
      frame of its own that is neither free nor a table. */
  ghost predicate Owned(mem: Memory, root: nat, tab: Tables, free: set<nat>, leaves: map<nat, nat>,
                        nextPage: nat, maxPages: nat) {
    && (forall p: nat :: HEAP_PAGE <= p < HEAP_LIMIT ==>
          Walk(mem, root, PageAddr(p)) == if p in leaves then Some(leaves[p]) else None)
    && (forall p :: p in leaves ==> HEAP_PAGE <= p < nextPage && p < HEAP_LIMIT)
    && (forall p :: p in leaves ==> 0 < leaves[p] < maxPages && leaves[p] !in free && leaves[p] !in tab.Values)
    && (forall p, q :: p in leaves && q in leaves && leaves[p] == leaves[q] ==> p == q)
  }

  /** All frames the virtual memory system deals in. */
  ghost function Pool(tab: Tables, free: set<nat>, leaves: map<nat, nat>): set<nat> {
    free + tab.Values + leaves.Values
  }

  ghost predicate OutsideKept(mem: Memory, mem': Memory, root: nat, lo: nat, hi: nat) {
    forall u: nat :: Canonical(u) && !(lo <= u / PAGE < hi) ==> Walk(mem', root, u) == Walk(mem, root, u)
  }

  ghost function Range(lo: nat, hi: nat): (r: set<nat>)
    ensures forall p: nat :: p in r <==> lo <= p < hi
    decreases hi
  {
    if lo >= hi then {} else Range(lo, hi - 1) + {hi - 1}
  }

  lemma HeapAddress(p: nat, maxPages: nat)
    requires HEAP_PAGE <= p < HEAP_LIMIT
    ensures Canonical(PageAddr(p)) && PageAddr(p) / PAGE == p && PageAddr(p) % PAGE == 0
    ensures !InWindow(PageAddr(p), maxPages)
  {
  }

  lemma LeafValue(leaves: map<nat, nat>, p: nat, f: nat)
    requires p !in leaves
    ensures leaves[p := f].Values == leaves.Values + {f}
  {
    var more := leaves[p := f];
    assert p in more && more[p] == f;
    forall g | g in leaves.Values
      ensures g in more.Values
    {
      var q :| q in leaves && leaves[q] == g;
      assert q in more && more[q] == g;
    }
  }

  /** A frame just taken from free becomes the leaf of the next heap page. */
  lemma PageAdded(mem: Memory, tab: Tables, free: set<nat>, mem': Memory, tab': Tables, free': set<nat>,
                  root: nat, leaves: map<nat, nat>, p: nat, f: nat, maxPages: nat)
    requires Owned(mem, root, tab, free, leaves, p, maxPages) && HEAP_PAGE <= p < HEAP_LIMIT
    requires f in free && 0 < f < maxPages && f !in tab.Values
    requires Grown(tab, free - {f}, tab', free') && Remapped(mem, mem', root, PageAddr(p), Some(f))
    ensures Owned(mem', root, tab', free', leaves[p := f], p + 1, maxPages) && p !in leaves
    ensures Pool(tab', free', leaves[p := f]) == Pool(tab, free, leaves)
  {
    hide Walk, Canonical, PageAddr, InWindow, Pool;
    forall q: nat | HEAP_PAGE <= q < HEAP_LIMIT
      ensures Walk(mem', root, PageAddr(q)) == if q == p then Some(f)
                                               else if q in leaves then Some(leaves[q]) else None
    {
      HeapAddress(p, maxPages);
      HeapAddress(q, maxPages);
    }
    LeafValue(leaves, p, f);
    assert forall g :: g in free' || g in tab'.Values <==> g in free' + tab'.Values;
    assert forall g :: g in free - {f} || g in tab.Values <==> g in (free - {f}) + tab.Values;
    PoolAdded(tab, free, tab', free', leaves, leaves[p := f], f);
  }

  lemma PoolAdded(tab: Tables, free: set<nat>, tab': Tables, free': set<nat>, leaves: map<nat, nat>, leaves': map<nat, nat>,
                  f: nat)
    requires f in free && Grown(tab, free - {f}, tab', free') && leaves'.Values == leaves.Values + {f}
    ensures Pool(tab', free', leaves') == Pool(tab, free, leaves)
  {
    assert Pool(tab', free', leaves') == (free' + tab'.Values) + leaves.Values + {f};
    assert Pool(tab, free, leaves) == ((free - {f}) + tab.Values) + leaves.Values + {f};
  }

  /** Unmapping a heap page gives up its leaf, if it has one. */
  lemma PageRemoved(mem: Memory, mem': Memory, root: nat, tab: Tables, free: set<nat>, leaves: map<nat, nat>,
                    nextPage: nat, p: nat, maxPages: nat)
    requires Owned(mem, root, tab, free, leaves, nextPage, maxPages) && HEAP_PAGE <= p < HEAP_LIMIT
    requires Remapped(mem, mem', root, PageAddr(p), None)
    ensures var free' := if p in leaves then free + {leaves[p]} else free;
            && Owned(mem', root, tab, free', leaves - {p}, nextPage, maxPages)
            && Pool(tab, free', leaves - {p}) == Pool(tab, free, leaves)
  {
    hide Walk, Canonical, PageAddr, InWindow, Pool;
    forall q: nat | HEAP_PAGE <= q < HEAP_LIMIT
      ensures Walk(mem', root, PageAddr(q)) == if q != p && q in leaves then Some(leaves[q]) else None
    {
      HeapAddress(p, maxPages);
      HeapAddress(q, maxPages);
    }
    LeafDropped(tab, free, leaves, p);
  }

  lemma LeafDropped(tab: Tables, free: set<nat>, leaves: map<nat, nat>, p: nat)
    ensures Pool(tab, if p in leaves then free + {leaves[p]} else free, leaves - {p}) == Pool(tab, free, leaves)
  {
    if p in leaves {
      var less := leaves - {p};
      assert less[p := leaves[p]] == leaves;
      LeafValue(less, p, leaves[p]);
    } else {
      assert leaves - {p} == leaves;
    }
  }

  lemma SameWalksOwned(mem: Memory, mem': Memory, root: nat, tab: Tables, free: set<nat>, leaves: map<nat, nat>,
                       nextPage: nat, maxPages: nat)
    requires Owned(mem, root, tab, free, leaves, nextPage, maxPages) && SameWalks(mem, mem', root)
    ensures Owned(mem', root, tab, free, leaves, nextPage, maxPages)
  {
    hide Walk, PageAddr;
  }

  lemma RangeGrows(mem0: Memory, mem1: Memory, mem2: Memory, root: nat, lo: nat, hi: nat, v: nat, target: Option<nat>)
    requires OutsideKept(mem0, mem1, root, lo, hi) && Remapped(mem1, mem2, root, v, target)
    requires v / PAGE == hi && lo <= hi
    ensures OutsideKept(mem0, mem2, root, lo, hi + 1)
  {
    hide Walk, Canonical;
    assert forall u: nat :: Canonical(u) && !(lo <= u / PAGE < hi + 1) ==> Walk(mem2, root, u) == Walk(mem1, root, u);
  }

  /** A range that was and is unmapped has not changed at all. */
  lemma RangeRestored(mem0: Memory, mem1: Memory, mem2: Memory, root: nat, lo: nat, hi: nat)
    requires OutsideKept(mem0, mem1, root, lo, hi) && OutsideKept(mem1, mem2, root, lo, hi)
    ensures OutsideKept(mem0, mem2, root, lo, hi)
  {
    hide Walk, Canonical;
    assert forall u: nat :: Canonical(u) && !(lo <= u / PAGE < hi) ==> Walk(mem2, root, u) == Walk(mem1, root, u);
  }

  lemma HeapLeaf(mem: Memory, root: nat, tab: Tables, free: set<nat>, leaves: map<nat, nat>, nextPage: nat,
                 maxPages: nat, switched: bool, v: nat)
    requires Sound(mem, root, tab, free, maxPages, switched)
    requires Owned(mem, root, tab, free, leaves, nextPage, maxPages) && HEAP_PAGE <= v / PAGE < HEAP_LIMIT
    ensures Canonical(v) && !InWindow(v, maxPages)
    ensures Walk(mem, root, v) == if v / PAGE in leaves then Some(leaves[v / PAGE]) else None
    ensures v / PAGE in leaves ==>
              var f := leaves[v / PAGE]; 0 < f < maxPages && f !in free && f !in tab.Values
  {
    hide Walk, Tree;
    SamePageWalk(mem, root, tab, v, PageAddr(v / PAGE));
  }

  lemma FreeMore(mem: Memory, root: nat, tab: Tables, free: set<nat>, maxPages: nat, switched: bool, f: nat)
    requires Sound(mem, root, tab, free, maxPages, switched) && 0 < f < maxPages && f !in tab.Values
    ensures Sound(mem, root, tab, free + {f}, maxPages, switched)
  {
    hide Tree, Walk;
  }

  /** Only which page v is on matters. */
  lemma RemappedSame(mem: Memory, mem': Memory, root: nat, v: nat, u: nat, target: Option<nat>)
    requires Remapped(mem, mem', root, v, target) && u / PAGE == v / PAGE
    ensures Remapped(mem, mem', root, u, target)
  {
  }

  ghost function FramesIn(leaves: map<nat, nat>, lo: nat, hi: nat): set<nat> {
    set p | p in leaves && lo <= p < hi :: leaves[p]
  }

  lemma FramesSplit(leaves: map<nat, nat>, lo: nat, hi: nat)
    requires lo <= hi
    ensures FramesIn(leaves, lo, hi + 1) == FramesIn(leaves, lo, hi) + FramesIn(leaves - Range(lo, hi), hi, hi + 1)
  {
    var rest := leaves - Range(lo, hi);
    assert hi in rest <==> hi in leaves;
    if hi in leaves {
      assert rest[hi] == leaves[hi] && rest[hi] in FramesIn(rest, hi, hi + 1);
      assert FramesIn(rest, hi, hi + 1) == {leaves[hi]};
    } else {
      assert FramesIn(rest, hi, hi + 1) == {};
    }
    forall f | f in FramesIn(leaves, lo, hi + 1)
      ensures f in FramesIn(leaves, lo, hi) || (hi in leaves && f == leaves[hi])
    {
      var p :| p in leaves && lo <= p < hi + 1 && leaves[p] == f;
      assert p < hi ==> f in FramesIn(leaves, lo, hi);
    }
  }

  lemma NothingMoved(mem: Memory, root: nat, tab: Tables, lo: nat)
    ensures OutsideKept(mem, mem, root, lo, lo) && DataKept(mem, mem, tab)
  {
  }

  /** The pages in leaves keep their contents. */
  ghost predicate ContentsKept(mem: Memory, mem': Memory, leaves: map<nat, nat>) {
    forall p :: p in leaves && leaves[p] in mem ==> leaves[p] in mem' && mem'[leaves[p]] == mem[leaves[p]]
  }

  lemma ContentsFromData(mem: Memory, mem': Memory, root: nat, tab': Tables, free': set<nat>, leaves: map<nat, nat>,
                         more: map<nat, nat>, p: nat, f: nat, nextPage: nat, maxPages: nat)
    requires DataKept(mem, mem', tab') && more == leaves[p := f] && p !in leaves
    requires Owned(mem', root, tab', free', more, nextPage, maxPages)
    ensures ContentsKept(mem, mem', leaves)
    ensures ContentsKept(mem, mem'[f := Zeros()], leaves)
  {
    hide Walk, Zeros;
    assert p in more && more[p] == f;
    forall q | q in leaves
      ensures leaves[q] != f && leaves[q] !in tab'.Values
    {
      assert q in more && more[q] == leaves[q];
    }
  }

  lemma ContentsTrans(mem0: Memory, mem1: Memory, mem2: Memory, leaves: map<nat, nat>, more: map<nat, nat>)
    requires ContentsKept(mem0, mem1, leaves) && ContentsKept(mem1, mem2, more)
    requires forall p :: p in leaves ==> p in more && more[p] == leaves[p]
    ensures ContentsKept(mem0, mem2, leaves)
  {
  }

  lemma ContentsWithoutTables(mem: Memory, mem': Memory, root: nat, tab: Tables, free: set<nat>,
                              leaves: map<nat, nat>, nextPage: nat, maxPages: nat)
    requires DataKept(mem, mem', tab) && Owned(mem, root, tab, free, leaves, nextPage, maxPages)
    ensures ContentsKept(mem, mem', leaves)
  {
    hide Walk;
  }

  /** The pages of a range all lead to zeroed frames taken from the set free. */
  ghost predicate FreshPages(mem: Memory, leaves: map<nat, nat>, lo: nat, hi: nat, free: set<nat>, zero: bool) {
    forall p: nat :: lo <= p < hi ==>
      p in leaves && leaves[p] in free && leaves[p] in mem && (zero ==> mem[leaves[p]] == Zeros())
  }

  /** Leaves only grew, by exactly the pages lo to hi. */
  ghost predicate PagesAdded(leaves: map<nat, nat>, leaves': map<nat, nat>, lo: nat, hi: nat) {
    leaves'.Keys == leaves.Keys + Range(lo, hi) && leaves' - Range(lo, hi) == leaves
  }

  lemma OneMorePage(mem: Memory, mem': Memory, before: map<nat, nat>, leaves: map<nat, nat>, lo: nat, hi: nat,
                    f: nat, free: set<nat>, zero: bool)
    requires FreshPages(mem, leaves, lo, hi, free, zero) && PagesAdded(before, leaves, lo, hi) && lo <= hi
    requires hi !in leaves && f in free && f in mem' && (zero ==> mem'[f] == Zeros())
    requires ContentsKept(mem, mem', leaves)
    ensures FreshPages(mem', leaves[hi := f], lo, hi + 1, free, zero)
    ensures PagesAdded(before, leaves[hi := f], lo, hi + 1)
  {
    hide Zeros;
    assert Range(lo, hi + 1) == Range(lo, hi) + {hi};
    assert leaves[hi := f] - Range(lo, hi + 1) == leaves - Range(lo, hi);
  }

  /** vallocs after i pages from lo on. */
  ghost predicate Allocating(mem0: Memory, leaves0: map<nat, nat>, free0: set<nat>, mem: Memory, root: nat,
                             leaves: map<nat, nat>, free: set<nat>, lo: nat, i: nat, zero: bool) {
    && free <= free0 && |free| + i <= |free0|
    && ContentsKept(mem0, mem, leaves0) && PagesAdded(leaves0, leaves, lo, lo + i)
    && FreshPages(mem, leaves, lo, lo + i, free0, zero) && OutsideKept(mem0, mem, root, lo, lo + i)
  }

  lemma AllocatingMore(mem0: Memory, leaves0: map<nat, nat>, free0: set<nat>, mem: Memory, root: nat,
                       leaves: map<nat, nat>, free: set<nat>, lo: nat, i: nat, zero: bool,
                       mem': Memory, free': set<nat>, v: nat, f: nat)
    requires Allocating(mem0, leaves0, free0, mem, root, leaves, free, lo, i, zero)
    requires v / PAGE == lo + i && lo + i !in leaves && f in free && free' <= free - {f}
    requires f in mem' && (zero ==> mem'[f] == Zeros()) && ContentsKept(mem, mem', leaves)
    requires Remapped(mem, mem', root, v, Some(f))
    ensures Allocating(mem0, leaves0, free0, mem', root, leaves[lo + i := f], free', lo, i + 1, zero)
  {
    hide ContentsKept, PagesAdded, FreshPages, OutsideKept, Remapped, Zeros;
    OneMorePage(mem, mem', leaves0, leaves, lo, lo + i, f, free0, zero);
    RangeGrows(mem0, mem, mem', root, lo, lo + i, v, Some(f));
    OldPagesStay(leaves0, leaves, lo, lo + i);
    ContentsTrans(mem0, mem, mem', leaves0, leaves);
    OneLess(free, free', f);
  }

  lemma AllocatingParts(mem0: Memory, leaves0: map<nat, nat>, free0: set<nat>, mem: Memory, root: nat,
                        leaves: map<nat, nat>, free: set<nat>, lo: nat, i: nat, zero: bool)
    requires Allocating(mem0, leaves0, free0, mem, root, leaves, free, lo, i, zero)
    ensures free <= free0 && |free| + i <= |free0|
    ensures ContentsKept(mem0, mem, leaves0) && PagesAdded(leaves0, leaves, lo, lo + i)
    ensures FreshPages(mem, leaves, lo, lo + i, free0, zero) && OutsideKept(mem0, mem, root, lo, lo + i)
  {
  }

  lemma AllocatingNone(mem: Memory, root: nat, leaves: map<nat, nat>, free: set<nat>, lo: nat, zero: bool)
    requires PagesAdded(leaves, leaves, lo, lo) && FreshPages(mem, leaves, lo, lo, free, zero)
    requires ContentsKept(mem, mem, leaves) && OutsideKept(mem, mem, root, lo, lo)
    ensures Allocating(mem, leaves, free, mem, root, leaves, free, lo, 0, zero)
  {
    hide ContentsKept, PagesAdded, FreshPages, OutsideKept;
  }

  /** Pages that no leaf backs translate to nothing. */
  lemma RangeUnmapped(mem: Memory, mem': Memory, root: nat, tab: Tables, free: set<nat>, tab': Tables, free': set<nat>,
                      leaves: map<nat, nat>, lo: nat, hi: nat, next: nat, next': nat, maxPages: nat)
    requires Tree(mem, root, tab, false) && Tree(mem', root, tab', false)
    requires Owned(mem, root, tab, free, leaves, next, maxPages) && Owned(mem', root, tab', free', leaves, next', maxPages)
    requires OutsideKept(mem, mem', root, lo, hi) && next <= lo && HEAP_PAGE <= lo <= hi <= HEAP_LIMIT
    ensures OutsideKept(mem, mem', root, lo, lo)
  {
    hide Walk, Tree, Canonical, PageAddr;
    forall u: nat | Canonical(u) && lo <= u / PAGE < hi
      ensures Walk(mem', root, u) == Walk(mem, root, u)
    {
      HeapAddress(u / PAGE, maxPages);
      SamePageWalk(mem, root, tab, u, PageAddr(u / PAGE));
      SamePageWalk(mem', root, tab', u, PageAddr(u / PAGE));
    }
  }

  lemma OwnedBound(mem: Memory, root: nat, tab: Tables, free: set<nat>, leaves: map<nat, nat>,
                   next: nat, maxPages: nat)
    requires Owned(mem, root, tab, free, leaves, next, maxPages)
    ensures forall p :: p in leaves ==> p < next
  {
  }

  lemma OwnedNextPage(mem: Memory, root: nat, tab: Tables, free: set<nat>, leaves: map<nat, nat>,
                      next: nat, next': nat, maxPages: nat)
    requires Owned(mem, root, tab, free, leaves, next, maxPages)
    requires forall p :: p in leaves ==> p < next'
    ensures Owned(mem, root, tab, free, leaves, next', maxPages)
  {
    hide Walk, PageAddr;
  }

  lemma FreeLess(mem: Memory, root: nat, tab: Tables, free: set<nat>, maxPages: nat, switched: bool, f: nat)
    requires Sound(mem, root, tab, free, maxPages, switched) && f in free
    ensures Sound(mem, root, tab, free - {f}, maxPages, switched)
    ensures 0 < f < maxPages <= TWO_52 / PAGE && f !in tab.Values && FrameOf(f * PAGE) == f
  {
    hide Tree, Walk;
  }

  lemma FewerFree(tab: Tables, free: set<nat>, tab': Tables, free': set<nat>)
    requires Grown(tab, free, tab', free')
    ensures free' <= free && |free'| <= |free|
  {
    SubsetSize(free', free);
  }

  lemma SubsetSize<T>(a: set<T>, b: set<T>)
    requires a <= b
    ensures |a| <= |b|
  {
    assert b == a + (b - a);
  }

  /** A page with a leaf translates, and its frame is ordinary memory. */
  lemma PageBacked(mem: Memory, root: nat, tab: Tables, free: set<nat>, leaves: map<nat, nat>, p: nat,
                   nextPage: nat, maxPages: nat, switched: bool)
    requires Sound(mem, root, tab, free, maxPages, switched)
    requires Owned(mem, root, tab, free, leaves, nextPage, maxPages) && p in leaves
    ensures Walk(mem, root, PageAddr(p)) == Some(leaves[p])
    ensures leaves[p] in mem && |mem[leaves[p]]| == ENTRIES && leaves[p] !in tab.Values && leaves[p] < maxPages
  {
    hide Tree, Walk, PageAddr;
  }

  lemma NothingAdded(mem: Memory, root: nat, tab: Tables, leaves: map<nat, nat>, lo: nat)
    ensures OutsideKept(mem, mem, root, lo, lo) && ContentsKept(mem, mem, leaves)
    ensures PagesAdded(leaves, leaves, lo, lo)
    ensures forall free, zero :: FreshPages(mem, leaves, lo, lo, free, zero)
  {
    assert Range(lo, lo) == {};
  }

  lemma PageAddrAt(start: nat, lo: nat, i: nat)
    requires start == PageAddr(lo) || (start / PAGE == lo && start % PAGE == 0)
    ensures start == PageAddr(lo) && start / PAGE == lo && start % PAGE == 0
    ensures start + i * PAGE == PageAddr(lo + i) && (start + i * PAGE) / PAGE == lo + i
    ensures (start + i * PAGE) % PAGE == 0
  {
  }

  lemma OneLess(free: set<nat>, free': set<nat>, f: nat)
    requires f in free && free' <= free - {f}
    ensures |free'| + 1 <= |free|
  {
    SubsetSize(free', free - {f});
  }

  lemma OldPagesStay(leaves: map<nat, nat>, leaves': map<nat, nat>, lo: nat, hi: nat)
    requires PagesAdded(leaves, leaves', lo, hi)
    ensures forall p :: p in leaves ==> p in leaves' && leaves'[p] == leaves[p]
  {
    forall p | p in leaves
      ensures p in leaves' && leaves'[p] == leaves[p]
    {
      assert p in leaves' - Range(lo, hi);
    }
  }

  lemma FramesInRange(leaves: map<nat, nat>, lo: nat, hi: nat)
    requires lo <= hi
    ensures |FramesIn(leaves, lo, hi)| <= hi - lo
    decreases hi
  {
    if lo == hi {
      assert FramesIn(leaves, lo, hi) == {};
    } else {
      FramesInRange(leaves, lo, hi - 1);
      var less := FramesIn(leaves, lo, hi - 1);
      if hi - 1 in leaves {
        assert FramesIn(leaves, lo, hi) == less + {leaves[hi - 1]};
      } else {
        assert FramesIn(leaves, lo, hi) == less;
      }
    }
  }

  lemma SoundTree(mem: Memory, root: nat, tab: Tables, free: set<nat>, maxPages: nat, switched: bool)
    requires Sound(mem, root, tab, free, maxPages, switched)
    ensures Tree(mem, root, tab, false)
  {
  }

  /** What is left of a vallocs that ran out of frames after i pages. */
  lemma RolledBack(mem0: Memory, tab0: Tables, free0: set<nat>, leaves0: map<nat, nat>,
                   mem1: Memory, leaves1: map<nat, nat>,
                   mem2: Memory, root: nat, tab2: Tables, free2: set<nat>, leaves2: map<nat, nat>,
                   lo: nat, i: nat, maxPages: nat, switched: bool)
    requires Sound(mem0, root, tab0, free0, maxPages, switched)
    requires Owned(mem0, root, tab0, free0, leaves0, lo, maxPages)
    requires PagesAdded(leaves0, leaves1, lo, lo + i) && leaves2 == leaves1 - Range(lo, lo + i)
    requires Sound(mem2, root, tab2, free2, maxPages, switched)
    requires Owned(mem2, root, tab2, free2, leaves2, lo + i, maxPages)
    requires Owned(mem1, root, tab2, {}, leaves1, lo + i, maxPages)
    requires OutsideKept(mem0, mem1, root, lo, lo + i) && OutsideKept(mem1, mem2, root, lo, lo + i)
    requires ContentsKept(mem0, mem1, leaves0) && DataKept(mem1, mem2, tab2)
    requires free2 == FramesIn(leaves1, lo, lo + i) && HEAP_PAGE <= lo && lo + i <= HEAP_LIMIT
    ensures leaves2 == leaves0 && |free2| <= i
    ensures Owned(mem2, root, tab2, free2, leaves2, lo, maxPages)
    ensures OutsideKept(mem0, mem2, root, lo, lo) && ContentsKept(mem0, mem2, leaves0)
  {
    hide Sound, Owned, OutsideKept, ContentsKept, DataKept, Range, FramesIn;
    SoundTree(mem0, root, tab0, free0, maxPages, switched);
    SoundTree(mem2, root, tab2, free2, maxPages, switched);
    assert leaves2 == leaves0;
    OwnedBound(mem0, root, tab0, free0, leaves0, lo, maxPages);
    FramesInRange(leaves1, lo, lo + i);
    OwnedNextPage(mem2, root, tab2, free2, leaves2, lo + i, lo, maxPages);
    RangeRestored(mem0, mem1, mem2, root, lo, lo + i);
    RangeUnmapped(mem0, mem2, root, tab0, free0, tab2, free2, leaves0, lo, lo + i, lo, lo, maxPages);
    ContentsWithoutTables(mem1, mem2, root, tab2, {}, leaves1, lo + i, maxPages);
    OldPagesStay(leaves0, leaves1, lo, lo + i);
    ContentsTrans(mem0, mem1, mem2, leaves0, leaves1);
  }

  lemma RemappedThenSame(mem0: Memory, mem1: Memory, mem2: Memory, root: nat, v: nat, target: Option<nat>)
    requires Remapped(mem0, mem1, root, v, target) && SameWalks(mem1, mem2, root)
    ensures Remapped(mem0, mem2, root, v, target)
  {
    hide Walk, Canonical;
    assert forall u :: Walk(mem2, root, u) == Walk(mem1, root, u);
  }

  // ---------------------------------------------------------------------
  // Consequences
  // ---------------------------------------------------------------------

  /** No frame has two owners: free, page table, leaf of one heap page. */
  lemma OneOwner(mem: Memory, root: nat, tab: Tables, free: set<nat>, leaves: map<nat, nat>,
                 nextPage: nat, maxPages: nat, switched: bool, f: nat)
    requires Sound(mem, root, tab, free, maxPages, switched)
    requires Owned(mem, root, tab, free, leaves, nextPage, maxPages)
    requires f in Pool(tab, free, leaves)
    ensures 0 < f < maxPages
    ensures f in free ==> f !in tab.Values && f !in leaves.Values
    ensures f in tab.Values ==> f !in leaves.Values
    ensures f in tab.Values ==> exists n :: n in tab && tab[n] == f && forall m :: m in tab && tab[m] == f ==> m == n
    ensures forall p: nat, q: nat | HEAP_PAGE <= p < HEAP_LIMIT && HEAP_PAGE <= q < HEAP_LIMIT ::
              (Walk(mem, root, PageAddr(p)) == Walk(mem, root, PageAddr(q)) == Some(f) ==> p == q)
  {
    hide Walk, Linked, CleanLeaf, PageAddr;
    if f in tab.Values {
      var n :| n in tab && tab[n] == f;
    }
  }

  /** A contiguous heap cannot outgrow its window: each of its pages holds a
      frame of its own and the window has more pages than there are frames. */
  lemma HeapFitsWindow(mem: Memory, root: nat, tab: Tables, free: set<nat>, leaves: map<nat, nat>,
                       nextPage: nat, maxPages: nat)
    requires Sound(mem, root, tab, free, maxPages, true)
    requires Owned(mem, root, tab, free, leaves, nextPage, maxPages)
    requires HEAP_PAGE <= nextPage && forall p: nat :: HEAP_PAGE <= p < nextPage ==> p in leaves
    ensures nextPage + |free| < HEAP_LIMIT
  {
    hide Walk, Tree, Passthru;
    var values := FramesIn(leaves, HEAP_PAGE, nextPage);
    ValuesDistinct(leaves, HEAP_PAGE, nextPage);
    BelowSize(maxPages);
    SubsetSize(values + free, Range(0, maxPages));
    assert values !! free;
    assert |values + free| == |values| + |free|;
    assert maxPages <= 0x8_0000 by { WindowSize(mem, root, tab, free, maxPages); }
  }

  lemma WindowSize(mem: Memory, root: nat, tab: Tables, free: set<nat>, maxPages: nat)
    requires Sound(mem, root, tab, free, maxPages, true)
    ensures maxPages <= 0x8_0000
  {
    hide Walk, Tree;
  }

  lemma ValuesDistinct(leaves: map<nat, nat>, lo: nat, hi: nat)
    requires lo <= hi && forall p: nat :: lo <= p < hi ==> p in leaves
    requires forall p, q :: p in leaves && q in leaves && leaves[p] == leaves[q] ==> p == q
    ensures |FramesIn(leaves, lo, hi)| == hi - lo
    decreases hi
  {
    if lo == hi {
      assert FramesIn(leaves, lo, hi) == {};
    } else {
      ValuesDistinct(leaves, lo, hi - 1);
      var less := FramesIn(leaves, lo, hi - 1);
      assert FramesIn(leaves, lo, hi) == less + {leaves[hi - 1]};
      assert leaves[hi - 1] !in less;
    }
  }

  lemma BelowSize(n: nat)
    ensures |Range(0, n)| == n
  {
    if n == 0 {
      assert Range(0, n) == {};
    } else {
      BelowSize(n - 1);
      assert Range(0, n) == Range(0, n - 1) + {n - 1};
    }
  }
}
