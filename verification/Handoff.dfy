/** The page tables the bootloader hands over (bootloader/uefi.c): an identity map of the
    first 512 GiB with 2 MiB leaves, and 4 KiB leaves for what lies above. */
module Handoff {
  import opened Common
  import opened Paging

  const IDENTITY_SIZE: nat := 0x80_0000_0000
  const IDENTITY_PAGES: nat := 0x800_0000

  // ---------------------------------------------------------------------
  // 2 MiB leaves
  // ---------------------------------------------------------------------

  /** A present, writable 2 MiB leaf for a 2 MiB aligned address. */
  function HugePte(phys: nat): nat { phys + 0x83 }

  lemma HugePteFields(k: nat)
    requires k * HUGE_PAGE < TWO_52
    ensures var w := HugePte(k * HUGE_PAGE);
            Present(w) && Huge(w) && FrameOf(w) == k * 512 && w % 0x1000 == 0x83
  {
    var w := HugePte(k * HUGE_PAGE);
    assert w == 0x1000 * (k * 512) + 0x83;
    assert w == 0x80 * (k * 0x4000 + 1) + 3;
  }

  /** Writing a 2 MiB leaf into an absent entry of a page directory. */
  ghost predicate HugeSlot(mem: Memory, root: nat, tab: Tables, n: Node, i: nat) {
    && Tree(mem, root, tab, true)
    && n in tab && Depth(n) == 2 && i < ENTRIES && !Present(Word(mem, tab[n], i))
    && tab[n] in mem && |mem[tab[n]]| == ENTRIES
  }

  lemma SetWordWords(mem: Memory, frame: nat, i: nat, w: nat)
    requires frame in mem && i < |mem[frame]|
    ensures var mem' := SetWord(mem, frame, i, w);
            && mem'.Keys == mem.Keys
            && (forall f :: f in mem ==> |mem'[f]| == |mem[f]|)
            && (forall f :: f in mem && f != frame ==> mem'[f] == mem[f])
            && forall f, k: nat :: Word(mem', f, k) == if f == frame && k == i then w else Word(mem, f, k)
  {
  }

  lemma SetHugeTree(mem: Memory, root: nat, tab: Tables, n: Node, i: nat, w: nat)
    requires HugeSlot(mem, root, tab, n, i) && Present(w) && Huge(w)
    ensures Tree(SetWord(mem, tab[n], i, w), root, tab, true)
  {
    hide FrameOf, Huge, Present, SetWord, Word;
    SetWordWords(mem, tab[n], i, w);
    var mem' := SetWord(mem, tab[n], i, w);
    assert Linked(mem, tab, n, i, true);
    forall m, k: nat | m in tab && Depth(m) < 3 && k < ENTRIES
      ensures Linked(mem', tab, m, k, true)
    {
      assert Linked(mem, tab, m, k, true);
    }
    forall m, k: nat | m in tab && Depth(m) == 3 && k < ENTRIES
      ensures CleanLeaf(mem', tab, m, k)
    {
      assert CleanLeaf(mem, tab, m, k);
    }
  }

  lemma SetHugeLookup(mem: Memory, root: nat, tab: Tables, n: Node, i: nat, w: nat, u: nat)
    requires HugeSlot(mem, root, tab, n, i) && Present(w) && Huge(w)
    ensures Lookup(SetWord(mem, tab[n], i, w), tab, u) ==
            if PtNode(u).up == n && PdIndex(u) == i then Some(FrameOf(w) / 512 * 512 + PtIndex(u))
            else Lookup(mem, tab, u)
  {
    hide FrameOf, Huge, Present, SetWord, Word, Pml4Index, PdptIndex, PdIndex, PtIndex;
    SetWordWords(mem, tab[n], i, w);
    assert Linked(mem, tab, n, i, true);
    PtDepth(u);
  }

  lemma SetHugeWalk(mem: Memory, root: nat, tab: Tables, n: Node, i: nat, w: nat, u: nat)
    requires HugeSlot(mem, root, tab, n, i) && Present(w) && Huge(w)
    ensures Walk(SetWord(mem, tab[n], i, w), root, u) ==
            if PtNode(u).up == n && PdIndex(u) == i then Some(FrameOf(w) / 512 * 512 + PtIndex(u))
            else Walk(mem, root, u)
  {
    SetHugeTree(mem, root, tab, n, i, w);
    WalkInTree(mem, root, tab, true, u);
    WalkInTree(SetWord(mem, tab[n], i, w), root, tab, true, u);
    SetHugeLookup(mem, root, tab, n, i, w, u);
    hide *;
  }

  const LOW: Node := Sub(Top, 0)

  /** Entry i of the j-th directory below the first PML4 entry serves the 2 MiB page j * 512 + i. */
  lemma HugeIndices(u: nat, j: nat, i: nat)
    requires Canonical(u) && j < 512 && i < 512
    ensures PtNode(u).up == Sub(LOW, j) && PdIndex(u) == i <==> u / HUGE_PAGE == j * 512 + i
    ensures u / PAGE == u / HUGE_PAGE * 512 + PtIndex(u)
  {
    var h := u / HUGE_PAGE;
    PdIndexIsDigit(u);
    assert u / 0x4000_0000 == h / 512;
    assert u / 0x80_0000_0000 == h / 512 / 512;
    if PtNode(u).up == Sub(LOW, j) && PdIndex(u) == i {
      assert Pml4Index(u) == 0 && PdptIndex(u) == j;
      FirstHalf(u);
    }
  }

  lemma FirstHalf(u: nat)
    requires Canonical(u) && Pml4Index(u) == 0
    ensures u < IDENTITY_SIZE
  {
  }

  // ---------------------------------------------------------------------
  // What the tables promise
  // ---------------------------------------------------------------------

  /** Any address that translates translates to itself. */
  ghost predicate Identity(mem: Memory, root: nat) {
    forall u: nat :: Canonical(u) && Walk(mem, root, u).Some? ==> Walk(mem, root, u) == Some(u / PAGE)
  }

  /** The first count 2 MiB pages translate to themselves, and nothing else translates. */
  ghost predicate Exactly(mem: Memory, root: nat, count: nat) {
    forall u: nat :: Canonical(u) ==> Walk(mem, root, u) == if u / HUGE_PAGE < count then Some(u / PAGE) else None
  }

  /** All of the first 512 GiB translates. */
  ghost predicate Covers(mem: Memory, root: nat) {
    forall u: nat :: u < IDENTITY_SIZE ==> Walk(mem, root, u) == Some(u / PAGE)
  }

  lemma ExactlyIdentity(mem: Memory, root: nat, count: nat)
    requires Exactly(mem, root, count)
    ensures Identity(mem, root)
    ensures count == 0x4_0000 ==> Covers(mem, root)
  {
    hide Walk;
    forall u: nat | u < IDENTITY_SIZE
      ensures count == 0x4_0000 ==> Walk(mem, root, u) == Some(u / PAGE)
    {
      assert Canonical(u) && u / HUGE_PAGE < 0x4_0000;
    }
  }

  /** Another directory entry: one 2 MiB page more. */
  lemma OneMore(mem: Memory, root: nat, tab: Tables, j: nat, i: nat)
    requires j < 512 && i < 512 && HugeSlot(mem, root, tab, Sub(LOW, j), i)
    requires Exactly(mem, root, j * 512 + i)
    ensures var w := HugePte((j * 512 + i) * HUGE_PAGE);
            Exactly(SetWord(mem, tab[Sub(LOW, j)], i, w), root, j * 512 + i + 1)
  {
    hide Walk, SetWord, Present, Huge, FrameOf, Tree, HugePte, Pml4Index, PdptIndex, PdIndex, PtIndex, Canonical;
    var w := HugePte((j * 512 + i) * HUGE_PAGE);
    HugePteFields(j * 512 + i);
    forall u: nat | Canonical(u)
      ensures Walk(SetWord(mem, tab[Sub(LOW, j)], i, w), root, u) ==
              if u / HUGE_PAGE < j * 512 + i + 1 then Some(u / PAGE) else None
    {
      SetHugeWalk(mem, root, tab, Sub(LOW, j), i, w, u);
      HugeIndices(u, j, i);
      Whole(j * 512 + i);
    }
  }

  lemma Whole(k: nat)
    ensures k * 512 / 512 * 512 == k * 512
  {
  }

  // ---------------------------------------------------------------------
  // 4 KiB leaves above the first 512 GiB
  // ---------------------------------------------------------------------

  const PAGES_48: nat := 0x10_0000_0000
  const PAGES_47: nat := 0x8_0000_0000

  /** The canonical address that has the four indices of physical page k: the same
      address below 2^47, its sign extension above. */
  function AddressOf(k: nat): nat
    requires k < PAGES_48
  {
    (if k < PAGES_47 then k else k + 0xF_FFF0_0000_0000) * PAGE
  }

  lemma AddressPage(k: nat, u: nat)
    requires k < PAGES_48 && Canonical(u)
    ensures Canonical(AddressOf(k))
    ensures u / PAGE == AddressOf(k) / PAGE <==> u / PAGE % PAGES_48 == k
  {
    var p := AddressOf(k) / PAGE;
    assert AddressOf(k) == p * PAGE && p % PAGES_48 == k;
    if u / PAGE % PAGES_48 == k {
      CanonicalPage(AddressOf(k), u);
    }
  }

  lemma Carry(p: nat, c: nat)
    ensures (p + 512 * c) / 512 == p / 512 + c && (p + 512 * c) % 512 == p % 512
  {
  }

  /** A multiple of 2^36 pages does not show in the four indices. */
  lemma HighPages(p: nat, c: nat)
    ensures var q := p + PAGES_48 * c;
            && q % 512 == p % 512 && q / 512 % 512 == p / 512 % 512
            && q / 512 / 512 % 512 == p / 512 / 512 % 512
            && q / 512 / 512 / 512 % 512 == p / 512 / 512 / 512 % 512
  {
    Carry(p, 0x800_0000 * c);
    Carry(p / 512, 0x4_0000 * c);
    Carry(p / 512 / 512, 512 * c);
    Carry(p / 512 / 512 / 512, c);
  }

  lemma Digits(v: nat)
    ensures Pml4Index(v) == v / PAGE / 512 / 512 / 512 % 512 && PdptIndex(v) == v / PAGE / 512 / 512 % 512
    ensures PdIndex(v) == v / PAGE / 512 % 512 && PtIndex(v) == v / PAGE % 512
  {
    PdIndexIsDigit(v);
    PdptIndexIsDigit(v);
    Pml4IndexIsDigit(v);
  }

  lemma AddressIndices(k: nat)
    requires k < PAGES_48
    ensures PtNode(AddressOf(k)) == PtNode(k * PAGE) && PtIndex(AddressOf(k)) == PtIndex(k * PAGE)
    ensures k >= IDENTITY_PAGES ==> Pml4Index(k * PAGE) != 0
  {
    hide Pml4Index, PdptIndex, PdIndex, PtIndex;
    Digits(AddressOf(k));
    Digits(k * PAGE);
    HighPages(k, 0xFFFF);
    assert k * PAGE / PAGE == k;
    if k >= IDENTITY_PAGES {
      TopDigit(k);
    }
  }

  lemma TopDigit(k: nat)
    requires IDENTITY_PAGES <= k < PAGES_48
    ensures k / 512 / 512 / 512 % 512 != 0
  {
  }

  lemma FirstEntryIff(k: nat)
    ensures Pml4Index(k * PAGE) == 0 <==> k % PAGES_48 < IDENTITY_PAGES
  {
    hide Pml4Index, PdptIndex, PdIndex, PtIndex;
    Digits(k * PAGE);
    assert k * PAGE / PAGE == k;
    var c, r := k / PAGES_48, k % PAGES_48;
    HighPages(r, c);
    if r >= IDENTITY_PAGES {
      TopDigit(r);
    }
  }

  /** 2 MiB leaves stand only below the first PML4 entry. */
  ghost predicate HugeLow(mem: Memory, tab: Tables) {
    forall n, i: nat :: n in tab && Depth(n) == 2 && i < ENTRIES && n.up != LOW ==>
      !(Present(Word(mem, tab[n], i)) && Huge(Word(mem, tab[n], i)))
  }

  /** No page table stands below the first PML4 entry. */
  ghost predicate NoLowPt(tab: Tables) {
    forall n :: n in tab && Depth(n) == 3 ==> n.up.Sub? && n.up.up != LOW
  }

  /** The walk of v ends at a 2 MiB leaf. */
  predicate MeetsHuge(mem: Memory, root: nat, v: nat) {
    var e4 := Word(mem, root, Pml4Index(v));
    var e3 := Word(mem, FrameOf(e4), PdptIndex(v));
    var e2 := Word(mem, FrameOf(e3), PdIndex(v));
    Present(e4) && Present(e3) && Present(e2) && Huge(e2)
  }

  lemma MeetsHugeInTree(mem: Memory, root: nat, tab: Tables, v: nat)
    requires Tree(mem, root, tab, true)
    ensures MeetsHuge(mem, root, v) <==>
            PtNode(v).up in tab && Present(Word(mem, tab[PtNode(v).up], PdIndex(v)))
                                && Huge(Word(mem, tab[PtNode(v).up], PdIndex(v)))
    ensures PtNode(v) !in tab && Walk(mem, root, v).Some? ==> MeetsHuge(mem, root, v)
  {
    hide FrameOf, Huge, Present, Word;
    var n1 := Sub(Top, Pml4Index(v));
    var n2 := Sub(n1, PdptIndex(v));
    Indices(v);
    assert Linked(mem, tab, Top, Pml4Index(v), true);
    if n1 in tab {
      assert Linked(mem, tab, n1, PdptIndex(v), true);
      if n2 in tab {
        assert Linked(mem, tab, n2, PdIndex(v), true);
      }
    }
  }

  /** In the tables handed over, the walk of a page meets a 2 MiB leaf exactly if its number
      is below 2^27 modulo 2^36: skipping the first 512 GiB keeps clear of them up to 2^48. */
  lemma MeetsHugeIff(mem: Memory, root: nat, tab: Tables, taken: set<nat>, k: nat)
    requires Sound(mem, root, tab, taken) && Covers(mem, root)
    ensures MeetsHuge(mem, root, k * PAGE) <==> k % PAGES_48 < IDENTITY_PAGES
  {
    hide MeetsHuge, Walk, Pml4Index, PdptIndex, PdIndex, PtIndex, Tree;
    var v, r := k * PAGE, k % PAGES_48;
    FirstEntryIff(k);
    Indices(v);
    PtDepth(v);
    MeetsHugeInTree(mem, root, tab, v);
    if r < IDENTITY_PAGES {
      SameIndices(k, r);
      SameWalk(mem, root, v, r * PAGE);
      assert Walk(mem, root, r * PAGE).Some?;
    }
  }

  lemma SameIndices(k: nat, r: nat)
    requires r == k % PAGES_48
    ensures Pml4Index(k * PAGE) == Pml4Index(r * PAGE) && PdptIndex(k * PAGE) == PdptIndex(r * PAGE)
    ensures PdIndex(k * PAGE) == PdIndex(r * PAGE) && PtIndex(k * PAGE) == PtIndex(r * PAGE)
  {
    hide Pml4Index, PdptIndex, PdIndex, PtIndex;
    Digits(k * PAGE);
    Digits(r * PAGE);
    HighPages(r, k / PAGES_48);
    assert k * PAGE / PAGE == k && r * PAGE / PAGE == r;
  }

  lemma SameWalk(mem: Memory, root: nat, u: nat, v: nat)
    requires Pml4Index(u) == Pml4Index(v) && PdptIndex(u) == PdptIndex(v)
    requires PdIndex(u) == PdIndex(v) && PtIndex(u) == PtIndex(v)
    ensures Walk(mem, root, u) == Walk(mem, root, v)
  {
  }

  lemma AddTableLow(mem: Memory, root: nat, tab: Tables, n: Node, i: nat, child: nat)
    requires Vacant(mem, root, tab, true, n, i, child) && HugeLow(mem, tab)
    ensures HugeLow(AddTable(mem, tab, n, i, child), tab[Sub(n, i) := child])
  {
    hide Tree, FrameOf, Huge, Present, Pte, AddTable, Word;
    InTree(mem, root, tab, n);
    PteOfFrame(child);
    var mem', tab' := AddTable(mem, tab, n, i, child), tab[Sub(n, i) := child];
    ZeroAbsent();
    forall m, k: nat | m in tab' && Depth(m) == 2 && k < ENTRIES && m.up != LOW
      ensures !(Present(Word(mem', tab'[m], k)) && Huge(Word(mem', tab'[m], k)))
    {
      AddTableWord(mem, tab, n, i, child, tab'[m], k);
      VacantSlot(mem, root, tab, n, i, child);
    }
  }

  lemma ZeroAbsent()
    ensures !Present(0)
  {
  }

  lemma InTree(mem: Memory, root: nat, tab: Tables, n: Node)
    requires Tree(mem, root, tab, true) && n in tab
    ensures tab[n] in mem && |mem[tab[n]]| == ENTRIES && Depth(n) <= 3
  {
  }

  lemma VacantSlot(mem: Memory, root: nat, tab: Tables, n: Node, i: nat, child: nat)
    requires Vacant(mem, root, tab, true, n, i, child)
    ensures Sub(n, i) !in tab && tab[n] in mem && |mem[tab[n]]| == ENTRIES
  {
    assert Linked(mem, tab, n, i, true);
  }

  lemma SetLeafLow(mem: Memory, root: nat, tab: Tables, v: nat, w: nat)
    requires Tree(mem, root, tab, true) && PtNode(v) in tab && HugeLow(mem, tab)
    requires tab[PtNode(v)] in mem && |mem[tab[PtNode(v)]]| == ENTRIES
    ensures HugeLow(SetLeaf(mem, tab, v, w), tab)
  {
    hide FrameOf, Huge, Present, SetLeaf, Word;
    SetLeafWords(mem, tab, v, w);
    PtDepth(v);
  }

  /** The physical pages from first up to upto that lie above 512 GiB are mapped, at the
      canonical address with their indices; every other translation is as before. */
  ghost predicate Handed(was: Memory, mem: Memory, root: nat, first: nat, upto: nat) {
    forall u: nat :: Canonical(u) ==>
      Walk(mem, root, u) ==
        if first <= u / PAGE % PAGES_48 < upto && u / PAGE % PAGES_48 >= IDENTITY_PAGES then Some(u / PAGE % PAGES_48)
        else Walk(was, root, u)
  }

  /** Mapping physical page k after tables for it exist. */
  lemma LeafHanded(mem: Memory, root: nat, tab: Tables, k: nat)
    requires Tree(mem, root, tab, true) && IDENTITY_PAGES <= k < PAGES_48 && PtNode(k * PAGE) in tab
    ensures tab[PtNode(k * PAGE)] in mem && |mem[tab[PtNode(k * PAGE)]]| == ENTRIES
    ensures Tree(SetLeaf(mem, tab, k * PAGE, Pte(k * PAGE)), root, tab, true)
    ensures Handed(mem, SetLeaf(mem, tab, k * PAGE, Pte(k * PAGE)), root, k, k + 1)
  {
    hide Tree, Walk, Canonical, FrameOf, Huge, Present, Pte, Word, SetLeaf, PtNode, PtIndex, AddressOf;
    InTree(mem, root, tab, PtNode(k * PAGE));
    PteOfFrame(k);
    SetLeafTree(mem, root, tab, true, k * PAGE, Pte(k * PAGE));
    AddressIndices(k);
    SameLeaf(mem, tab, AddressOf(k), k * PAGE, Pte(k * PAGE));
    forall u: nat | Canonical(u)
      ensures Walk(SetLeaf(mem, tab, k * PAGE, Pte(k * PAGE)), root, u) ==
              if u / PAGE % PAGES_48 == k then Some(k) else Walk(mem, root, u)
    {
      AddressPage(k, u);
      SetLeafWalk(mem, root, tab, true, AddressOf(k), Pte(k * PAGE), u);
    }
  }

  lemma SameLeaf(mem: Memory, tab: Tables, v: nat, v': nat, w: nat)
    requires PtNode(v') in tab && tab[PtNode(v')] in mem && |mem[tab[PtNode(v')]]| == ENTRIES
    requires PtNode(v) == PtNode(v') && PtIndex(v) == PtIndex(v')
    ensures SetLeaf(mem, tab, v, w) == SetLeaf(mem, tab, v', w)
  {
  }

  lemma HandedNext(was: Memory, mem: Memory, mem': Memory, root: nat, first: nat, k: nat)
    requires first <= k && Handed(was, mem, root, first, k) && Handed(mem, mem', root, k, k + 1)
    ensures Handed(was, mem', root, first, k + 1)
  {
    hide Walk, Canonical;
  }

  lemma HandedSkip(was: Memory, mem: Memory, root: nat, first: nat, k: nat)
    requires Handed(was, mem, root, first, k) && k < IDENTITY_PAGES
    ensures Handed(was, mem, root, first, k + 1)
  {
    hide Walk, Canonical;
  }

  /** The first 512 GiB stay covered. */
  lemma HandedCovers(was: Memory, mem: Memory, root: nat, first: nat, upto: nat)
    requires Handed(was, mem, root, first, upto) && Covers(was, root)
    ensures Covers(mem, root)
  {
    hide Walk;
  }

  /** The map stays an identity exactly if no page at or above 2^47 is handed over: an
      address up there translates under its sign extension, not under its own name. */
  lemma HandedIdentityIff(was: Memory, mem: Memory, root: nat, first: nat, upto: nat)
    requires Handed(was, mem, root, first, upto) && Identity(was, root) && upto <= PAGES_48
    ensures Identity(mem, root) <==> upto <= PAGES_47 || upto <= first
  {
    hide Walk;
    if upto > PAGES_47 && upto > first {
      var k := upto - 1;
      AddressPage(k, AddressOf(k));
      assert Walk(mem, root, AddressOf(k)) == Some(k);
    } else {
      forall u: nat | Canonical(u) && Walk(mem, root, u).Some?
        ensures Walk(mem, root, u) == Some(u / PAGE)
      {
        LowPage(u, upto);
      }
    }
  }

  /** The same condition on the range itself, once all of it is handed over. */
  lemma RangeIdentityIff(was: Memory, mem: Memory, root: nat, physical: nat, size: nat, upto: nat)
    requires Handed(was, mem, root, physical / PAGE, upto) && Identity(was, root)
    requires physical / PAGE <= upto <= PAGES_48
    requires forall p: nat :: physical / PAGE <= p ==> (p * PAGE < physical + size <==> p < upto)
    ensures Identity(mem, root) <==> physical + size <= PAGES_47 * PAGE || (size == 0 && physical % PAGE == 0)
  {
    hide Handed, Identity;
    HandedIdentityIff(was, mem, root, physical / PAGE, upto);
    var first := physical / PAGE;
    assert first * PAGE < physical + size <==> first < upto;
    if first <= PAGES_47 {
      assert PAGES_47 * PAGE < physical + size <==> PAGES_47 < upto;
    }
  }

  /** The same in plain numbers: from the page of physical on, each page above 512 GiB that starts
      before the end of the range translates to itself modulo 2^48; nothing else changes. */
  ghost predicate RangeMapped(was: Memory, mem: Memory, root: nat, physical: nat, size: nat) {
    forall u: nat :: Canonical(u) ==>
      Walk(mem, root, u) ==
        var k := u / 0x1000 % 0x10_0000_0000;
        if 0x80_0000_0000 <= k * 0x1000 < physical + size && physical / 0x1000 <= k then Some(k) else Walk(was, root, u)
  }

  lemma RangePlain(was: Memory, mem: Memory, root: nat, physical: nat, size: nat, upto: nat)
    requires Handed(was, mem, root, physical / PAGE, upto)
    requires forall p: nat :: physical / PAGE <= p ==> (p * PAGE < physical + size <==> p < upto)
    ensures RangeMapped(was, mem, root, physical, size)
  {
    hide Walk, Canonical;
    forall u: nat | Canonical(u)
      ensures Walk(mem, root, u) ==
              var k := u / 0x1000 % 0x10_0000_0000;
              if 0x80_0000_0000 <= k * 0x1000 < physical + size && physical / 0x1000 <= k then Some(k)
              else Walk(was, root, u)
    {
      var k := u / PAGE % PAGES_48;
      assert physical / PAGE <= k ==> (k * PAGE < physical + size <==> k < upto);
    }
  }

  lemma IdentityPlain(mem: Memory, root: nat)
    requires Exactly(mem, root, 0x4_0000)
    ensures forall u: nat :: Canonical(u) ==> Walk(mem, root, u) == if u < 0x80_0000_0000 then Some(u / 0x1000) else None
  {
    hide Walk, Canonical;
  }

  /** The first page that breaks the identity: 2^47, which shows up at its sign extension. */
  lemma FirstAlias(was: Memory, mem: Memory, root: nat)
    requires Handed(was, mem, root, PAGES_47, PAGES_47 + 1)
    ensures Canonical(0xFFFF_8000_0000_0000)
    ensures Walk(mem, root, 0xFFFF_8000_0000_0000) == Some(PAGES_47)
    ensures !Identity(mem, root)
  {
    hide Walk;
    var u := 0xFFFF_8000_0000_0000;
    assert Canonical(u) && u / PAGE % PAGES_48 == PAGES_47;
  }

  lemma LowPage(u: nat, upto: nat)
    requires Canonical(u)
    ensures u / PAGE % PAGES_48 < upto <= PAGES_47 ==> u / PAGE % PAGES_48 == u / PAGE
  {
  }

  // ---------------------------------------------------------------------
  // The bootloader
  // ---------------------------------------------------------------------

  ghost predicate Ram(mem: Memory) { forall f :: f in mem ==> |mem[f]| == ENTRIES && f < TWO_52 / PAGE }

  /** Frames the firmware has not handed out. */
  ghost predicate Spare(mem: Memory, supply: seq<nat>, taken: set<nat>) {
    && (forall i :: 0 <= i < |supply| ==> supply[i] in mem && supply[i] !in taken)
    && (forall i, j :: 0 <= i < j < |supply| ==> supply[i] != supply[j])
  }

  /** Walks, tables and spare frames over which the handoff mappings are made. */
  ghost predicate Sound(mem: Memory, root: nat, tab: Tables, taken: set<nat>) {
    Ram(mem) && Tree(mem, root, tab, true) && HugeLow(mem, tab) && NoLowPt(tab) && tab.Values <= taken
  }

  class BootTables {
    var mem: Memory
    var pml4: nat
    /** The frames AllocatePages will return, in some order; it may also fail at any time. */
    var supply: seq<nat>
    ghost var tab: Tables
    ghost var taken: set<nat>

    constructor (ram: Memory, supply: seq<nat>, ghost taken: set<nat>)
      requires Ram(ram) && Spare(ram, supply, taken)
      ensures mem == ram && this.supply == supply && this.taken == taken
    {
      mem, pml4, this.supply := ram, 0, supply;
      tab, this.taken := map[], taken;
    }

    ghost predicate Valid()
      reads this
    {
      Sound(mem, pml4, tab, taken) && Spare(mem, supply, taken)
    }

    method AllocatePages() returns (ok: bool, frame: nat)
      requires Ram(mem) && Spare(mem, supply, taken)
      modifies `supply, `taken
      ensures Spare(mem, supply, taken)
      ensures !ok ==> supply == old(supply) && taken == old(taken)
      ensures ok ==> frame in mem && frame !in old(taken) && taken == old(taken) + {frame} && frame < TWO_52 / PAGE
    {
      var granted: bool := *;
      if !granted || |supply| == 0 {
        return false, 0;
      }
      ok, frame := true, supply[0];
      supply, taken := supply[1..], taken + {frame};
    }

    /** SetMem with zeros. */
    method ClearFrame(frame: nat)
      requires frame in mem
      modifies `mem
      ensures mem == old(mem)[frame := Zeros()]
    {
      mem := mem[frame := Zeros()];
    }

    /** allocate_table, linked under entry i of the table at n. */
    method LinkTable(table: nat, i: nat, ghost n: Node) returns (ok: bool)
      requires Valid() && n in tab && table == tab[n] && Depth(n) < 3 && i < ENTRIES && !Present(Word(mem, table, i))
      requires Depth(n) == 2 ==> n.up != LOW
      modifies `mem, `supply, `tab, `taken
      ensures Valid() && SameWalks(old(mem), mem, pml4) && (forall m :: m in old(tab) ==> m in tab && tab[m] == old(tab)[m])
      ensures ok ==> Sub(n, i) in tab
    {
      hide Tree, Walk, HugeLow, Spare, Present, Word, Pte, Zeros, Depth;
      InTree(mem, pml4, tab, n);
      var frame: nat;
      ok, frame := AllocatePages();
      if !ok {
        return;
      }
      TableLinked(mem, pml4, tab, n, i, frame, supply, taken);
      ClearFrame(frame);
      mem := SetWord(mem, table, i, Pte(frame * PAGE));
      tab := tab[Sub(n, i) := frame];
    }

    /** One level of map_handoff_page: the table below entry i, created when absent. */
    method EnsureTable(table: nat, i: nat, ghost n: Node) returns (ok: bool, child: nat)
      requires Valid() && n in tab && table == tab[n] && Depth(n) < 3 && i < ENTRIES
      requires Depth(n) == 2 ==> n.up != LOW
      modifies `mem, `supply, `tab, `taken
      ensures Valid() && SameWalks(old(mem), mem, pml4) && (forall m :: m in old(tab) ==> m in tab && tab[m] == old(tab)[m])
      ensures ok ==> Sub(n, i) in tab && child == tab[Sub(n, i)]
    {
      hide Tree, Walk, HugeLow, Spare, Present, Word, Pte, FrameOf, Depth;
      ok, child := true, 0;
      if !Present(Word(mem, table, i)) {
        ok := LinkTable(table, i, n);
        if !ok {
          return;
        }
      }
      EntryBelow(mem, pml4, tab, n, i);
      child := FrameOf(Word(mem, table, i));
    }

    /** map_handoff_page for a page above the first 512 GiB. */
    method MapHandoffPage(physical: nat, ghost k: nat) returns (ok: bool)
      requires Valid() && physical == k * PAGE && IDENTITY_PAGES <= k < PAGES_48
      modifies `mem, `supply, `tab, `taken
      ensures Valid()
      ensures if ok then Handed(old(mem), mem, pml4, k, k + 1) else SameWalks(old(mem), mem, pml4)
    {
      hide Tree, Walk, HugeLow, Spare, Pml4Index, PdptIndex, PdIndex, PtIndex, Handed, Pte, SetWord, Canonical, Ram;
      AddressIndices(k);
      InTop(mem, pml4, tab);
      ghost var n1 := Sub(Top, Pml4Index(physical));
      ghost var n2 := Sub(n1, PdptIndex(physical));
      Indices(physical);
      var pdpt, pd, pt;
      ok, pdpt := EnsureTable(pml4, Pml4Index(physical), Top);
      if !ok {
        return;
      }
      ok, pd := EnsureTable(pdpt, PdptIndex(physical), n1);
      if !ok {
        return;
      }
      ok, pt := EnsureTable(pd, PdIndex(physical), n2);
      if !ok {
        return;
      }
      LeafStored(old(mem), mem, pml4, tab, k, supply, taken);
      mem := SetWord(mem, pt, PtIndex(physical), Pte(physical));
    }

    /** map_handoff_range; upto is the page it got to. */
    method MapHandoffRange(physical: nat, size: nat) returns (status: Status, ghost upto: nat)
      requires Valid() && physical < TWO_64 && size < TWO_64
      requires physical + size < TWO_64 ==> physical + size <= PAGES_48 * PAGE
      modifies `mem, `supply, `tab, `taken
      ensures Valid()
      ensures status == InvalidParameter <==> physical + size >= TWO_64
      ensures status == InvalidParameter ==> mem == old(mem)
      ensures status != InvalidParameter ==>
                physical / PAGE <= upto <= PAGES_48 && Handed(old(mem), mem, pml4, physical / PAGE, upto)
      ensures status == Success ==>
                forall p: nat :: physical / PAGE <= p ==> (p * PAGE < physical + size <==> p < upto)
      ensures status == Success ==> RangeMapped(old(mem), mem, pml4, physical, size)
      ensures Covers(old(mem), pml4) ==> Covers(mem, pml4)
      ensures Identity(old(mem), pml4) && physical + size <= PAGES_47 * PAGE ==> Identity(mem, pml4)
      ensures Identity(old(mem), pml4) && status == Success ==>
                (Identity(mem, pml4) <==> physical + size <= PAGES_47 * PAGE || (size == 0 && physical % PAGE == 0))
    {
      hide Sound, Handed, Covers, Identity, Spare, RangeMapped;
      ghost var first := physical / PAGE;
      var page, end := physical / PAGE * PAGE, (physical + size) % TWO_64;
      upto := first;
      HandedNone(mem, pml4, first);
      if end < physical {
        return InvalidParameter, upto;
      }
      status := Success;
      while page < end
        invariant Valid() && page == upto * PAGE && first <= upto
        invariant end == physical + size <= PAGES_48 * PAGE && (upto == first || (upto - 1) * PAGE < end)
        invariant Handed(old(mem), mem, pml4, first, upto)
        decreases end - page
      {
        if page < IDENTITY_SIZE {
          HandedSkip(old(mem), mem, pml4, first, upto);
        } else {
          ghost var before := mem;
          var ok := MapHandoffPage(page, upto);
          if !ok {
            HandedSame(old(mem), before, mem, pml4, first, upto);
            status := OutOfResources;
            break;
          }
          HandedNext(old(mem), before, mem, pml4, first, upto);
        }
        page := page + PAGE;
        upto := upto + 1;
      }
      HandedResult(old(mem), mem, pml4, first, upto, end);
      if status == Success {
        RangePlain(old(mem), mem, pml4, physical, size, upto);
      }
      if status == Success && Identity(old(mem), pml4) {
        RangeIdentityIff(old(mem), mem, pml4, physical, size, upto);
      }
    }

    /** Handing over any objects below 2^47: whichever range fails, and however far it got,
        every address that translates translates to itself and 512 GiB stay covered. */
    method MapHandoffRanges(ranges: seq<(nat, nat)>) returns (status: Status)
      requires Valid() && Covers(mem, pml4) && Identity(mem, pml4)
      requires forall i :: 0 <= i < |ranges| ==>
                 var (physical, size) := ranges[i];
                 physical < TWO_64 && size < TWO_64 && (physical + size < TWO_64 ==> physical + size <= PAGES_47 * PAGE)
      modifies `mem, `supply, `tab, `taken
      ensures Valid() && Covers(mem, pml4) && Identity(mem, pml4)
    {
      hide Sound, Handed, Covers, Identity, Spare, RangeMapped;
      for i := 0 to |ranges|
        invariant Valid() && Covers(mem, pml4) && Identity(mem, pml4)
      {
        var (physical, size) := ranges[i];
        ghost var upto;
        status, upto := MapHandoffRange(physical, size);
        if status != Success {
          return;
        }
      }
      status := Success;
    }

    /** The 514 frames of the identity map. */
    method AllocateFrames(pds: array<nat>) returns (ok: bool, top: nat, pdpt: nat)
      requires Ram(mem) && Spare(mem, supply, taken) && pds.Length == 512
      modifies `supply, `taken, pds
      ensures Spare(mem, supply, taken)
      ensures ok ==> Frames(mem, taken, top, pdpt, pds[..])
    {
      hide Spare;
      pdpt := 0;
      ok, top := AllocatePages();
      if !ok {
        return;
      }
      ok, pdpt := AllocatePages();
      if !ok {
        return;
      }
      for j := 0 to 512
        invariant Spare(mem, supply, taken) && ok
        invariant top != pdpt && {top, pdpt} <= taken && {top, pdpt} <= mem.Keys
        invariant forall k :: 0 <= k < j ==> pds[k] in mem && pds[k] in taken && pds[k] != top && pds[k] != pdpt
        invariant forall k, l :: 0 <= k < l < j ==> pds[k] != pds[l]
      {
        ok, pds[j] := AllocatePages();
        if !ok {
          return;
        }
      }
    }

    method ClearFrames(top: nat, pdpt: nat, pds: array<nat>)
      requires Ram(mem) && Spare(mem, supply, taken) && pds.Length == 512 && Frames(mem, taken, top, pdpt, pds[..])
      modifies `mem
      ensures Ram(mem) && Spare(mem, supply, taken) && Frames(mem, taken, top, pdpt, pds[..])
      ensures mem[top] == Zeros() && mem[pdpt] == Zeros() && ZeroFrom(mem, pds[..], 0)
    {
      ClearFrame(top);
      ClearFrame(pdpt);
      for j := 0 to 512
        invariant mem.Keys == old(mem).Keys && Ram(mem) && mem[top] == Zeros() && mem[pdpt] == Zeros()
        invariant forall k :: 0 <= k < j ==> pds[k] in mem && mem[pds[k]] == Zeros()
      {
        ClearFrame(pds[j]);
      }
    }

    /** One entry of the j-th page directory. */
    method MapHuge(j: nat, i: nat, pds: array<nat>, ghost pdpt: nat)
      requires pds.Length == 512 && j < 512 && i < 512
      requires Building(mem, pml4, tab, taken, supply, pdpt, pds[..], j, i)
      modifies `mem
      ensures Building(mem, pml4, tab, taken, supply, pdpt, pds[..], j, i + 1)
    {
      hide Building, HugePte;
      HugeStep(mem, pml4, tab, taken, supply, pdpt, pds[..], j, i);
      var physical := j * 0x4000_0000 + i * 0x20_0000;
      mem := SetWord(mem, pds[j], i, HugePte(physical));
    }

    /** The identity map of the first 512 GiB; not ok means the bootloader gives up. */
    method BuildIdentityMap() returns (ok: bool)
      requires Ram(mem) && Spare(mem, supply, taken)
      modifies this
      ensures ok ==> Valid() && Exactly(mem, pml4, 0x4_0000) && Identity(mem, pml4) && Covers(mem, pml4)
      ensures ok ==> forall u: nat :: Canonical(u) ==>
                       Walk(mem, pml4, u) == if u < 0x80_0000_0000 then Some(u / 0x1000) else None
    {
      hide Walk, Canonical;
      hide Building, Frames, Exactly, Identity, Covers, Ram, Spare, Pte, Sound;
      var pds := new nat[512];
      var pdpt: nat;
      ok, pml4, pdpt := AllocateFrames(pds);
      if !ok {
        return;
      }
      ClearFrames(pml4, pdpt, pds);
      ghost var dirs := pds[..];
      FirstTable(mem, pml4, taken, supply, pdpt, dirs);
      mem, tab := SetWord(mem, pml4, 0, Pte(pdpt * PAGE)), map[Top := pml4][LOW := pdpt];
      for j := 0 to 512
        invariant pds[..] == dirs && Between(mem, pml4, tab, taken, supply, pdpt, dirs, j)
      {
        DirectoryStep(mem, pml4, tab, taken, supply, pdpt, dirs, j);
        mem, tab := SetWord(mem, pdpt, j, Pte(pds[j] * PAGE)), tab[Sub(LOW, j) := pds[j]];
        for i := 0 to 512
          invariant pds[..] == dirs && Building(mem, pml4, tab, taken, supply, pdpt, dirs, j, i)
        {
          MapHuge(j, i, pds, pdpt);
        }
        DirectoryDone(mem, pml4, tab, taken, supply, pdpt, dirs, j);
      }
      AllDone(mem, pml4, tab, taken, supply, pdpt, dirs);
      IdentityPlain(mem, pml4);
    }
  }

  lemma Indices(v: nat)
    ensures Pml4Index(v) < 512 && PdptIndex(v) < 512 && PdIndex(v) < 512 && PtIndex(v) < 512
    ensures Depth(Top) == 0 && Depth(Sub(Top, Pml4Index(v))) == 1
    ensures Depth(Sub(Sub(Top, Pml4Index(v)), PdptIndex(v))) == 2
  {
  }

  lemma InTop(mem: Memory, root: nat, tab: Tables)
    requires Tree(mem, root, tab, true)
    ensures Top in tab && tab[Top] == root
  {
  }

  /** An entry that is present and no 2 MiB leaf leads to the table placed below it. */
  lemma EntryBelow(mem: Memory, root: nat, tab: Tables, n: Node, i: nat)
    requires Tree(mem, root, tab, true) && HugeLow(mem, tab) && n in tab && Depth(n) < 3 && i < ENTRIES
    requires (Depth(n) == 2 ==> n.up != LOW) && (Sub(n, i) in tab || Present(Word(mem, tab[n], i)))
    ensures Sub(n, i) in tab && FrameOf(Word(mem, tab[n], i)) == tab[Sub(n, i)]
  {
    hide Present, Huge, FrameOf, Word;
    assert Linked(mem, tab, n, i, true);
  }

  lemma TableLinked(mem: Memory, root: nat, tab: Tables, n: Node, i: nat, child: nat, supply: seq<nat>, taken: set<nat>)
    requires Sound(mem, root, tab, taken - {child}) && Spare(mem, supply, taken) && child in taken && child in mem
    requires n in tab && Depth(n) < 3 && i < ENTRIES && !Present(Word(mem, tab[n], i))
    requires Depth(n) == 2 ==> n.up != LOW
    ensures tab[n] in mem && |mem[tab[n]]| == ENTRIES && tab[n] != child
    ensures var mem', tab' := AddTable(mem, tab, n, i, child), tab[Sub(n, i) := child];
            && Sound(mem', root, tab', taken) && Spare(mem', supply, taken) && SameWalks(mem, mem', root)
            && (forall m :: m in tab ==> m in tab' && tab'[m] == tab[m])
  {
    LowPtMore(tab, n, i, child);
    hide Tree, Walk, HugeLow, NoLowPt, Present, Word, AddTable, Depth;
    InTree(mem, root, tab, n);
    VacantSlot(mem, root, tab, n, i, child);
    AddTableTree(mem, root, tab, true, n, i, child);
    AddTableLow(mem, root, tab, n, i, child);
    AddTableWords(mem, tab, n, i, child);
    AddTableRam(mem, tab, n, i, child);
    TabMore(tab, Sub(n, i), child, taken);
    forall u: nat
      ensures Walk(AddTable(mem, tab, n, i, child), root, u) == Walk(mem, root, u)
    {
      AddTableWalk(mem, root, tab, true, n, i, child, u);
    }
  }

  lemma LowPtMore(tab: Tables, n: Node, i: nat, child: nat)
    requires NoLowPt(tab) && n in tab && (Depth(n) == 2 ==> n.up != LOW)
    ensures NoLowPt(tab[Sub(n, i) := child])
  {
  }

  lemma TabMore(tab: Tables, n: Node, child: nat, taken: set<nat>)
    requires tab.Values <= taken && child in taken
    ensures tab[n := child].Values <= taken
  {
  }

  lemma AddTableRam(mem: Memory, tab: Tables, n: Node, i: nat, child: nat)
    requires Ram(mem) && n in tab && tab[n] in mem && i < |mem[tab[n]]| && tab[n] != child && child in mem
    ensures Ram(AddTable(mem, tab, n, i, child))
  {
  }

  lemma LeafStored(was: Memory, mem: Memory, root: nat, tab: Tables, k: nat, supply: seq<nat>, taken: set<nat>)
    requires Sound(mem, root, tab, taken) && Spare(mem, supply, taken) && SameWalks(was, mem, root)
    requires IDENTITY_PAGES <= k < PAGES_48 && PtNode(k * PAGE) in tab
    ensures tab[PtNode(k * PAGE)] in mem && |mem[tab[PtNode(k * PAGE)]]| == ENTRIES && PtIndex(k * PAGE) < ENTRIES
    ensures var mem' := SetLeaf(mem, tab, k * PAGE, Pte(k * PAGE));
            Sound(mem', root, tab, taken) && Spare(mem', supply, taken) && Handed(was, mem', root, k, k + 1)
  {
    hide Tree, Walk, HugeLow, Present, Word, SetLeaf, Pml4Index, PdptIndex, PdIndex, PtNode, Pte, Canonical;
    LeafHanded(mem, root, tab, k);
    SetLeafLow(mem, root, tab, k * PAGE, Pte(k * PAGE));
    SetLeafWords(mem, tab, k * PAGE, Pte(k * PAGE));
  }

  datatype Status = Success | InvalidParameter | OutOfResources

  lemma HandedNone(mem: Memory, root: nat, first: nat)
    ensures Handed(mem, mem, root, first, first)
  {
  }

  lemma HandedSame(was: Memory, mem: Memory, mem': Memory, root: nat, first: nat, k: nat)
    requires Handed(was, mem, root, first, k) && SameWalks(mem, mem', root)
    ensures Handed(was, mem', root, first, k)
  {
    hide Walk, Canonical;
  }

  lemma HandedResult(was: Memory, mem: Memory, root: nat, first: nat, upto: nat, end: nat)
    requires Handed(was, mem, root, first, upto) && first <= upto <= PAGES_48
    requires upto == first || (upto - 1) * PAGE < end
    ensures Covers(was, root) ==> Covers(mem, root)
    ensures Identity(was, root) && end <= PAGES_47 * PAGE ==> Identity(mem, root)
  {
    hide Handed, Covers, Identity;
    if Covers(was, root) {
      HandedCovers(was, mem, root, first, upto);
    }
    if Identity(was, root) {
      HandedIdentityIff(was, mem, root, first, upto);
    }
  }

  // ---------------------------------------------------------------------
  // Building the identity map
  // ---------------------------------------------------------------------

  /** 514 different frames. */
  ghost predicate Frames(mem: Memory, taken: set<nat>, top: nat, pdpt: nat, pds: seq<nat>) {
    && |pds| == 512 && top != pdpt && {top, pdpt} <= taken && {top, pdpt} <= mem.Keys
    && (forall k :: 0 <= k < 512 ==> pds[k] in mem && pds[k] in taken && pds[k] != top && pds[k] != pdpt)
    && (forall k, l :: 0 <= k < l < 512 ==> pds[k] != pds[l])
  }

  ghost predicate ZeroFrom(mem: Memory, pds: seq<nat>, n: nat) {
    forall k :: n <= k < |pds| ==> pds[k] in mem && mem[pds[k]] == Zeros()
  }

  /** The tables so far: the top, one PDPT and its first n directories. */
  ghost predicate Directories(tab: Tables, top: nat, pdpt: nat, pds: seq<nat>, n: nat)
    requires n <= |pds|
  {
    && (forall m :: m in tab <==> m == Top || m == LOW || (m.Sub? && m.up == LOW && m.i < n))
    && tab[Top] == top && tab[LOW] == pdpt
    && (forall k :: 0 <= k < n ==> tab[Sub(LOW, k)] == pds[k])
  }

  /** n directories are linked and full, the others still empty. */
  ghost predicate Between(mem: Memory, root: nat, tab: Tables, taken: set<nat>, supply: seq<nat>, pdpt: nat,
                          pds: seq<nat>, n: nat) {
    && Sound(mem, root, tab, taken) && Spare(mem, supply, taken) && Frames(mem, taken, root, pdpt, pds)
    && n <= 512 && Directories(tab, root, pdpt, pds, n) && ZeroFrom(mem, pds, n)
    && Exactly(mem, root, n * 512)
  }

  /** The j-th directory is linked and has its first i entries. */
  ghost predicate Building(mem: Memory, root: nat, tab: Tables, taken: set<nat>, supply: seq<nat>, pdpt: nat,
                           pds: seq<nat>, j: nat, i: nat) {
    && Sound(mem, root, tab, taken) && Spare(mem, supply, taken) && Frames(mem, taken, root, pdpt, pds)
    && j < 512 && Directories(tab, root, pdpt, pds, j + 1) && ZeroFrom(mem, pds, j + 1)
    && (forall k: nat :: i <= k ==> Word(mem, pds[j], k) == 0)
    && Exactly(mem, root, j * 512 + i)
  }

  lemma SetWordFrames(mem: Memory, supply: seq<nat>, taken: set<nat>, top: nat, pdpt: nat, pds: seq<nat>, frame: nat, i: nat, w: nat)
    requires Ram(mem) && Spare(mem, supply, taken) && Frames(mem, taken, top, pdpt, pds)
    requires frame in mem && i < |mem[frame]|
    ensures var mem' := SetWord(mem, frame, i, w);
            Ram(mem') && Spare(mem', supply, taken) && Frames(mem', taken, top, pdpt, pds)
  {
    hide SetWord;
    SetWordWords(mem, frame, i, w);
  }

  lemma HugeStep(mem: Memory, root: nat, tab: Tables, taken: set<nat>, supply: seq<nat>, pdpt: nat, pds: seq<nat>, j: nat, i: nat)
    requires Building(mem, root, tab, taken, supply, pdpt, pds, j, i) && i < 512
    ensures |pds| == 512 && pds[j] in mem && i < |mem[pds[j]]|
    ensures var w := HugePte(j * 0x4000_0000 + i * 0x20_0000);
            Building(SetWord(mem, pds[j], i, w), root, tab, taken, supply, pdpt, pds, j, i + 1)
  {
    hide Tree, Walk, Exactly, SetWord, Present, Huge, Word, HugePte;
    var k := j * 512 + i;
    assert j * 0x4000_0000 + i * 0x20_0000 == k * HUGE_PAGE;
    var w := HugePte(k * HUGE_PAGE);
    var n := Sub(LOW, j);
    HugePteFields(k);
    ZeroAbsent();
    LowDepth(j);
    InTree(mem, root, tab, n);
    SetWordWords(mem, pds[j], i, w);
    SetWordFrames(mem, supply, taken, root, pdpt, pds, pds[j], i, w);
    SetHugeTree(mem, root, tab, n, i, w);
    OneMore(mem, root, tab, j, i);
    InjectiveTab(mem, root, tab, n);
  }

  lemma LowDepth(j: nat)
    ensures Depth(LOW) == 1 && Depth(Sub(LOW, j)) == 2 && Depth(Top) == 0
  {
  }

  lemma InjectiveTab(mem: Memory, root: nat, tab: Tables, n: Node)
    requires Tree(mem, root, tab, true) && n in tab
    ensures forall m :: m in tab && tab[m] == tab[n] ==> m == n
  {
  }

  /** Linking a table that is already zeroed. */
  lemma LinkZeroed(mem: Memory, root: nat, tab: Tables, n: Node, i: nat, child: nat, supply: seq<nat>, taken: set<nat>)
    requires Sound(mem, root, tab, taken) && Spare(mem, supply, taken)
    requires child in taken && child !in tab.Values && child in mem && mem[child] == Zeros()
    requires n in tab && Depth(n) < 2 && i < ENTRIES && !Present(Word(mem, tab[n], i))
    ensures tab[n] in mem && |mem[tab[n]]| == ENTRIES && tab[n] != child
    ensures var mem', tab' := SetWord(mem, tab[n], i, Pte(child * PAGE)), tab[Sub(n, i) := child];
            && Sound(mem', root, tab', taken) && Spare(mem', supply, taken) && SameWalks(mem, mem', root)
            && Word(mem', child, 0) == 0
  {
    hide Tree, Walk, HugeLow, Present, SetWord, SameWalks, Spare, Depth, Zeros, Pte;
    assert tab.Values <= taken - {child};
    InTree(mem, root, tab, n);
    TableLinked(mem, root, tab, n, i, child, supply, taken);
    assert mem[child := Zeros()] == mem;
    AddTableWord(mem, tab, n, i, child, child, 0);
  }

  lemma EmptyTree(mem: Memory, root: nat)
    requires root in mem && mem[root] == Zeros()
    ensures Tree(mem, root, map[Top := root], true) && HugeLow(mem, map[Top := root])
    ensures Exactly(mem, root, 0) && !Present(Word(mem, root, 0))
  {
    hide FrameOf, Huge, Pml4Index, PdptIndex, PdIndex, PtIndex;
    LowDepth(0);
    assert forall i: nat :: Word(mem, root, i) == 0;
  }

  lemma SameExactly(mem: Memory, mem': Memory, root: nat, count: nat)
    requires Exactly(mem, root, count) && SameWalks(mem, mem', root)
    ensures Exactly(mem', root, count)
  {
    hide Walk, Canonical;
  }

  lemma FirstTable(mem: Memory, root: nat, taken: set<nat>, supply: seq<nat>, pdpt: nat, pds: seq<nat>)
    requires Ram(mem) && Spare(mem, supply, taken) && Frames(mem, taken, root, pdpt, pds)
    requires mem[root] == Zeros() && mem[pdpt] == Zeros() && ZeroFrom(mem, pds, 0)
    ensures root in mem && |mem[root]| == ENTRIES
    ensures Between(SetWord(mem, root, 0, Pte(pdpt * PAGE)), root, map[Top := root][LOW := pdpt], taken, supply,
                    pdpt, pds, 0)
  {
    hide Tree, Walk, HugeLow, Present, Exactly, SetWord, SameWalks, Spare, Zeros, Pte, Word;
    var tab: Tables := map[Top := root];
    EmptyTree(mem, root);
    LowDepth(0);
    assert pdpt !in tab.Values && tab.Values <= taken;
    LinkZeroed(mem, root, tab, Top, 0, pdpt, supply, taken);
    SetWordWords(mem, root, 0, Pte(pdpt * PAGE));
    SameExactly(mem, SetWord(mem, root, 0, Pte(pdpt * PAGE)), root, 0);
  }

  lemma DirectoryStep(mem: Memory, root: nat, tab: Tables, taken: set<nat>, supply: seq<nat>, pdpt: nat, pds: seq<nat>, j: nat)
    requires Between(mem, root, tab, taken, supply, pdpt, pds, j) && j < 512
    ensures |pds| == 512 && pdpt in mem && j < |mem[pdpt]|
    ensures Building(SetWord(mem, pdpt, j, Pte(pds[j] * PAGE)), root, tab[Sub(LOW, j) := pds[j]], taken, supply,
                     pdpt, pds, j, 0)
  {
    hide Tree, Walk, HugeLow, Present, Exactly, SetWord, SameWalks, Spare, Pte, Word, Ram;
    LowDepth(j);
    NotInTab(tab, root, pdpt, pds, j, mem, taken);
    AbsentBelow(mem, root, tab, LOW, j);
    LinkZeroed(mem, root, tab, LOW, j, pds[j], supply, taken);
    SetWordWords(mem, pdpt, j, Pte(pds[j] * PAGE));
    SetWordFrames(mem, supply, taken, root, pdpt, pds, pdpt, j, Pte(pds[j] * PAGE));
    SameExactly(mem, SetWord(mem, pdpt, j, Pte(pds[j] * PAGE)), root, j * 512);
    ZeroWords(mem, pds[j]);
  }

  lemma ZeroWords(mem: Memory, frame: nat)
    requires frame in mem && mem[frame] == Zeros()
    ensures forall k: nat :: Word(mem, frame, k) == 0
  {
  }

  lemma NotInTab(tab: Tables, root: nat, pdpt: nat, pds: seq<nat>, j: nat, mem: Memory, taken: set<nat>)
    requires Frames(mem, taken, root, pdpt, pds) && j < 512 && Directories(tab, root, pdpt, pds, j)
    ensures pds[j] !in tab.Values && Sub(LOW, j) !in tab && LOW in tab && tab[LOW] == pdpt
  {
    forall m | m in tab
      ensures tab[m] != pds[j]
    {
      if m != Top && m != LOW {
        assert m == Sub(LOW, m.i);
      }
    }
  }

  lemma AbsentBelow(mem: Memory, root: nat, tab: Tables, n: Node, i: nat)
    requires Tree(mem, root, tab, true) && n in tab && Depth(n) < 2 && i < ENTRIES && Sub(n, i) !in tab
    ensures !Present(Word(mem, tab[n], i))
  {
    assert Linked(mem, tab, n, i, true);
  }

  lemma DirectoryDone(mem: Memory, root: nat, tab: Tables, taken: set<nat>, supply: seq<nat>, pdpt: nat, pds: seq<nat>, j: nat)
    requires Building(mem, root, tab, taken, supply, pdpt, pds, j, 512)
    ensures Between(mem, root, tab, taken, supply, pdpt, pds, j + 1)
  {
    hide Sound, Spare, Frames, Directories, ZeroFrom, Exactly;
  }

  lemma AllDone(mem: Memory, root: nat, tab: Tables, taken: set<nat>, supply: seq<nat>, pdpt: nat, pds: seq<nat>)
    requires Between(mem, root, tab, taken, supply, pdpt, pds, 512)
    ensures Sound(mem, root, tab, taken) && Spare(mem, supply, taken)
    ensures Exactly(mem, root, 0x4_0000) && Identity(mem, root) && Covers(mem, root)
  {
    hide Sound, Spare, Frames, Directories, ZeroFrom, Exactly, Identity, Covers;
    ExactlyIdentity(mem, root, 0x4_0000);
  }
}
