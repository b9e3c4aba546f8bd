/** Four-level page tables (Intel SDM Vol. 3A, section 4.5): entry words, the
    walk the MMU performs, and the tree the tables form. Shared by the kernel's
    tables (kernel/arch/x86_64/mm/vmm.c) and the bootloader's (bootloader/uefi.c). */
module Paging {
  import opened Common

  const HUGE_PAGE: nat := 0x20_0000
  const ENTRIES: nat := 512
  const TWO_52: nat := 0x10_0000_0000_0000

  // ---------------------------------------------------------------------
  // Entry words
  // ---------------------------------------------------------------------

  predicate Present(w: nat) { w % 2 == 1 }

  predicate Huge(w: nat) { w / 0x80 % 2 == 1 }

  /** The frame number in bits 12 to 51. */
  function FrameOf(w: nat): nat { w / 0x1000 % 0x100_0000_0000 }

  /** A present, writable entry for the frame of an address. */
  function Pte(phys: nat): nat { FrameOf(phys) * 0x1000 + 3 }

  lemma PteFields(phys: nat)
    ensures Present(Pte(phys)) && !Huge(Pte(phys)) && FrameOf(Pte(phys)) == FrameOf(phys)
    ensures phys < TWO_52 ==> FrameOf(phys) == phys / PAGE
    ensures Pte(phys) % 0x1000 == 3 && Pte(phys) / 0x1000 == phys / 0x1000 % 0x100_0000_0000
  {
    PteDigits(FrameOf(phys));
  }

  lemma PteDigits(f: nat)
    requires f < 0x100_0000_0000
    ensures var w := f * 0x1000 + 3;
            w % 2 == 1 && w / 0x80 == f * 32 && w / 0x80 % 2 == 0 && w / 0x1000 == f && w / 0x1000 % 0x100_0000_0000 == f
  {
    var w := f * 0x1000 + 3;
    assert w == 2 * (f * 0x800 + 1) + 1;
    assert w == 0x80 * (f * 32) + 3;
    assert f * 32 == 2 * (f * 16);
  }

  lemma PteOfFrame(frame: nat)
    requires frame < TWO_52 / PAGE
    ensures Present(Pte(frame * PAGE)) && !Huge(Pte(frame * PAGE)) && FrameOf(Pte(frame * PAGE)) == frame
  {
    PteFields(frame * PAGE);
  }

  // ---------------------------------------------------------------------
  // Virtual addresses
  // ---------------------------------------------------------------------

  function Pml4Index(v: nat): nat { v / 0x80_0000_0000 % 512 }
  function PdptIndex(v: nat): nat { v / 0x4000_0000 % 512 }
  function PdIndex(v: nat): nat { v / 0x20_0000 % 512 }
  function PtIndex(v: nat): nat { v / 0x1000 % 512 }

  predicate Canonical(v: nat) {
    v < 0x8000_0000_0000 || 0xFFFF_8000_0000_0000 <= v < TWO_64
  }

  // The indices are base-512 digits of the page number.

  lemma PdIndexIsDigit(v: nat)
    ensures v / 0x20_0000 == v / PAGE / 512
  {
  }

  lemma PdptIndexIsDigit(v: nat)
    ensures v / 0x4000_0000 == v / PAGE / 512 / 512
  {
    PdIndexIsDigit(v);
    assert v / 0x4000_0000 == v / 0x20_0000 / 512;
  }

  lemma Pml4IndexIsDigit(v: nat)
    ensures v / 0x80_0000_0000 == v / PAGE / 512 / 512 / 512
  {
    PdptIndexIsDigit(v);
    assert v / 0x80_0000_0000 == v / 0x4000_0000 / 512;
  }

  // Dropping the lowest base-512 digit of a number with two, three or four of them.

  lemma DropOfTwo(p: nat)
    ensures p % 0x4_0000 == p % 512 + 512 * (p / 512 % 512)
  {
    assert p == 0x4_0000 * (p / 512 / 512) + (p % 512 + 512 * (p / 512 % 512));
  }

  lemma DropOfThree(p: nat)
    ensures p % 0x800_0000 == p % 512 + 512 * (p / 512 % 0x4_0000)
  {
    assert p == 0x800_0000 * (p / 512 / 0x4_0000) + (p % 512 + 512 * (p / 512 % 0x4_0000));
  }

  lemma DropOfFour(p: nat)
    ensures p % 0x10_0000_0000 == p % 512 + 512 * (p / 512 % 0x800_0000)
  {
    assert p == 0x10_0000_0000 * (p / 512 / 0x800_0000) + (p % 512 + 512 * (p / 512 % 0x800_0000));
  }

  lemma CanonicalPage(v: nat, u: nat)
    requires Canonical(v) && Canonical(u)
    requires v / PAGE % 0x10_0000_0000 == u / PAGE % 0x10_0000_0000
    ensures v / PAGE == u / PAGE
  {
    CanonicalRest(v);
    CanonicalRest(u);
  }

  lemma CanonicalRest(v: nat)
    requires Canonical(v)
    ensures var p := v / PAGE;
            if v < 0x8000_0000_0000 then p % 0x10_0000_0000 == p < 0x8_0000_0000
            else p % 0x10_0000_0000 == p - 0xF_FFF0_0000_0000 >= 0x8_0000_0000
  {
    var p := v / PAGE;
    if v >= 0x8000_0000_0000 {
      assert p - 0xF_FFF0_0000_0000 < 0x10_0000_0000;
      assert p == 0x10_0000_0000 * 0xFFFF + (p - 0xF_FFF0_0000_0000);
    }
  }

  /** A canonical address is on the page its four indices name, and on no other. */
  lemma IndicesNamePage(v: nat, u: nat)
    requires Canonical(v) && Canonical(u)
    requires Pml4Index(v) == Pml4Index(u) && PdptIndex(v) == PdptIndex(u)
    requires PdIndex(v) == PdIndex(u) && PtIndex(v) == PtIndex(u)
    ensures v / PAGE == u / PAGE
  {
    PdIndexIsDigit(v);
    PdIndexIsDigit(u);
    PdptIndexIsDigit(v);
    PdptIndexIsDigit(u);
    Pml4IndexIsDigit(v);
    Pml4IndexIsDigit(u);
    SameDigits(v / PAGE, u / PAGE);
    CanonicalPage(v, u);
  }

  lemma SameDigits(p: nat, q: nat)
    requires p % 512 == q % 512 && p / 512 % 512 == q / 512 % 512
    requires p / 512 / 512 % 512 == q / 512 / 512 % 512
    requires p / 512 / 512 / 512 % 512 == q / 512 / 512 / 512 % 512
    ensures p % 0x10_0000_0000 == q % 0x10_0000_0000
  {
    DropOfTwo(p / 512 / 512);
    DropOfTwo(q / 512 / 512);
    DropOfThree(p / 512);
    DropOfThree(q / 512);
    DropOfFour(p);
    DropOfFour(q);
  }

  // ---------------------------------------------------------------------
  // Physical memory and the walk
  // ---------------------------------------------------------------------

  /** RAM by frame number, each frame as 512 words. */
  type Memory = map<nat, seq<nat>>

  function Zeros(): (r: seq<nat>)
    ensures |r| == ENTRIES && forall i :: 0 <= i < ENTRIES ==> r[i] == 0
  {
    seq(ENTRIES, _ => 0)
  }

  function Word(mem: Memory, frame: nat, i: nat): nat {
    if frame in mem && i < |mem[frame]| then mem[frame][i] else 0
  }

  /** What the MMU finds for v: the frame of the page v is on, through a 4 KiB
      leaf or, when the directory entry has its PS bit, a 2 MiB one. */
  function Walk(mem: Memory, root: nat, v: nat): Option<nat> {
    var e4 := Word(mem, root, Pml4Index(v));
    if !Present(e4) then None else
    var e3 := Word(mem, FrameOf(e4), PdptIndex(v));
    if !Present(e3) then None else
    var e2 := Word(mem, FrameOf(e3), PdIndex(v));
    if !Present(e2) then None else
    if Huge(e2) then Some(FrameOf(e2) / 512 * 512 + PtIndex(v)) else
    var e1 := Word(mem, FrameOf(e2), PtIndex(v));
    if Present(e1) then Some(FrameOf(e1)) else None
  }

  /** The walk in plain numbers: bits 39 to 47, 30 to 38, 21 to 29 and 12 to 20 of the address pick
      the entries; bit 0 of an entry says that it is present, bits 12 to 51 are the next frame,
      and bit 7 of the third makes it the leaf of 512 consecutive frames. */
  lemma WalkPlain(mem: Memory, root: nat, v: nat, high: nat, a: nat, b: nat, c: nat, d: nat, low: nat)
    requires a < 512 && b < 512 && c < 512 && d < 512 && low < 0x1000
    requires v == high * 0x1_0000_0000_0000 + a * 0x80_0000_0000 + b * 0x4000_0000 + c * 0x20_0000 + d * 0x1000 + low
    ensures Walk(mem, root, v) ==
            var e4 := Word(mem, root, a);
            if e4 % 2 == 0 then None else
            var e3 := Word(mem, e4 / 0x1000 % 0x100_0000_0000, b);
            if e3 % 2 == 0 then None else
            var e2 := Word(mem, e3 / 0x1000 % 0x100_0000_0000, c);
            if e2 % 2 == 0 then None else
            if e2 / 128 % 2 == 1 then Some(e2 / 0x1000 % 0x100_0000_0000 / 512 * 512 + d) else
            var e1 := Word(mem, e2 / 0x1000 % 0x100_0000_0000, d);
            if e1 % 2 == 0 then None else Some(e1 / 0x1000 % 0x100_0000_0000)
  {
    IndicesPlain(v, high, a, b, c, d, low);
    hide Pml4Index, PdptIndex, PdIndex, PtIndex, Word;
  }

  lemma IndicesPlain(v: nat, high: nat, a: nat, b: nat, c: nat, d: nat, low: nat)
    requires a < 512 && b < 512 && c < 512 && d < 512 && low < 0x1000
    requires v == high * 0x1_0000_0000_0000 + a * 0x80_0000_0000 + b * 0x4000_0000 + c * 0x20_0000 + d * 0x1000 + low
    ensures Pml4Index(v) == a && PdptIndex(v) == b && PdIndex(v) == c && PtIndex(v) == d
  {
    var x := high * 512 + a;
    var y := x * 512 + b;
    var z := y * 512 + c;
    LowBits(v, z * 512 + d, low);
    PdIndexIsDigit(v);
    PdptIndexIsDigit(v);
    Pml4IndexIsDigit(v);
    LastDigit(z, d);
    LastDigit(y, c);
    LastDigit(x, b);
    LastDigit(high, a);
  }

  lemma LowBits(v: nat, page: nat, low: nat)
    requires v == page * 0x1000 + low && low < 0x1000
    ensures v / 0x1000 == page
  {
  }

  lemma LastDigit(rest: nat, digit: nat)
    requires digit < 512
    ensures (rest * 512 + digit) / 512 == rest && (rest * 512 + digit) % 512 == digit
  {
  }

  /** Every address translates as before. */
  ghost predicate SameWalks(mem: Memory, mem': Memory, root: nat) {
    forall v: nat :: Walk(mem', root, v) == Walk(mem, root, v)
  }

  // ---------------------------------------------------------------------
  // The tables form a tree
  // ---------------------------------------------------------------------

  /** A table's place: the root, or entry i of the table above it. */
  datatype Node = Top | Sub(up: Node, i: nat)

  function Depth(n: Node): nat { if n.Top? then 0 else 1 + Depth(n.up) }

  function PtNode(v: nat): Node {
    Sub(Sub(Sub(Top, Pml4Index(v)), PdptIndex(v)), PdIndex(v))
  }

  lemma PtDepth(v: nat)
    ensures Depth(PtNode(v)) == 3 && Depth(PtNode(v).up) == 2
  {
    hide Pml4Index, PdptIndex, PdIndex;
    var n := Sub(Top, Pml4Index(v));
    assert Depth(n) == 1 && Depth(Sub(n, PdptIndex(v))) == 2;
  }

  /** Which frame holds the table at each place. */
  type Tables = map<Node, nat>

  ghost predicate Placed(mem: Memory, tab: Tables) {
    && (forall n :: n in tab ==> Depth(n) <= 3 && (n.Sub? ==> n.up in tab && n.i < ENTRIES))
    && (forall n :: n in tab ==> tab[n] in mem && |mem[tab[n]]| == ENTRIES)
    && (forall m, n :: m in tab && n in tab && tab[m] == tab[n] ==> m == n)
  }

  /** An entry above the leaf level is present exactly when it points at the
      table placed below it (or, where allowed, is a 2 MiB leaf). */
  ghost predicate Linked(mem: Memory, tab: Tables, n: Node, i: nat, huge: bool)
    requires n in tab
  {
    var w := Word(mem, tab[n], i);
    && (Sub(n, i) in tab <==> Present(w) && !Huge(w))
    && (Sub(n, i) in tab ==> FrameOf(w) == tab[Sub(n, i)])
    && (Present(w) && Huge(w) ==> huge && Depth(n) == 2)
  }

  /** Non-present leaf words carry no address. */
  ghost predicate CleanLeaf(mem: Memory, tab: Tables, n: Node, i: nat)
    requires n in tab
  {
    var w := Word(mem, tab[n], i);
    Present(w) || FrameOf(w) == 0
  }

  ghost predicate Tree(mem: Memory, root: nat, tab: Tables, huge: bool) {
    && Top in tab && tab[Top] == root
    && Placed(mem, tab)
    && (forall n, i: nat :: n in tab && Depth(n) < 3 && i < ENTRIES ==> Linked(mem, tab, n, i, huge))
    && (forall n, i: nat :: n in tab && Depth(n) == 3 && i < ENTRIES ==> CleanLeaf(mem, tab, n, i))
  }

  /** The same translation read off the tree instead of through the words. */
  ghost function Lookup(mem: Memory, tab: Tables, v: nat): Option<nat> {
    if PtNode(v) in tab then
      var w := Word(mem, tab[PtNode(v)], PtIndex(v));
      if Present(w) then Some(FrameOf(w)) else None
    else if PtNode(v).up in tab then
      var w := Word(mem, tab[PtNode(v).up], PdIndex(v));
      if Present(w) && Huge(w) then Some(FrameOf(w) / 512 * 512 + PtIndex(v)) else None
    else
      None
  }

  lemma WalkInTree(mem: Memory, root: nat, tab: Tables, huge: bool, v: nat)
    requires Tree(mem, root, tab, huge)
    ensures Walk(mem, root, v) == Lookup(mem, tab, v)
  {
    hide FrameOf, Huge, Present, Word;
    var n1 := Sub(Top, Pml4Index(v));
    var n2 := Sub(n1, PdptIndex(v));
    var n3 := Sub(n2, PdIndex(v));
    assert Depth(Top) == 0 && Depth(n1) == 1 && Depth(n2) == 2;
    assert Linked(mem, tab, Top, Pml4Index(v), huge);
    if n1 in tab {
      assert Linked(mem, tab, n1, PdptIndex(v), huge);
      if n2 in tab {
        assert Linked(mem, tab, n2, PdIndex(v), huge);
      }
    }
  }

  // ---------------------------------------------------------------------
  // Changing the tree
  // ---------------------------------------------------------------------

  function SetWord(mem: Memory, frame: nat, i: nat, w: nat): Memory
    requires frame in mem && i < |mem[frame]|
  {
    var words: seq<nat> := mem[frame];
    var changed: seq<nat> := words[i := w];
    mem[frame := changed]
  }

  ghost predicate SameTables(mem: Memory, mem': Memory, tab: Tables) {
    forall n :: n in tab && tab[n] in mem ==> tab[n] in mem' && mem'[tab[n]] == mem[tab[n]]
  }

  /** Memory that is not a table does not matter. */
  lemma OtherMemory(mem: Memory, mem': Memory, root: nat, tab: Tables, huge: bool)
    requires Tree(mem, root, tab, huge) && SameTables(mem, mem', tab)
    ensures Tree(mem', root, tab, huge)
    ensures forall v :: Walk(mem', root, v) == Walk(mem, root, v)
  {
    hide FrameOf, Huge, Present;
    forall n, i: nat | n in tab && Depth(n) < 3 && i < ENTRIES
      ensures Linked(mem', tab, n, i, huge)
    {
      assert Linked(mem, tab, n, i, huge);
    }
    forall n, i: nat | n in tab && Depth(n) == 3 && i < ENTRIES
      ensures CleanLeaf(mem', tab, n, i)
    {
      assert CleanLeaf(mem, tab, n, i);
    }
    forall v
      ensures Walk(mem', root, v) == Walk(mem, root, v)
    {
      WalkInTree(mem, root, tab, huge, v);
      WalkInTree(mem', root, tab, huge, v);
    }
  }

  /** Linking a fresh zeroed table under an absent entry. */
  function AddTable(mem: Memory, tab: Tables, n: Node, i: nat, child: nat): Memory
    requires n in tab && tab[n] in mem && i < |mem[tab[n]]| && tab[n] != child
  {
    SetWord(mem[child := Zeros()], tab[n], i, Pte(child * PAGE))
  }

  ghost predicate Vacant(mem: Memory, root: nat, tab: Tables, huge: bool, n: Node, i: nat, child: nat) {
    && Tree(mem, root, tab, huge)
    && n in tab && Depth(n) < 3 && i < ENTRIES && !Present(Word(mem, tab[n], i))
    && child !in tab.Values && child < TWO_52 / PAGE
  }

  lemma AddTableWords(mem: Memory, tab: Tables, n: Node, i: nat, child: nat)
    requires n in tab && tab[n] in mem && i < |mem[tab[n]]| && tab[n] != child
    ensures var mem' := AddTable(mem, tab, n, i, child);
            && child in mem' && |mem'[child]| == ENTRIES
            && (forall f :: f in mem && f != child ==> f in mem' && |mem'[f]| == |mem[f]|)
            && forall f, k: nat :: Word(mem', f, k) == if f == child then 0
                                                       else if f == tab[n] && k == i then Pte(child * PAGE)
                                                       else Word(mem, f, k)
  {
    hide Pte;
  }

  lemma AddTableWord(mem: Memory, tab: Tables, n: Node, i: nat, child: nat, f: nat, k: nat)
    requires n in tab && tab[n] in mem && i < |mem[tab[n]]| && tab[n] != child
    ensures Word(AddTable(mem, tab, n, i, child), f, k) ==
            if f == child then 0 else if f == tab[n] && k == i then Pte(child * PAGE) else Word(mem, f, k)
  {
    AddTableWords(mem, tab, n, i, child);
  }

  lemma AddTableLinked(mem: Memory, root: nat, tab: Tables, huge: bool, n: Node, i: nat, child: nat, m: Node, k: nat)
    requires Vacant(mem, root, tab, huge, n, i, child)
    requires (m in tab || m == Sub(n, i)) && Depth(m) < 3 && k < ENTRIES
    ensures Linked(AddTable(mem, tab, n, i, child), tab[Sub(n, i) := child], m, k, huge)
  {
    hide FrameOf, Huge, Pte, AddTable, Word;
    PteOfFrame(child);
    assert Linked(mem, tab, n, i, huge);
    AddTableWord(mem, tab, n, i, child, tab[Sub(n, i) := child][m], k);
    if m in tab {
      assert Linked(mem, tab, m, k, huge);
    }
  }

  lemma AddTableClean(mem: Memory, root: nat, tab: Tables, huge: bool, n: Node, i: nat, child: nat, m: Node, k: nat)
    requires Vacant(mem, root, tab, huge, n, i, child)
    requires (m in tab || m == Sub(n, i)) && Depth(m) == 3 && k < ENTRIES
    ensures CleanLeaf(AddTable(mem, tab, n, i, child), tab[Sub(n, i) := child], m, k)
  {
    hide Huge, Pte, AddTable, Word;
    assert Linked(mem, tab, n, i, huge);
    AddTableWord(mem, tab, n, i, child, tab[Sub(n, i) := child][m], k);
    if m in tab {
      assert CleanLeaf(mem, tab, m, k);
    }
  }

  lemma AddTableTree(mem: Memory, root: nat, tab: Tables, huge: bool, n: Node, i: nat, child: nat)
    requires Vacant(mem, root, tab, huge, n, i, child)
    ensures Tree(AddTable(mem, tab, n, i, child), root, tab[Sub(n, i) := child], huge)
  {
    hide FrameOf, Huge, Pte, AddTable, Word, Linked, CleanLeaf;
    AddTableWords(mem, tab, n, i, child);
    var mem' := AddTable(mem, tab, n, i, child);
    var tab' := tab[Sub(n, i) := child];
    forall m, k: nat | m in tab' && Depth(m) < 3 && k < ENTRIES
      ensures Linked(mem', tab', m, k, huge)
    {
      AddTableLinked(mem, root, tab, huge, n, i, child, m, k);
    }
    forall m, k: nat | m in tab' && Depth(m) == 3 && k < ENTRIES
      ensures CleanLeaf(mem', tab', m, k)
    {
      AddTableClean(mem, root, tab, huge, n, i, child, m, k);
    }
    assert Linked(mem, tab, n, i, huge);
  }

  /** A fresh table maps nothing, so no translation changes. */
  lemma AddTableWalk(mem: Memory, root: nat, tab: Tables, huge: bool, n: Node, i: nat, child: nat, v: nat)
    requires Vacant(mem, root, tab, huge, n, i, child)
    ensures Walk(AddTable(mem, tab, n, i, child), root, v) == Walk(mem, root, v)
  {
    AddTableTree(mem, root, tab, huge, n, i, child);
    WalkInTree(mem, root, tab, huge, v);
    var mem' := AddTable(mem, tab, n, i, child);
    WalkInTree(mem', root, tab[Sub(n, i) := child], huge, v);
    assert Linked(mem, tab, n, i, huge);
    AddTableLookup(mem, tab, n, i, child, v);
  }

  lemma AddTableLookup(mem: Memory, tab: Tables, n: Node, i: nat, child: nat, v: nat)
    requires Placed(mem, tab)
    requires n in tab && Depth(n) < 3 && i < ENTRIES && !Present(Word(mem, tab[n], i))
    requires child !in tab.Values && Sub(n, i) !in tab
    ensures Lookup(AddTable(mem, tab, n, i, child), tab[Sub(n, i) := child], v) == Lookup(mem, tab, v)
  {
    hide FrameOf, Huge, Pte, Pml4Index, PdptIndex, PdIndex, PtIndex, AddTable, Word;
    var mem' := AddTable(mem, tab, n, i, child);
    var pt := PtNode(v);
    PtDepth(v);
    AddTableWord(mem, tab, n, i, child, child, PtIndex(v));
    AddTableWord(mem, tab, n, i, child, child, PdIndex(v));
    if pt in tab {
      AddTableWord(mem, tab, n, i, child, tab[pt], PtIndex(v));
    }
    if pt.up in tab {
      AddTableWord(mem, tab, n, i, child, tab[pt.up], PdIndex(v));
    }
  }

  /** Overwriting one leaf entry of a page table. */
  function SetLeaf(mem: Memory, tab: Tables, v: nat, w: nat): Memory
    requires PtNode(v) in tab && tab[PtNode(v)] in mem && |mem[tab[PtNode(v)]]| == ENTRIES
  {
    SetWord(mem, tab[PtNode(v)], PtIndex(v), w)
  }

  lemma SetLeafWords(mem: Memory, tab: Tables, v: nat, w: nat)
    requires PtNode(v) in tab && tab[PtNode(v)] in mem && |mem[tab[PtNode(v)]]| == ENTRIES
    ensures var mem' := SetLeaf(mem, tab, v, w);
            && mem'.Keys == mem.Keys
            && (forall f :: f in mem ==> |mem'[f]| == |mem[f]|)
            && forall f, k: nat :: Word(mem', f, k) == if f == tab[PtNode(v)] && k == PtIndex(v) then w
                                                       else Word(mem, f, k)
  {
    hide Pml4Index, PdptIndex, PdIndex;
  }

  lemma SetLeafTree(mem: Memory, root: nat, tab: Tables, huge: bool, v: nat, w: nat)
    requires Tree(mem, root, tab, huge) && PtNode(v) in tab
    requires Present(w) || FrameOf(w) == 0
    ensures Tree(SetLeaf(mem, tab, v, w), root, tab, huge)
  {
    SetLeafWords(mem, tab, v, w);
    hide FrameOf, Huge, Present, SetLeaf, Word;
    var mem' := SetLeaf(mem, tab, v, w);
    PtDepth(v);
    forall n, i: nat | n in tab && Depth(n) < 3 && i < ENTRIES
      ensures Linked(mem', tab, n, i, huge)
    {
      assert Linked(mem, tab, n, i, huge);
    }
    forall n, i: nat | n in tab && Depth(n) == 3 && i < ENTRIES
      ensures CleanLeaf(mem', tab, n, i)
    {
      assert CleanLeaf(mem, tab, n, i);
    }
  }

  lemma SetLeafLookup(mem: Memory, tab: Tables, v: nat, w: nat, u: nat)
    requires Placed(mem, tab) && PtNode(v) in tab
    ensures Lookup(SetLeaf(mem, tab, v, w), tab, u) ==
            if PtNode(u) != PtNode(v) || PtIndex(u) != PtIndex(v) then Lookup(mem, tab, u)
            else if Present(w) then Some(FrameOf(w)) else None
  {
    SetLeafWords(mem, tab, v, w);
    hide FrameOf, Huge, Present, SetLeaf, Word, Pml4Index, PdptIndex, PdIndex, PtIndex;
    PtDepth(u);
    PtDepth(v);
  }

  /** One leaf entry decides the translation of one page and of no other. */
  lemma SetLeafWalk(mem: Memory, root: nat, tab: Tables, huge: bool, v: nat, w: nat, u: nat)
    requires Tree(mem, root, tab, huge) && PtNode(v) in tab
    requires Present(w) || FrameOf(w) == 0
    requires Canonical(v) && Canonical(u)
    ensures Walk(SetLeaf(mem, tab, v, w), root, u) ==
            if u / PAGE != v / PAGE then Walk(mem, root, u) else if Present(w) then Some(FrameOf(w)) else None
  {
    SetLeafTree(mem, root, tab, huge, v, w);
    WalkInTree(mem, root, tab, huge, u);
    WalkInTree(SetLeaf(mem, tab, v, w), root, tab, huge, u);
    SetLeafLookup(mem, tab, v, w, u);
    hide *;
    if u / PAGE == v / PAGE {
      SamePage(u, v);
    } else if PtNode(u) == PtNode(v) && PtIndex(u) == PtIndex(v) {
      DifferentPage(u, v);
    }
  }

  lemma DifferentPage(u: nat, v: nat)
    requires Canonical(v) && Canonical(u) && u / PAGE != v / PAGE
    ensures PtNode(u) != PtNode(v) || PtIndex(u) != PtIndex(v)
  {
    hide Pml4Index, PdptIndex, PdIndex, PtIndex, Canonical;
    if PtNode(u) == PtNode(v) && PtIndex(u) == PtIndex(v) {
      IndicesNamePage(u, v);
    }
  }

  lemma SamePage(u: nat, v: nat)
    requires u / PAGE == v / PAGE
    ensures PtNode(u) == PtNode(v) && PtIndex(u) == PtIndex(v)
  {
    PdIndexIsDigit(v);
    PdIndexIsDigit(u);
    PdptIndexIsDigit(v);
    PdptIndexIsDigit(u);
    Pml4IndexIsDigit(v);
    Pml4IndexIsDigit(u);
  }

  /** Every table but the root is referenced by exactly one entry, and the root by none. */
  lemma OneParent(mem: Memory, root: nat, tab: Tables, m: Node, i: nat, n: Node, j: nat)
    requires Tree(mem, root, tab, false)
    requires m in tab && Depth(m) < 3 && i < ENTRIES && Present(Word(mem, tab[m], i))
    requires n in tab && Depth(n) < 3 && j < ENTRIES && Present(Word(mem, tab[n], j))
    ensures FrameOf(Word(mem, tab[m], i)) != root
    ensures FrameOf(Word(mem, tab[m], i)) == FrameOf(Word(mem, tab[n], j)) ==> m == n && i == j
  {
    hide FrameOf, Huge, Present, Word;
    assert Linked(mem, tab, m, i, false) && Linked(mem, tab, n, j, false);
  }
}
