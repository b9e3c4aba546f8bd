/** The physical frame allocator: a bitmap over page frames with a cached
    counter of the free ones (kernel/arch/x86_64/mm/pmm.c). */
module PhysicalMemory {
  import opened Common

  const EFI_CONVENTIONAL_MEMORY: nat := 7

  /** One EFI memory descriptor, reduced to the fields init_pmm reads. */
  datatype Descriptor = Descriptor(kind: nat, physicalStart: nat, numberOfPages: nat) {
    predicate Conventional() { kind == EFI_CONVENTIONAL_MEMORY }
    function End(): nat { physicalStart + numberOfPages * PAGE }
    predicate Covers(page: nat) {
      physicalStart / PAGE <= page < physicalStart / PAGE + numberOfPages
    }
  }

  // ---------------------------------------------------------------------
  // Bits of one bitmap byte
  // ---------------------------------------------------------------------

  function Mask(bit: nat): bv8
    requires bit < 8
  {
    (1 as bv8) << bit
  }

  predicate Bit(byte: bv8, i: nat)
    requires i < 8
  {
    byte & Mask(i) != 0
  }

  lemma MaskIs(bit: nat)
    requires bit < 8
    ensures Mask(bit) == if bit == 0 then 1 else if bit == 1 then 2 else if bit == 2 then 4 else if bit == 3 then 8
                         else if bit == 4 then 16 else if bit == 5 then 32 else if bit == 6 then 64 else 128
  {
  }

  lemma BitAfter(byte: bv8, i: nat, j: nat)
    requires i < 8 && j < 8
    ensures Bit(byte | Mask(i), j) <==> j == i || Bit(byte, j)
    ensures Bit(byte & !Mask(i), j) <==> j != i && Bit(byte, j)
  {
    hide Mask;
    MaskIs(i);
    MaskIs(j);
  }

  lemma BitsAfter(byte: bv8, i: nat)
    requires i < 8
    ensures forall j: nat :: j < 8 ==> (Bit(byte | Mask(i), j) <==> j == i || Bit(byte, j))
    ensures forall j: nat :: j < 8 ==> (Bit(byte & !Mask(i), j) <==> j != i && Bit(byte, j))
  {
    hide Mask, Bit;
    forall j: nat | j < 8
      ensures Bit(byte | Mask(i), j) <==> j == i || Bit(byte, j)
      ensures Bit(byte & !Mask(i), j) <==> j != i && Bit(byte, j)
    {
      BitAfter(byte, i, j);
    }
  }

  function SetBit(byte: bv8, i: nat): (r: bv8)
    requires i < 8
    ensures forall j: nat :: j < 8 ==> (Bit(r, j) <==> j == i || Bit(byte, j))
  {
    BitsAfter(byte, i);
    byte | Mask(i)
  }

  function ClearBit(byte: bv8, i: nat): (r: bv8)
    requires i < 8
    ensures forall j: nat :: j < 8 ==> (Bit(r, j) <==> j != i && Bit(byte, j))
  {
    BitsAfter(byte, i);
    byte & !Mask(i)
  }

  /** A byte is full exactly when each of its eight bits is set. */
  lemma FullByte(byte: bv8)
    ensures byte == 0xFF <==> forall i: nat :: i < 8 ==> Bit(byte, i)
  {
    if forall i: nat :: i < 8 ==> Bit(byte, i) {
      assert Bit(byte, 0) && Bit(byte, 1) && Bit(byte, 2) && Bit(byte, 3);
      assert Bit(byte, 4) && Bit(byte, 5) && Bit(byte, 6) && Bit(byte, 7);
    }
  }

  predicate BitSet(bitmap: seq<bv8>, page: nat)
    requires page < 8 * |bitmap|
  {
    Bit(bitmap[page / 8], page % 8)
  }

  /** The clear bits are exactly the free frames. */
  ghost predicate Describes(bitmap: seq<bv8>, free: set<nat>) {
    && (forall p :: p in free ==> p < 8 * |bitmap| && !BitSet(bitmap, p))
    && (forall p: nat :: p < 8 * |bitmap| && p !in free ==> BitSet(bitmap, p))
  }

  /** Changing one bit of one byte changes the state of that frame only. */
  lemma OneBit(bitmap: seq<bv8>, free: set<nat>, page: nat)
    requires Describes(bitmap, free) && page < 8 * |bitmap|
    ensures Describes(bitmap[page / 8 := SetBit(bitmap[page / 8], page % 8)], free - {page})
    ensures Describes(bitmap[page / 8 := ClearBit(bitmap[page / 8], page % 8)], free + {page})
  {
    hide Bit, SetBit, ClearBit;
    forall q: nat | q < 8 * |bitmap|
      ensures BitSet(bitmap[page / 8 := SetBit(bitmap[page / 8], page % 8)], q) <==> q == page || BitSet(bitmap, q)
      ensures BitSet(bitmap[page / 8 := ClearBit(bitmap[page / 8], page % 8)], q) <==> q != page && BitSet(bitmap, q)
    {
      if q / 8 == page / 8 {
        assert q == page <==> q % 8 == page % 8;
      }
    }
  }

  // ---------------------------------------------------------------------
  // What a memory map says
  // ---------------------------------------------------------------------

  ghost predicate Covered(efiMap: seq<Descriptor>, page: nat) {
    exists d :: d in efiMap && d.Conventional() && d.Covers(page)
  }

  /** top is the largest end of a conventional region, 0 when there is none. */
  ghost predicate IsTop(efiMap: seq<Descriptor>, top: nat) {
    && (forall d :: d in efiMap && d.Conventional() ==> d.End() <= top)
    && (top == 0 || exists d :: d in efiMap && d.Conventional() && d.End() == top)
  }

  function BitmapBytes(top: nat): nat { (top / PAGE + 7) / 8 }

  /** Address 0 doubles as "no bitmap yet", so a region at 0 never hosts it. */
  predicate CanHost(d: Descriptor, bytes: nat) {
    d.Conventional() && d.numberOfPages * PAGE >= bytes && d.physicalStart != 0
  }

  ghost predicate HoldsBitmap(page: nat, bitmapAddr: nat, bytes: nat) {
    bitmapAddr / PAGE <= page < bitmapAddr / PAGE + (bytes + PAGE - 1) / PAGE
  }

  ghost predicate Lowest(page: nat, pages: set<nat>) {
    page in pages && forall q :: q in pages ==> page <= q
  }

  lemma LowestIn(page: nat, pages: set<nat>)
    ensures Lowest(page, pages) ==> page in pages
  {
  }

  lemma LowestZero(page: nat, pages: set<nat>)
    requires Lowest(page, pages)
    ensures page == 0 <==> 0 in pages
  {
  }

  lemma PageOfAddress(page: nat)
    ensures page * PAGE / PAGE == page && page * PAGE % PAGE == 0
  {
  }

  lemma HostBelowTop(efiMap: seq<Descriptor>, top: nat, host: nat, bytes: nat)
    requires IsTop(efiMap, top)
    requires exists i :: 0 <= i < |efiMap| && CanHost(efiMap[i], bytes) && host == efiMap[i].physicalStart
    ensures host + bytes <= top
  {
  }

  // ---------------------------------------------------------------------
  // The outcome of init_pmm in plain numbers
  // ---------------------------------------------------------------------

  /** A region of kind 7, not at address 0, with pages of 4 KiB for that many bytes. */
  ghost predicate PlainRoom(d: Descriptor, bytes: nat) {
    d.kind == 7 && d.physicalStart != 0 && d.numberOfPages * 0x1000 >= bytes
  }

  /** The start of the first such region, 0 when there is none. */
  ghost predicate PlainHost(efiMap: seq<Descriptor>, bytes: nat, at: nat) {
    if at == 0 then forall d :: d in efiMap ==> !PlainRoom(d, bytes)
    else exists i :: 0 <= i < |efiMap| && PlainRoom(efiMap[i], bytes) && efiMap[i].physicalStart == at
                     && forall j :: 0 <= j < i ==> !PlainRoom(efiMap[j], bytes)
  }

  /** Memory ends where the last region of kind 7 does; one bit for each of its 4 KiB pages, in
      whole bytes, goes to the first region with room for them, without which init_pmm halts. Free
      are then the pages of those regions but page 0 and the whole pages the bitmap takes from
      its own page on. */
  ghost predicate PlainlyBuilt(efiMap: seq<Descriptor>, top: nat, halted: bool, at: nat, free: set<nat>) {
    var bytes := (top / 0x1000 + 7) / 8;
    && (forall d :: d in efiMap && d.kind == 7 ==> d.physicalStart + d.numberOfPages * 0x1000 <= top)
    && (top == 0 || exists d :: d in efiMap && d.kind == 7 && d.physicalStart + d.numberOfPages * 0x1000 == top)
    && PlainHost(efiMap, bytes, at) && (halted <==> at == 0)
    && (!halted ==> forall p: nat :: p in free <==>
          && p != 0
          && (exists d :: d in efiMap && d.kind == 7 &&
                          d.physicalStart / 0x1000 <= p < d.physicalStart / 0x1000 + d.numberOfPages)
          && !(at / 0x1000 <= p < at / 0x1000 + (bytes + 0xFFF) / 0x1000))
  }

  lemma HostPlain(efiMap: seq<Descriptor>, bytes: nat, at: nat)
    requires at == 0 <==> forall d :: d in efiMap ==> !CanHost(d, bytes)
    requires at != 0 ==> exists i :: 0 <= i < |efiMap| && CanHost(efiMap[i], bytes) && at == efiMap[i].physicalStart
                                     && forall j :: 0 <= j < i ==> !CanHost(efiMap[j], bytes)
    ensures PlainHost(efiMap, bytes, at)
  {
    assert forall d: Descriptor :: CanHost(d, bytes) <==> PlainRoom(d, bytes);
  }

  lemma BuiltPlain(efiMap: seq<Descriptor>, top: nat, halted: bool, at: nat, free: set<nat>)
    requires IsTop(efiMap, top) && PlainHost(efiMap, BitmapBytes(top), at) && (halted <==> at == 0)
    requires !halted ==>
               forall p: nat :: p in free <==> Covered(efiMap, p) && p != 0 && !HoldsBitmap(p, at, BitmapBytes(top))
    ensures PlainlyBuilt(efiMap, top, halted, at, free)
  {
    hide PlainHost;
  }

  datatype Call = PallocCall | PfreeCall(address: nat)

  /** What one call answers and does to the free frames. */
  ghost predicate Answers(call: Call, free: set<nat>, answer: nat, free': set<nat>, maxPages: nat) {
    match call
    case PallocCall =>
      if free == {} then answer == 0 && free' == free
      else answer % PAGE == 0 && Lowest(answer / PAGE, free) && free' == free - {answer / PAGE}
    case PfreeCall(address) =>
      answer == 0 && free' == if address / PAGE < maxPages then free + {address / PAGE} else free
  }

  lemma Answered(call: Call, free: set<nat>, answer: nat, free': set<nat>, maxPages: nat)
    requires call.PallocCall? && free == {} ==> answer == 0 && free' == free
    requires call.PallocCall? && free != {} ==>
               answer % PAGE == 0 && Lowest(answer / PAGE, free) && free' == free - {answer / PAGE}
    requires call.PfreeCall? ==>
               answer == 0 && free' == if call.address / PAGE < maxPages then free + {call.address / PAGE} else free
    ensures Answers(call, free, answer, free', maxPages)
    ensures 0 !in free && (call.PfreeCall? ==> call.address >= PAGE) ==> 0 !in free'
  {
    hide Lowest;
  }

  lemma AnswersZero(call: Call, free: set<nat>, answer: nat, free': set<nat>, maxPages: nat)
    requires Answers(call, free, answer, free', maxPages) && call.PallocCall?
    ensures answer == 0 <==> free == {} || 0 in free
  {
    if free != {} {
      LowestZero(answer / PAGE, free);
    }
  }

  class Pmm {
    var bitmap: array<bv8>
    var bitmapAddr: nat
    var sizeofBitmap: nat
    var maxPages: nat
    var maxPhysicalAddress: nat
    var freePages: nat
    var bitmapInit: bool

    /** The frames whose bits are clear. */
    ghost var free: set<nat>

    /** The counter is the number of clear bits below maxPages; padding bits stay set. */
    ghost predicate Valid()
      reads this, bitmap
    {
      && sizeofBitmap == bitmap.Length == (maxPages + 7) / 8
      && Describes(bitmap[..], free)
      && (forall p :: p in free ==> p < maxPages)
      && freePages == |free|
    }

    /** The zero-initialised globals: every request fails until init_pmm. */
    constructor ()
      ensures Valid() && fresh(bitmap) && !bitmapInit && maxPages == 0
    {
      bitmap := new bv8[0];
      bitmapAddr, sizeofBitmap, maxPages, maxPhysicalAddress, freePages := 0, 0, 0, 0, 0;
      bitmapInit := false;
      free := {};
    }

    method PageUsed(page: nat) returns (used: bool)
      requires Valid()
      ensures used <==> page !in free
    {
      if page >= maxPages {
        return true;
      }
      used := Bit(bitmap[page / 8], page % 8);
    }

    method MarkUsed(page: nat)
      requires Valid()
      modifies bitmap, `freePages, `free
      ensures Valid() && free == old(free) - {page}
    {
      hide Bit, SetBit, ClearBit, Describes;
      if page >= maxPages {
        return;
      }
      var used := PageUsed(page);
      if !used {
        ghost var was := bitmap[..];
        OneBit(was, free, page);
        bitmap[page / 8] := SetBit(bitmap[page / 8], page % 8);
        assert bitmap[..] == was[page / 8 := SetBit(was[page / 8], page % 8)];
        free := free - {page};
        freePages := freePages - 1;
      }
    }

    method MarkFree(page: nat)
      requires Valid()
      modifies bitmap, `freePages, `free
      ensures Valid()
      ensures free == if page < maxPages then old(free) + {page} else old(free)
    {
      hide Bit, SetBit, ClearBit, Describes;
      if page >= maxPages {
        return;
      }
      var used := PageUsed(page);
      if used {
        ghost var was := bitmap[..];
        OneBit(was, free, page);
        bitmap[page / 8] := ClearBit(bitmap[page / 8], page % 8);
        assert bitmap[..] == was[page / 8 := ClearBit(was[page / 8], page % 8)];
        free := free + {page};
        freePages := freePages + 1;
      }
    }

    /** The scan of palloc: byte by byte, skipping full bytes, then bit by bit.
        An answer of maxPages says that no frame is free. */
    method FirstFree() returns (page: nat)
      requires Valid()
      ensures free == {} ==> page == maxPages
      ensures free != {} ==> Lowest(page, free)
    {
      hide Bit;
      ghost var bits := bitmap[..];
      for byte := 0 to sizeofBitmap
        invariant forall p: nat :: p < 8 * byte ==> BitSet(bits, p)
      {
        FullByte(bitmap[byte]);
        if bitmap[byte] == 0xFF {
          continue;
        }
        for bit := 0 to 8
          invariant forall p: nat :: p < 8 * byte + bit ==> BitSet(bits, p)
        {
          if !Bit(bitmap[byte], bit) {
            page := byte * 8 + bit;
            assert !BitSet(bits, page);
            if page >= maxPages {
              assert false;  // the padding bits are always set, so this exit is dead
            }
            assert page in free;
            return;
          }
          assert BitSet(bits, 8 * byte + bit);
        }
      }
      return maxPages;
    }

    /** First fit: takes the lowest free frame, or answers 0 when there is none. A free
        frame 0 makes 0 the answer once although frames are free. */
    method Palloc() returns (address: nat)
      requires Valid()
      modifies bitmap, `freePages, `free
      ensures Valid()
      ensures !bitmapInit || old(free) == {} ==> address == 0 && free == old(free)
      ensures bitmapInit && old(free) != {} ==>
                && address % PAGE == 0
                && Lowest(address / PAGE, old(free))
                && free == old(free) - {address / PAGE}
      ensures address == 0 <==> !bitmapInit || old(free) == {} || 0 in old(free)
    {
      if !bitmapInit {
        return 0;
      }
      hide Describes, Lowest;
      var page := FirstFree();
      LowestIn(page, free);
      ghost var frames := free;
      if page >= maxPages {
        return 0;
      }
      MarkUsed(page);
      PageOfAddress(page);
      LowestZero(page, frames);
      return page * PAGE;
    }

    method Pfree(address: nat)
      requires Valid()
      modifies bitmap, `freePages, `free
      ensures Valid()
      ensures free == if address / PAGE < maxPages then old(free) + {address / PAGE} else old(free)
    {
      var page := address / PAGE;
      MarkFree(page);
    }

    /** pfree(0) is not refused: the next palloc answers 0, whatever is free. */
    method FreeZero() returns (address: nat)
      requires Valid() && bitmapInit && 0 < maxPages && 0 !in free && free != {}
      modifies bitmap, `freePages, `free
      ensures Valid() && address == 0 && free == old(free) && free != {}
    {
      hide Describes, Lowest;
      Pfree(0);
      address := Palloc();
    }

    method Do(call: Call) returns (answer: nat)
      requires Valid() && bitmapInit
      modifies bitmap, `freePages, `free
      ensures Valid() && Answers(call, old(free), answer, free, maxPages)
      ensures 0 !in old(free) && (call.PfreeCall? ==> call.address >= PAGE) ==> 0 !in free
    {
      hide Describes, Lowest, Answers;
      answer := 0;
      match call {
        case PallocCall => answer := Palloc();
        case PfreeCall(address) => Pfree(address);
      }
      Answered(call, old(free), answer, free, maxPages);
    }

    /** Any run of palloc and pfree; frees[i] are the frames free before call i. Every palloc
        answers 0 exactly when nothing is free or frame 0 is, which takes a pfree below the
        first page. */
    method Run(calls: seq<Call>) returns (answers: seq<nat>, ghost frees: seq<set<nat>>)
      requires Valid() && bitmapInit
      modifies bitmap, `freePages, `free
      ensures Valid() && |answers| == |calls| && |frees| == |calls| + 1
      ensures frees[0] == old(free) && frees[|calls|] == free
      ensures forall i :: 0 <= i < |calls| ==> Answers(calls[i], frees[i], answers[i], frees[i + 1], maxPages)
      ensures 0 !in old(free) && (forall i :: 0 <= i < |calls| && calls[i].PfreeCall? ==> calls[i].address >= PAGE) ==>
                forall i :: 0 <= i < |calls| && calls[i].PallocCall? ==> (answers[i] == 0 <==> frees[i] == {})
    {
      hide Valid, Answers;
      answers, frees := [], [free];
      ghost var kind := 0 !in free && forall i :: 0 <= i < |calls| && calls[i].PfreeCall? ==> calls[i].address >= PAGE;
      for i := 0 to |calls|
        invariant Valid() && |answers| == i && |frees| == i + 1 && frees[0] == old(free) && frees[i] == free
        invariant forall j :: 0 <= j < i ==> Answers(calls[j], frees[j], answers[j], frees[j + 1], maxPages)
        invariant kind ==> forall j :: 0 <= j <= i ==> 0 !in frees[j]
      {
        var answer := Do(calls[i]);
        answers, frees := answers + [answer], frees + [free];
      }
      forall i | 0 <= i < |calls| && kind && calls[i].PallocCall?
        ensures answers[i] == 0 <==> frees[i] == {}
      {
        AnswersZero(calls[i], frees[i], answers[i], frees[i + 1], maxPages);
      }
    }

    /** First loop of init_pmm. */
    static method TopOf(efiMap: seq<Descriptor>) returns (top: nat)
      ensures IsTop(efiMap, top)
    {
      top := 0;
      for i := 0 to |efiMap|
        invariant IsTop(efiMap[..i], top)
      {
        var d := efiMap[i];
        assert efiMap[..i + 1] == efiMap[..i] + [d];
        if d.Conventional() {
          var end := d.physicalStart + d.numberOfPages * PAGE;
          if end > top {
            top := end;
          }
        }
      }
      assert efiMap[..|efiMap|] == efiMap;
    }

    /** Second loop of init_pmm: the first region that can hold the bitmap, 0 when there is none. */
    static method HostFor(efiMap: seq<Descriptor>, bytes: nat) returns (host: nat)
      ensures host == 0 <==> forall d :: d in efiMap ==> !CanHost(d, bytes)
      ensures host != 0 ==> exists i :: 0 <= i < |efiMap| && CanHost(efiMap[i], bytes)
                                        && host == efiMap[i].physicalStart
                                        && forall j :: 0 <= j < i ==> !CanHost(efiMap[j], bytes)
    {
      host := 0;
      for i := 0 to |efiMap|
        invariant host == 0 ==> forall j :: 0 <= j < i ==> !CanHost(efiMap[j], bytes)
        invariant host != 0 ==> exists k :: 0 <= k < i && CanHost(efiMap[k], bytes)
                                            && host == efiMap[k].physicalStart
                                            && forall j :: 0 <= j < k ==> !CanHost(efiMap[j], bytes)
      {
        var d := efiMap[i];
        if !d.Conventional() {
          continue;
        }
        var chunk := d.numberOfPages * PAGE;
        if chunk >= bytes && host == 0 {
          host := d.physicalStart;
        }
      }
    }

    /** The first half of init_pmm: how much memory there is, and where its bitmap goes. */
    method Measure(efiMap: seq<Descriptor>)
      modifies `maxPhysicalAddress, `maxPages, `sizeofBitmap, `bitmapAddr
      ensures IsTop(efiMap, maxPhysicalAddress) && maxPages == maxPhysicalAddress / PAGE
      ensures sizeofBitmap == (maxPages + 7) / 8 == BitmapBytes(maxPhysicalAddress)
      ensures bitmapAddr == 0 <==> forall d :: d in efiMap ==> !CanHost(d, BitmapBytes(maxPhysicalAddress))
      ensures bitmapAddr != 0 ==>
                && bitmapAddr + sizeofBitmap <= maxPhysicalAddress
                && exists d :: d in efiMap && CanHost(d, sizeofBitmap) && bitmapAddr == d.physicalStart
      ensures PlainHost(efiMap, sizeofBitmap, bitmapAddr)
    {
      hide IsTop, CanHost, PlainHost;
      maxPhysicalAddress := TopOf(efiMap);
      maxPages := maxPhysicalAddress / PAGE;
      sizeofBitmap := (maxPages + 7) / 8;
      bitmapAddr := HostFor(efiMap, sizeofBitmap);
      if bitmapAddr != 0 {
        HostBelowTop(efiMap, maxPhysicalAddress, bitmapAddr, sizeofBitmap);
      }
      HostPlain(efiMap, sizeofBitmap, bitmapAddr);
    }

    /** Builds the bitmap from the firmware's memory map. Halting (the panic
        "No room for PMM bitmap") is the outcome halted. */
    method InitPmm(efiMap: seq<Descriptor>) returns (halted: bool)
      requires forall d :: d in efiMap ==> d.End() < TWO_64
      modifies this
      ensures IsTop(efiMap, maxPhysicalAddress)
      ensures halted <==> forall d :: d in efiMap ==> !CanHost(d, BitmapBytes(maxPhysicalAddress))
      ensures !halted ==>
                && Valid() && fresh(bitmap) && bitmapInit
                && maxPages == maxPhysicalAddress / PAGE
                && bitmapAddr + sizeofBitmap <= maxPhysicalAddress
                && exists d :: d in efiMap && CanHost(d, sizeofBitmap) && bitmapAddr == d.physicalStart
      ensures !halted ==> forall p: nat :: p in free <==>
                            Covered(efiMap, p) && p != 0 && !HoldsBitmap(p, bitmapAddr, sizeofBitmap)
      ensures PlainlyBuilt(efiMap, maxPhysicalAddress, halted, bitmapAddr, free)
    {
      hide Describes, IsTop, CanHost, Covered, HoldsBitmap, PlainlyBuilt, PlainHost;
      freePages := 0;
      Measure(efiMap);
      if bitmapAddr == 0 {
        BuiltPlain(efiMap, maxPhysicalAddress, true, bitmapAddr, free);
        return true;
      }
      FillBitmap();
      FreeConventional(efiMap);
      MarkUsed(0);
      ReserveBitmap();
      bitmapInit := true;
      BuiltPlain(efiMap, maxPhysicalAddress, false, bitmapAddr, free);
      return false;
    }

    /** The memset of init_pmm: every frame starts out used. */
    method FillBitmap()
      requires sizeofBitmap == (maxPages + 7) / 8 && freePages == 0
      modifies `bitmap, `free
      ensures Valid() && fresh(bitmap) && free == {}
    {
      bitmap := new bv8[sizeofBitmap](_ => 0xFF);
      free := {};
      forall p: nat | p < 8 * bitmap.Length
        ensures BitSet(bitmap[..], p)
      {
        FullByte(bitmap[p / 8]);
      }
    }

    /** Last loop of init_pmm: the frames under the bitmap are in use. */
    method ReserveBitmap()
      requires Valid()
      modifies bitmap, `freePages, `free
      ensures Valid()
      ensures forall p: nat :: p in free <==> p in old(free) && !HoldsBitmap(p, bitmapAddr, sizeofBitmap)
    {
      hide Describes;
      var bitmapStartPage := bitmapAddr / PAGE;
      var bitmapPages := (sizeofBitmap + PAGE - 1) / PAGE;
      for i := 0 to bitmapPages
        invariant Valid()
        invariant forall p: nat :: p in free <==>
                    p in old(free) && !(bitmapStartPage <= p < bitmapStartPage + i)
      {
        MarkUsed(bitmapStartPage + i);
      }
    }

    /** The nested loops of init_pmm that clear the bits of conventional memory. */
    method FreeConventional(efiMap: seq<Descriptor>)
      requires Valid() && free == {}
      requires IsTop(efiMap, maxPhysicalAddress) && maxPages == maxPhysicalAddress / PAGE
      modifies bitmap, `freePages, `free
      ensures Valid()
      ensures forall p: nat :: p in free <==> Covered(efiMap, p)
    {
      hide Describes;
      for i := 0 to |efiMap|
        invariant Valid()
        invariant forall p: nat :: p in free <==> Covered(efiMap[..i], p)
      {
        var d := efiMap[i];
        assert efiMap[..i + 1] == efiMap[..i] + [d];
        if d.Conventional() {
          var start := d.physicalStart / PAGE;
          for k := 0 to d.numberOfPages
            invariant Valid()
            invariant forall p: nat :: p in free <==> Covered(efiMap[..i], p) || start <= p < start + k
          {
            assert d in efiMap && d.End() <= maxPhysicalAddress;
            MarkFree(start + k);
          }
        }
      }
      assert efiMap[..|efiMap|] == efiMap;
    }

    /** The boot-time self test: before init_pmm nothing can be allocated or
        freed, and afterwards one allocation and its release cancel out. */
    method SelfTest(efiMap: seq<Descriptor>) returns (halted: bool)
      requires Valid() && !bitmapInit && maxPages == 0
      requires forall d :: d in efiMap ==> d.End() < TWO_64
      modifies this, bitmap
      ensures !halted ==> Valid() && bitmapInit && fresh(bitmap)
      ensures !halted ==> forall p: nat :: p in free <==>
                            Covered(efiMap, p) && p != 0 && !HoldsBitmap(p, bitmapAddr, sizeofBitmap)
      ensures halted ==> || (forall d :: d in efiMap ==> !CanHost(d, BitmapBytes(maxPhysicalAddress)))
                         || (Valid() && free == {})
    {
      hide Describes, IsTop, PlainlyBuilt, CanHost, Covered, HoldsBitmap;
      var page := Palloc();
      if page != 0 {
        assert false;  // "Allocated before PMM init" cannot happen
      }
      for i := 0 to 15
        invariant Valid() && free == {} && maxPages == 0 && bitmap == old(bitmap)
      {
        Pfree(i * 0x1000);
      }
      halted := InitPmm(efiMap);
      if halted {
        return;
      }
      var before := freePages;
      ghost var frames := free;
      page := Palloc();
      if page == 0 {
        return true;  // "Allocation failed"
      }
      Pfree(page);
      assert free == frames;
      if freePages != before {
        assert false;  // "Page count mismatch" cannot happen
      }
    }
  }

  /** When the hosting region is page aligned, the frames reserved for the
      bitmap are exactly those its bytes touch, and the region covers them all. */
  lemma BitmapInsideRegion(d: Descriptor, bytes: nat, page: nat)
    requires CanHost(d, bytes) && d.physicalStart % PAGE == 0
    ensures HoldsBitmap(page, d.physicalStart, bytes) <==>
            exists a: nat :: d.physicalStart <= a < d.physicalStart + bytes && a / PAGE == page
    ensures HoldsBitmap(page, d.physicalStart, bytes) ==> d.Covers(page)
  {
    if HoldsBitmap(page, d.physicalStart, bytes) {
      var a := page * PAGE;
      assert d.physicalStart <= a < d.physicalStart + bytes && a / PAGE == page;
    }
  }
}
