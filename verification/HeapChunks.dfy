/** The kernel heap as a value: the chunk list of kernel/lib/kmalloc.c, the
    headers in memory that represent it, and what each operation does to both. */
module HeapChunks {
  import opened Common

  const HEADER: nat := 32
  const ALIGNMENT: nat := 16
  const MIN_SPLIT: nat := 32
  const MIN_CHUNK: nat := 48
  const STATE_FREE: nat := 0xA1A1_A1A1
  const STATE_USED: nat := 0xBFBF_BFBF

  /** Adds one less than the alignment in 64 bits and cuts off the remainder. */
  function AlignUp(value: nat, alignment: nat): nat
    requires alignment == ALIGNMENT || alignment == PAGE
  {
    var v := (value + alignment - 1) % TWO_64;
    v - v % alignment
  }

  /** Without overflow the result is the least multiple not below the value. */
  lemma AlignUpRounds(value: nat, alignment: nat)
    requires alignment == ALIGNMENT || alignment == PAGE
    requires value + alignment - 1 < TWO_64
    ensures AlignUp(value, alignment) % alignment == 0
    ensures value <= AlignUp(value, alignment) < value + alignment
  {
  }

  /** The last values wrap to 0: a request of 2^64 - 1 bytes rounds to none. */
  lemma AlignUpWraps(value: nat)
    requires TWO_64 - ALIGNMENT < value < TWO_64
    ensures AlignUp(value, ALIGNMENT) == 0
  {
  }

  /** What kmalloc makes of a size, rounding and header addition both in 64 bits, is
      enough for the size exactly up to 2^64 - 48. */
  lemma RequiredIff(size: nat)
    requires 0 < size < TWO_64
    ensures (AlignUp(size, ALIGNMENT) + HEADER) % TWO_64 >= size + HEADER <==> size <= TWO_64 - MIN_CHUNK
  {
    if size <= TWO_64 - MIN_CHUNK {
      AlignUpRounds(size, ALIGNMENT);
      RoundedBelow(size);
    } else if size <= TWO_64 - ALIGNMENT {
      AlignUpRounds(size, ALIGNMENT);
      assert (AlignUp(size, ALIGNMENT) + HEADER) % TWO_64 < TWO_64;
    } else {
      AlignUpWraps(size);
    }
  }

  lemma RoundedBelow(size: nat)
    requires 0 < size <= TWO_64 - MIN_CHUNK
    ensures AlignUp(size, ALIGNMENT) <= TWO_64 - MIN_CHUNK
  {
    AlignUpRounds(size, ALIGNMENT);
  }

  /** A chunk header in memory. */
  datatype Header = Header(state: nat, length: nat, next: nat, prev: nat)

  /** Memory by address, where headers are. Address 0 is NULL. */
  type Memory = map<nat, Header>

  /** A chunk of the list; its length includes the header. */
  datatype Chunk = Chunk(at: nat, length: nat, used: bool) {
    function End(): nat { at + length }
    function Payload(): nat { at + HEADER }
  }

  function StateOf(used: bool): nat { if used then STATE_USED else STATE_FREE }

  function NextOf(cs: seq<Chunk>, i: nat): nat { if i + 1 < |cs| then cs[i + 1].at else 0 }

  function PrevOf(cs: seq<Chunk>, i: nat): nat
    requires i <= |cs|
  {
    if i > 0 then cs[i - 1].at else 0
  }

  function First(cs: seq<Chunk>): nat { if cs == [] then 0 else cs[0].at }

  // ---------------------------------------------------------------------
  // The invariants
  // ---------------------------------------------------------------------

  /** The chunks cover start to end exactly, without gap or overlap. */
  ghost predicate Tiles(cs: seq<Chunk>, start: nat, end: nat) {
    && (cs == [] ==> start == end)
    && (cs != [] ==> cs[0].at == start && cs[|cs| - 1].End() == end)
    && (forall i :: 0 <= i < |cs| - 1 ==> cs[i].End() == cs[i + 1].at)
    && (forall i :: 0 <= i < |cs| ==> cs[i].length >= MIN_CHUNK && Aligned(cs[i].length))
    && (forall i :: 0 <= i < |cs| ==> cs[i].at > 0 && Aligned(cs[i].at))
  }

  predicate Aligned(a: nat) { a % ALIGNMENT == 0 }

  lemma AlignedSum(a: nat, b: nat)
    requires Aligned(a) && Aligned(b)
    ensures Aligned(a + b) && (a >= b ==> Aligned(a - b))
  {
  }

  /** No two neighbours are both free. */
  ghost predicate Coalesced(cs: seq<Chunk>) {
    forall i :: 0 <= i < |cs| - 1 ==> cs[i].used || cs[i + 1].used
  }

  /** Following next from the head, the headers spell out the list. */
  ghost predicate Forward(mem: Memory, head: nat, cs: seq<Chunk>) {
    && head == First(cs)
    && forall i :: 0 <= i < |cs| ==>
         && cs[i].at in mem
         && mem[cs[i].at].state == StateOf(cs[i].used)
         && mem[cs[i].at].length == cs[i].length
         && mem[cs[i].at].next == NextOf(cs, i)
  }

  /** The header chunk i should have; prev undoes next. */
  function HeaderOf(cs: seq<Chunk>, i: nat): Header
    requires i < |cs|
  {
    Header(StateOf(cs[i].used), cs[i].length, NextOf(cs, i), PrevOf(cs, i))
  }

  /** The headers spell out the list in both directions. */
  ghost predicate Threaded(mem: Memory, head: nat, cs: seq<Chunk>) {
    head == First(cs) && forall i :: 0 <= i < |cs| ==> cs[i].at in mem && mem[cs[i].at] == HeaderOf(cs, i)
  }

  ghost predicate HeapOk(mem: Memory, head: nat, cs: seq<Chunk>, start: nat, end: nat) {
    Tiles(cs, start, end) && Coalesced(cs) && Threaded(mem, head, cs)
  }

  /** Earlier chunks end where later ones begin, or before. */
  lemma {:induction false} Ordered(cs: seq<Chunk>, start: nat, end: nat, i: nat, j: nat)
    requires Tiles(cs, start, end) && i < j < |cs|
    ensures cs[i].End() <= cs[j].at
    decreases j
  {
    if i + 1 < j {
      Ordered(cs, start, end, i, j - 1);
    }
  }

  lemma Differ(cs: seq<Chunk>, start: nat, end: nat, i: nat, j: nat)
    requires Tiles(cs, start, end) && i < |cs| && j < |cs| && i != j
    ensures cs[i].at != cs[j].at && cs[i].at > 0
  {
    if i < j {
      Ordered(cs, start, end, i, j);
    } else {
      Ordered(cs, start, end, j, i);
    }
  }

  lemma PayloadAligned(cs: seq<Chunk>, start: nat, end: nat, i: nat)
    requires Tiles(cs, start, end) && i < |cs|
    ensures Aligned(cs[i].Payload())
  {
    AlignedSum(cs[i].at, HEADER);
  }

  /** Payloads of different chunks are disjoint, lie inside the heap, start at
      multiples of 16 and contain no header of any chunk. */
  lemma PayloadsDisjoint(cs: seq<Chunk>, start: nat, end: nat, i: nat, j: nat, a: nat)
    requires Tiles(cs, start, end) && i < |cs| && j < |cs|
    requires cs[i].Payload() <= a < cs[i].End()
    ensures start <= a < end && Aligned(cs[i].Payload())
    ensures i != j ==> !(cs[j].Payload() <= a < cs[j].End())
    ensures !(cs[j].at <= a < cs[j].Payload())
  {
    PayloadAligned(cs, start, end, i);
    hide Aligned;
    if i < j {
      Ordered(cs, start, end, i, j);
    } else if j < i {
      Ordered(cs, start, end, j, i);
    }
    if i > 0 {
      Ordered(cs, start, end, 0, i);
    }
    if i < |cs| - 1 {
      Ordered(cs, start, end, i, |cs| - 1);
    }
  }

  /** The lengths add up to the size of the heap. */
  function TotalLength(cs: seq<Chunk>): nat {
    if cs == [] then 0 else TotalLength(cs[..|cs| - 1]) + cs[|cs| - 1].length
  }

  lemma {:induction false} LengthsSum(cs: seq<Chunk>, start: nat, end: nat)
    requires Tiles(cs, start, end)
    ensures TotalLength(cs) == end - start
  {
    if cs != [] {
      var init := cs[..|cs| - 1];
      assert init != [] ==> init[|init| - 1] == cs[|cs| - 2];
      LengthsSum(init, start, if init == [] then start else cs[|cs| - 1].at);
    }
  }

  lemma SameHeader(mem: Memory, head: nat, cs: seq<Chunk>, ds: seq<Chunk>, i: nat)
    requires Forward(mem, head, cs) && Forward(mem, head, ds) && i < |cs| && i < |ds| && cs[i].at == ds[i].at
    ensures cs[i] == ds[i] && NextOf(cs, i) == NextOf(ds, i)
  {
  }

  /** The headers determine the list: no other list fits the same memory. */
  lemma {:induction false} ListUnique(mem: Memory, head: nat, cs: seq<Chunk>, ds: seq<Chunk>, n: nat)
    requires Forward(mem, head, cs) && Forward(mem, head, ds)
    requires forall i :: 0 <= i < |cs| ==> cs[i].at > 0
    requires forall i :: 0 <= i < |ds| ==> ds[i].at > 0
    requires n <= |cs|
    ensures n <= |ds| && cs[..n] == ds[..n]
    ensures n == |cs| ==> cs == ds
  {
    hide Forward;
    if n == 0 {
      FirstChunk(mem, head, cs, ds);
    } else {
      ListUnique(mem, head, cs, ds, n - 1);
      if n == 1 {
        FirstChunk(mem, head, cs, ds);
      } else {
        assert cs[..n - 1][n - 2] == ds[..n - 1][n - 2];
        SameHeader(mem, head, cs, ds, n - 2);
      }
      SameHeader(mem, head, cs, ds, n - 1);
    }
  }

  lemma FirstChunk(mem: Memory, head: nat, cs: seq<Chunk>, ds: seq<Chunk>)
    requires Forward(mem, head, cs) && Forward(mem, head, ds)
    ensures First(cs) == First(ds) == head
  {
  }

  // ---------------------------------------------------------------------
  // Operations on the list
  // ---------------------------------------------------------------------

  function Mark(cs: seq<Chunk>, k: nat, used: bool): (r: seq<Chunk>)
    requires k < |cs|
  {
    cs[k := Chunk(cs[k].at, cs[k].length, used)]
  }

  /** Chunk k swallows the one after it. */
  function MergeAt(cs: seq<Chunk>, k: nat): (r: seq<Chunk>)
    requires k + 1 < |cs|
    ensures |r| == |cs| - 1
    ensures forall i :: 0 <= i < |r| ==>
              r[i] == if i < k then cs[i]
                      else if i == k then Chunk(cs[k].at, cs[k].length + cs[k + 1].length, cs[k].used)
                      else cs[i + 1]
  {
    cs[..k] + [Chunk(cs[k].at, cs[k].length + cs[k + 1].length, cs[k].used)] + cs[k + 2..]
  }

  /** Chunk k keeps length bytes, a free chunk gets the rest. */
  function SplitAt(cs: seq<Chunk>, k: nat, length: nat): (r: seq<Chunk>)
    requires k < |cs| && length <= cs[k].length
    ensures |r| == |cs| + 1
    ensures forall i :: 0 <= i < |r| ==>
              r[i] == if i < k then cs[i]
                      else if i == k then Chunk(cs[k].at, length, cs[k].used)
                      else if i == k + 1 then Chunk(cs[k].at + length, cs[k].length - length, false)
                      else cs[i - 1]
  {
    cs[..k] + [Chunk(cs[k].at, length, cs[k].used), Chunk(cs[k].at + length, cs[k].length - length, false)]
            + cs[k + 1..]
  }

  predicate BothFree(cs: seq<Chunk>, k: nat)
    requires k + 1 < |cs|
  {
    !cs[k].used && !cs[k + 1].used
  }

  predicate Fits(c: Chunk, required: nat) { !c.used && c.length >= required }

  /** The first free chunk that is large enough; |cs| when there is none. */
  function FirstFit(cs: seq<Chunk>, required: nat): (k: nat)
    ensures k <= |cs|
    ensures k < |cs| ==> Fits(cs[k], required)
    ensures forall i :: 0 <= i < k ==> !Fits(cs[i], required)
  {
    if cs == [] then 0
    else if Fits(cs[0], required) then 0
    else 1 + FirstFit(cs[1..], required)
  }

  /** What kmalloc makes of the chunk it chose. */
  function Allocate(cs: seq<Chunk>, k: nat, required: nat): seq<Chunk>
    requires k < |cs| && required <= cs[k].length
  {
    if cs[k].length >= required + HEADER + MIN_SPLIT then Mark(SplitAt(cs, k, required), k, true)
    else Mark(cs, k, true)
  }

  function MergeRight(cs: seq<Chunk>, k: nat): seq<Chunk> {
    if k + 1 < |cs| && BothFree(cs, k) then MergeAt(cs, k) else cs
  }

  function MergeLeft(cs: seq<Chunk>, k: nat): seq<Chunk> {
    if 0 < k < |cs| && BothFree(cs, k - 1) then MergeAt(cs, k - 1) else cs
  }

  /** Freeing chunk k and merging it with whichever neighbours are free. */
  function Freed(cs: seq<Chunk>, k: nat): seq<Chunk>
    requires k < |cs|
  {
    MergeLeft(MergeRight(Mark(cs, k, false), k), k)
  }

  /** A new region of free memory at the end of the heap. */
  function WithRegion(cs: seq<Chunk>, at: nat, bytes: nat): seq<Chunk> {
    var longer := cs + [Chunk(at, bytes, false)];
    if cs != [] && !cs[|cs| - 1].used then MergeAt(longer, |cs| - 1) else longer
  }

  // ---------------------------------------------------------------------
  // The operations keep the tiling and the coalescing
  // ---------------------------------------------------------------------

  lemma MarkTiles(cs: seq<Chunk>, start: nat, end: nat, k: nat, used: bool)
    requires Tiles(cs, start, end) && k < |cs|
    ensures Tiles(Mark(cs, k, used), start, end)
  {
  }

  lemma MergeTiles(cs: seq<Chunk>, start: nat, end: nat, k: nat)
    requires Tiles(cs, start, end) && k + 1 < |cs|
    ensures Tiles(MergeAt(cs, k), start, end)
  {
    AlignedSum(cs[k].length, cs[k + 1].length);
    hide MergeAt, Aligned;
  }

  lemma SplitTiles(cs: seq<Chunk>, start: nat, end: nat, k: nat, length: nat)
    requires Tiles(cs, start, end) && k < |cs|
    requires MIN_CHUNK <= length && Aligned(length) && cs[k].length >= length + MIN_CHUNK
    ensures Tiles(SplitAt(cs, k, length), start, end)
  {
    AlignedSum(cs[k].at, length);
    AlignedSum(cs[k].length, length);
    hide SplitAt, Aligned;
    var ss := SplitAt(cs, k, length);
    forall i | 0 <= i < |ss|
      ensures ss[i].at > 0 && Aligned(ss[i].at) && ss[i].length >= MIN_CHUNK && Aligned(ss[i].length)
      ensures i < |ss| - 1 ==> ss[i].End() == ss[i + 1].at
    {
      var j := if i <= k then i else i - 1;
      assert cs[j].at > 0 && Aligned(cs[j].at) && cs[j].length >= MIN_CHUNK && Aligned(cs[j].length);
      assert j < |cs| - 1 ==> cs[j].End() == cs[j + 1].at;
    }
    assert ss[|ss| - 1].End() == cs[|cs| - 1].End();
  }

  lemma WithRegionTiles(cs: seq<Chunk>, start: nat, end: nat, bytes: nat)
    requires Tiles(cs, start, end) && start > 0 && Aligned(start)
    requires bytes >= MIN_CHUNK && Aligned(bytes)
    ensures Tiles(WithRegion(cs, end, bytes), start, end + bytes)
  {
    hide MergeAt, Aligned;
    var longer := cs + [Chunk(end, bytes, false)];
    if cs != [] {
      var last := cs[|cs| - 1];
      assert Aligned(end) by { AlignedSum(last.at, last.length); }
    }
    assert Tiles(longer, start, end + bytes);
    if cs != [] && !cs[|cs| - 1].used {
      MergeTiles(longer, start, end + bytes, |cs| - 1);
    }
  }

  lemma AllocateTiles(cs: seq<Chunk>, start: nat, end: nat, k: nat, required: nat)
    requires Tiles(cs, start, end) && k < |cs| && Fits(cs[k], required)
    requires required >= MIN_CHUNK && Aligned(required)
    ensures Tiles(Allocate(cs, k, required), start, end) && k < |Allocate(cs, k, required)|
    ensures Allocate(cs, k, required)[k].at == cs[k].at && Allocate(cs, k, required)[k].used
    ensures Allocate(cs, k, required)[k].length >= required
  {
    if cs[k].length >= required + HEADER + MIN_SPLIT {
      SplitTiles(cs, start, end, k, required);
      MarkTiles(SplitAt(cs, k, required), start, end, k, true);
    } else {
      MarkTiles(cs, start, end, k, true);
    }
  }

  lemma AllocateKeeps(cs: seq<Chunk>, start: nat, end: nat, k: nat, required: nat)
    requires Tiles(cs, start, end) && Coalesced(cs) && k < |cs| && Fits(cs[k], required)
    requires required >= MIN_CHUNK && Aligned(required)
    ensures Tiles(Allocate(cs, k, required), start, end) && Coalesced(Allocate(cs, k, required))
    ensures k < |Allocate(cs, k, required)|
    ensures Allocate(cs, k, required)[k].at == cs[k].at && Allocate(cs, k, required)[k].used
    ensures Allocate(cs, k, required)[k].length >= required
  {
    AllocateTiles(cs, start, end, k, required);
  }

  lemma FreedKeeps(cs: seq<Chunk>, start: nat, end: nat, k: nat)
    requires Tiles(cs, start, end) && Coalesced(cs) && k < |cs|
    ensures Tiles(Freed(cs, k), start, end) && Coalesced(Freed(cs, k))
  {
    FreedTiles(cs, start, end, k);
    MergedRight(Mark(cs, k, false), k);
    MergedLeft(MergeRight(Mark(cs, k, false), k), k);
  }

  lemma FreedTiles(cs: seq<Chunk>, start: nat, end: nat, k: nat)
    requires Tiles(cs, start, end) && k < |cs|
    ensures Tiles(Freed(cs, k), start, end)
  {
    hide Tiles;
    var freed := Mark(cs, k, false);
    MarkTiles(cs, start, end, k, false);
    if k + 1 < |freed| && BothFree(freed, k) {
      MergeTiles(freed, start, end, k);
    }
    var right := MergeRight(freed, k);
    if k > 0 && BothFree(right, k - 1) {
      MergeTiles(right, start, end, k - 1);
    }
  }

  /** Neighbours other than the pairs listed in except are not both free. */
  ghost predicate CoalescedBut(cs: seq<Chunk>, except: set<int>) {
    forall i :: 0 <= i < |cs| - 1 && i !in except ==> cs[i].used || cs[i + 1].used
  }

  lemma MergedRight(cs: seq<Chunk>, k: nat)
    requires k < |cs| && !cs[k].used && CoalescedBut(cs, {k - 1, k})
    ensures CoalescedBut(MergeRight(cs, k), {k - 1})
    ensures k < |MergeRight(cs, k)| && !MergeRight(cs, k)[k].used
  {
  }

  lemma MergedLeft(cs: seq<Chunk>, k: nat)
    requires k < |cs| && !cs[k].used && CoalescedBut(cs, {k - 1})
    ensures Coalesced(MergeLeft(cs, k))
  {
  }

  lemma WithRegionCoalesced(cs: seq<Chunk>, at: nat, bytes: nat)
    requires Coalesced(cs)
    ensures Coalesced(WithRegion(cs, at, bytes))
  {
  }

  /** Freeing what was just allocated, without growth between, restores the list. */
  lemma FreeUndoesAllocate(cs: seq<Chunk>, k: nat, required: nat)
    requires Coalesced(cs) && k < |cs| && Fits(cs[k], required)
    ensures Freed(Allocate(cs, k, required), k) == cs
    ensures k > 0 ==> Allocate(cs, k, required)[k - 1].used
  {
    var mid := Allocate(cs, k, required);
    assert k > 0 ==> mid[k - 1] == cs[k - 1];
  }

  /** Allocating, growing and freeing touch the lengths and states of no used chunk but the one concerned. */
  lemma OthersKept(cs: seq<Chunk>, k: nat, required: nat, c: Chunk, at: nat, bytes: nat)
    requires k < |cs|
    requires c in cs && c.used && c != cs[k]
    ensures Fits(cs[k], required) ==> c in Allocate(cs, k, required)
    ensures c in Freed(cs, k)
    ensures c in WithRegion(cs, at, bytes)
  {
    var i :| 0 <= i < |cs| && cs[i] == c;
    assert WithRegion(cs, at, bytes)[i] == c;
    hide MergeRight, MergeLeft, Allocate;
    assert Mark(cs, k, false)[i] == c;
    UsedSurvivesMerge(Mark(cs, k, false), k, c);
    UsedSurvivesMerge(MergeRight(Mark(cs, k, false), k), k, c);
    if Fits(cs[k], required) {
      UsedSurvivesAllocate(cs, k, required, i);
    }
  }

  lemma UsedSurvivesAllocate(cs: seq<Chunk>, k: nat, required: nat, i: nat)
    requires k < |cs| && required <= cs[k].length && i < |cs| && i != k
    ensures cs[i] in Allocate(cs, k, required)
  {
    var mid := Allocate(cs, k, required);
    assert mid[if |mid| > |cs| && i > k then i + 1 else i] == cs[i];
  }

  lemma UsedSurvivesMerge(cs: seq<Chunk>, k: nat, c: Chunk)
    requires c in cs && c.used
    ensures c in MergeRight(cs, k) && c in MergeLeft(cs, k)
  {
    var i :| 0 <= i < |cs| && cs[i] == c;
    var right := MergeRight(cs, k);
    assert right[if |right| < |cs| && i > k then i - 1 else i] == c;
    var left := MergeLeft(cs, k);
    assert left[if |left| < |cs| && i > k - 1 then i - 1 else i] == c;
  }

  ghost function InUse(cs: seq<Chunk>): set<Chunk> { set c | c in cs && c.used }

  lemma MergeInUse(cs: seq<Chunk>, k: nat)
    ensures InUse(MergeRight(cs, k)) == InUse(cs)
  {
    var ms := MergeRight(cs, k);
    forall c | c in InUse(cs)
      ensures c in ms
    {
      UsedSurvivesMerge(cs, k, c);
    }
    forall c | c in InUse(ms)
      ensures c in cs
    {
      var i :| 0 <= i < |ms| && ms[i] == c;
      assert c == cs[i] || c == cs[if i + 1 < |cs| then i + 1 else i];
    }
  }

  lemma FreedInUse(cs: seq<Chunk>, start: nat, end: nat, k: nat)
    requires Tiles(cs, start, end) && k < |cs|
    ensures InUse(Mark(cs, k, false)) == InUse(cs) - {cs[k]}
  {
    hide Tiles;
    var fs := Mark(cs, k, false);
    forall c | c in InUse(fs)
      ensures c in cs && c != cs[k]
    {
      var i :| 0 <= i < |fs| && fs[i] == c;
      Differ(cs, start, end, i, k);
    }
    forall c | c in InUse(cs) && c != cs[k]
      ensures c in fs
    {
      var i :| 0 <= i < |cs| && cs[i] == c;
      assert fs[i] == c;
    }
  }

  /** kmalloc adds the chunk taken to those in use, and takes none away. */
  lemma AllocateInUse(cs: seq<Chunk>, k: nat, required: nat)
    requires k < |cs| && Fits(cs[k], required)
    ensures k < |Allocate(cs, k, required)|
    ensures InUse(Allocate(cs, k, required)) == InUse(cs) + {Allocate(cs, k, required)[k]}
  {
    var ds := Allocate(cs, k, required);
    assert ds[k].used;
    forall c | c in InUse(ds) && c != ds[k]
      ensures c in cs
    {
      var i :| 0 <= i < |ds| && ds[i] == c;
      assert c == cs[if |ds| > |cs| && i > k then i - 1 else i];
    }
    forall c | c in InUse(cs)
      ensures c in ds
    {
      var i :| 0 <= i < |cs| && cs[i] == c;
      UsedSurvivesAllocate(cs, k, required, i);
    }
  }

  lemma RegionInUse(cs: seq<Chunk>, at: nat, bytes: nat)
    ensures InUse(WithRegion(cs, at, bytes)) == InUse(cs)
  {
    var longer := cs + [Chunk(at, bytes, false)];
    assert InUse(longer) == InUse(cs);
    if cs != [] {
      MergeInUse(longer, |cs| - 1);
      assert longer[|cs| - 1] == cs[|cs| - 1];
    }
  }

  /** Merging to the left first and then from the surviving chunk gives the same list. */
  lemma EitherOrder(cs: seq<Chunk>, k: nat)
    requires k < |cs| && !cs[k].used
    ensures 0 < k && !cs[k - 1].used ==>
              && MergeLeft(cs, k) == MergeRight(cs, k - 1) == MergeAt(cs, k - 1)
              && MergeRight(MergeLeft(cs, k), k - 1) == MergeLeft(MergeRight(cs, k), k)
    ensures !(0 < k && !cs[k - 1].used) ==> MergeLeft(MergeRight(cs, k), k) == MergeRight(cs, k)
  {
    hide MergeAt;
    if 0 < k && !cs[k - 1].used && k + 1 < |cs| && !cs[k + 1].used {
      ThreeMerged(cs, k);
    }
  }

  lemma ThreeMerged(cs: seq<Chunk>, k: nat)
    requires 0 < k && k + 1 < |cs|
    ensures MergeAt(MergeAt(cs, k - 1), k - 1) == MergeAt(MergeAt(cs, k), k - 1)
  {
    var a, b := MergeAt(cs, k - 1), MergeAt(cs, k);
    assert a[k] == cs[k + 1] && b[k - 1] == cs[k - 1];
    assert a[k - 1] == Chunk(cs[k - 1].at, cs[k - 1].length + cs[k].length, cs[k - 1].used);
    assert b[k] == Chunk(cs[k].at, cs[k].length + cs[k + 1].length, cs[k].used);
    var left, right := MergeAt(a, k - 1), MergeAt(b, k - 1);
    forall i | 0 <= i < |left|
      ensures left[i] == right[i]
    {
      if i > k - 1 {
        assert a[i + 1] == cs[i + 2] && b[i + 1] == cs[i + 2];
      }
    }
  }
}
