/** The chunk headers in memory: what kmerge_next, ksplit, kmalloc and kfree of
    kernel/lib/kmalloc.c write, and which list the memory then represents. */
module HeapMemory {
  import opened HeapChunks

  function SetState(mem: Memory, a: nat, state: nat): Memory
    requires a in mem
  {
    mem[a := mem[a].(state := state)]
  }

  function SetPrev(mem: Memory, a: nat, prev: nat): Memory {
    if a in mem then mem[a := mem[a].(prev := prev)] else mem
  }

  predicate Mergeable(mem: Memory, a: nat) {
    && a in mem && mem[a].state == STATE_FREE
    && mem[a].next != 0 && mem[a].next in mem && mem[mem[a].next].state == STATE_FREE
  }

  /** kmerge_next on whatever header lies at a. */
  function MergeMem(mem: Memory, a: nat): Memory {
    if a == 0 || !Mergeable(mem, a) then mem
    else
      var next := mem[mem[a].next];
      var merged := mem[a := mem[a].(length := mem[a].length + next.length, next := next.next)];
      if next.next != 0 then SetPrev(merged, next.next, a) else merged
  }

  /** ksplit. */
  function SplitMem(mem: Memory, a: nat, length: nat): Memory
    requires a in mem && length <= mem[a].length
  {
    var h := mem[a];
    var added := mem[a + length := Header(STATE_FREE, h.length - length, h.next, a)];
    var linked := if h.next != 0 then SetPrev(added, h.next, a + length) else added;
    linked[a := Header(h.state, length, a + length, h.prev)]
  }

  /** The new last chunk of kmalloc_grow. */
  function AppendMem(mem: Memory, last: nat, a: nat, bytes: nat): Memory
    requires last in mem
  {
    var added := mem[a := Header(STATE_FREE, bytes, 0, last)];
    added[last := added[last].(next := a)]
  }

  /** kfree of the chunk at a, in use. */
  function KfreeMem(mem: Memory, a: nat): Memory
    requires a in mem
  {
    var freed := SetState(mem, a, STATE_FREE);
    var left := if freed[a].prev != 0 then MergeMem(freed, freed[a].prev) else freed;
    MergeMem(left, a)
  }

  lemma At(mem: Memory, head: nat, cs: seq<Chunk>, i: nat)
    requires Threaded(mem, head, cs) && i < |cs|
    ensures cs[i].at in mem && mem[cs[i].at] == HeaderOf(cs, i) && head == First(cs)
  {
  }

  lemma Marked(mem: Memory, head: nat, cs: seq<Chunk>, start: nat, end: nat, k: nat, used: bool)
    requires Tiles(cs, start, end) && Threaded(mem, head, cs) && k < |cs|
    ensures cs[k].at in mem && Threaded(SetState(mem, cs[k].at, StateOf(used)), head, Mark(cs, k, used))
  {
    hide Tiles, Threaded, StateOf;
    At(mem, head, cs, k);
    forall i | 0 <= i < |cs|
      ensures cs[i].at in mem
      ensures SetState(mem, cs[k].at, StateOf(used))[cs[i].at] == HeaderOf(Mark(cs, k, used), i)
    {
      At(mem, head, cs, i);
      if i != k {
        Differ(cs, start, end, i, k);
      }
    }
    IsThreaded(SetState(mem, cs[k].at, StateOf(used)), head, Mark(cs, k, used));
  }

  lemma IsThreaded(mem: Memory, head: nat, cs: seq<Chunk>)
    requires head == First(cs) && forall i :: 0 <= i < |cs| ==> cs[i].at in mem && mem[cs[i].at] == HeaderOf(cs, i)
    ensures Threaded(mem, head, cs)
  {
  }

  /** kmerge_next on a chunk of the list merges it with its successor when both are free. */
  lemma Merged(mem: Memory, head: nat, cs: seq<Chunk>, start: nat, end: nat, k: nat)
    requires Tiles(cs, start, end) && Threaded(mem, head, cs) && k < |cs|
    ensures Threaded(MergeMem(mem, cs[k].at), head, MergeRight(cs, k))
    ensures !(k + 1 < |cs| && BothFree(cs, k)) ==> MergeMem(mem, cs[k].at) == mem
  {
    hide Tiles, Threaded;
    At(mem, head, cs, k);
    if k + 1 < |cs| {
      At(mem, head, cs, k + 1);
      Differ(cs, start, end, k + 1, k);
      if BothFree(cs, k) {
        Positive(cs, start, end, k);
        var ms := MergeAt(cs, k);
        forall i | 0 <= i < |ms|
          ensures ms[i].at in MergeMem(mem, cs[k].at) && MergeMem(mem, cs[k].at)[ms[i].at] == HeaderOf(ms, i)
        {
          MergedAt(mem, head, cs, start, end, k, i);
        }
        IsThreaded(MergeMem(mem, cs[k].at), head, ms);
      }
    }
  }

  lemma Positive(cs: seq<Chunk>, start: nat, end: nat, k: nat)
    requires Tiles(cs, start, end) && k < |cs|
    ensures cs[k].at > 0 && (k + 1 < |cs| ==> cs[k + 1].at > 0) && (k + 2 < |cs| ==> cs[k + 2].at > 0)
  {
  }

  lemma MergedAt(mem: Memory, head: nat, cs: seq<Chunk>, start: nat, end: nat, k: nat, i: nat)
    requires Tiles(cs, start, end) && Threaded(mem, head, cs) && k + 1 < |cs| && BothFree(cs, k)
    requires i < |cs| - 1
    ensures var mem', ms := MergeMem(mem, cs[k].at), MergeAt(cs, k);
            ms[i].at in mem' && mem'[ms[i].at] == HeaderOf(ms, i)
  {
    hide Tiles, Threaded;
    var j := if i <= k then i else i + 1;
    var ms := MergeAt(cs, k);
    assert ms[i].at == cs[j].at;
    Positive(cs, start, end, k);
    At(mem, head, cs, k);
    At(mem, head, cs, k + 1);
    At(mem, head, cs, j);
    Differ(cs, start, end, k, k + 1);
    if j != k {
      Differ(cs, start, end, j, k);
    }
    if k + 2 < |cs| {
      Differ(cs, start, end, k + 2, k);
      At(mem, head, cs, k + 2);
      if j != k + 2 {
        Differ(cs, start, end, j, k + 2);
      }
    }
  }

  lemma Split(mem: Memory, head: nat, cs: seq<Chunk>, start: nat, end: nat, k: nat, length: nat)
    requires Tiles(cs, start, end) && Threaded(mem, head, cs) && k < |cs| && length <= cs[k].length
    requires Tiles(SplitAt(cs, k, length), start, end)
    ensures cs[k].at in mem && length <= mem[cs[k].at].length
    ensures Threaded(SplitMem(mem, cs[k].at, length), head, SplitAt(cs, k, length))
  {
    hide Tiles, Threaded;
    At(mem, head, cs, k);
    var ss := SplitAt(cs, k, length);
    forall i | 0 <= i < |ss|
      ensures ss[i].at in SplitMem(mem, cs[k].at, length)
      ensures SplitMem(mem, cs[k].at, length)[ss[i].at] == HeaderOf(ss, i)
    {
      SplitAtIndex(mem, head, cs, start, end, k, length, i);
    }
    IsThreaded(SplitMem(mem, cs[k].at, length), head, ss);
  }

  lemma SplitAtIndex(mem: Memory, head: nat, cs: seq<Chunk>, start: nat, end: nat, k: nat, length: nat, i: nat)
    requires Tiles(cs, start, end) && Threaded(mem, head, cs) && k < |cs| && length <= cs[k].length
    requires cs[k].at in mem && length <= mem[cs[k].at].length
    requires Tiles(SplitAt(cs, k, length), start, end) && i < |cs| + 1
    ensures var mem', ss := SplitMem(mem, cs[k].at, length), SplitAt(cs, k, length);
            ss[i].at in mem' && mem'[ss[i].at] == HeaderOf(ss, i)
  {
    hide Tiles, Threaded;
    var ss := SplitAt(cs, k, length);
    At(mem, head, cs, k);
    Positive(cs, start, end, k);
    Differ(ss, start, end, k + 1, k);
    if i != k {
      Differ(ss, start, end, i, k);
    }
    if i != k + 1 {
      Differ(ss, start, end, i, k + 1);
      var j := if i <= k then i else i - 1;
      assert cs[j].at == ss[i].at;
      At(mem, head, cs, j);
    }
    if k + 1 < |cs| {
      assert ss[k + 2] == cs[k + 1];
      At(mem, head, cs, k + 1);
      Differ(ss, start, end, k + 2, k);
      Differ(ss, start, end, k + 2, k + 1);
      if i != k + 2 {
        Differ(ss, start, end, i, k + 2);
      }
    }
  }

  lemma Appended(mem: Memory, head: nat, cs: seq<Chunk>, start: nat, end: nat, bytes: nat)
    requires Tiles(cs, start, end) && Threaded(mem, head, cs) && cs != []
    requires Tiles(cs + [Chunk(end, bytes, false)], start, end + bytes)
    ensures cs[|cs| - 1].at in mem
    ensures Threaded(AppendMem(mem, cs[|cs| - 1].at, end, bytes), head, cs + [Chunk(end, bytes, false)])
  {
    hide Tiles, Threaded;
    var last := cs[|cs| - 1].at;
    At(mem, head, cs, |cs| - 1);
    var longer := cs + [Chunk(end, bytes, false)];
    forall i | 0 <= i < |longer|
      ensures longer[i].at in AppendMem(mem, last, end, bytes)
      ensures AppendMem(mem, last, end, bytes)[longer[i].at] == HeaderOf(longer, i)
    {
      Differ(longer, start, end + bytes, |cs| - 1, |cs|);
      if i < |cs| {
        At(mem, head, cs, i);
        Differ(longer, start, end + bytes, i, |cs|);
      }
      if i != |cs| - 1 {
        Differ(longer, start, end + bytes, i, |cs| - 1);
      }
    }
    IsThreaded(AppendMem(mem, last, end, bytes), head, longer);
  }

  // ---------------------------------------------------------------------
  // kfree
  // ---------------------------------------------------------------------

  /** The chunk lies between two free ones. */
  predicate BetweenFree(cs: seq<Chunk>, k: nat) { 0 < k && k + 1 < |cs| && !cs[k - 1].used && !cs[k + 1].used }

  /** With at most one free neighbour kfree yields the fully merged list. */
  lemma KfreeMerges(mem: Memory, head: nat, cs: seq<Chunk>, start: nat, end: nat, k: nat)
    requires HeapOk(mem, head, cs, start, end) && k < |cs| && cs[k].used && !BetweenFree(cs, k)
    ensures cs[k].at in mem && HeapOk(KfreeMem(mem, cs[k].at), head, Freed(cs, k), start, end)
  {
    hide Tiles, Threaded, Coalesced;
    FreedKeeps(cs, start, end, k);
    At(mem, head, cs, k);
    var a := cs[k].at;
    var freed, fs := SetState(mem, a, STATE_FREE), Mark(cs, k, false);
    Marked(mem, head, cs, start, end, k, false);
    MarkTiles(cs, start, end, k, false);
    At(freed, head, fs, k);
    if k > 0 {
      Positive(cs, start, end, k - 1);
      Merged(freed, head, fs, start, end, k - 1);
      if !cs[k - 1].used {
        StaleHeaderInert(freed, head, fs, start, end, k);
      }
    }
    if k == 0 || cs[k - 1].used {
      Merged(freed, head, fs, start, end, k);
    }
  }

  /** After the left merge, the second merge finds no free successor and does nothing. */
  lemma StaleHeaderInert(freed: Memory, head: nat, fs: seq<Chunk>, start: nat, end: nat, k: nat)
    requires Tiles(fs, start, end) && Threaded(freed, head, fs) && 0 < k < |fs| && BothFree(fs, k - 1)
    requires k + 1 < |fs| ==> fs[k + 1].used
    ensures MergeMem(MergeMem(freed, fs[k - 1].at), fs[k].at) == MergeMem(freed, fs[k - 1].at)
    ensures MergeLeft(MergeRight(fs, k), k) == MergeRight(fs, k - 1)
  {
    hide Tiles, Threaded;
    At(freed, head, fs, k - 1);
    At(freed, head, fs, k);
    Differ(fs, start, end, k, k - 1);
    if k + 1 < |fs| {
      At(freed, head, fs, k + 1);
      Differ(fs, start, end, k + 1, k - 1);
      Differ(fs, start, end, k + 1, k);
    }
  }

  /** Between two free chunks the second merge works on the header the first one
      absorbed: the chain still tiles the heap, but its two free chunks stay
      apart and the chunk behind them points back into the merged one. */
  lemma KfreeBetween(mem: Memory, head: nat, cs: seq<Chunk>, start: nat, end: nat, k: nat)
    requires HeapOk(mem, head, cs, start, end) && k < |cs| && cs[k].used && BetweenFree(cs, k)
    ensures cs[k].at in mem
    ensures var ms := MergeAt(Mark(cs, k, false), k - 1);
            && Tiles(ms, start, end) && Forward(KfreeMem(mem, cs[k].at), head, ms)
            && BothFree(ms, k - 1)
            && (k + 2 < |cs| ==> cs[k + 2].at in KfreeMem(mem, cs[k].at)
                                 && KfreeMem(mem, cs[k].at)[cs[k + 2].at].prev == cs[k].at)
  {
    hide Tiles, Threaded, Coalesced;
    At(mem, head, cs, k);
    var a := cs[k].at;
    var freed, fs := SetState(mem, a, STATE_FREE), Mark(cs, k, false);
    Marked(mem, head, cs, start, end, k, false);
    MarkTiles(cs, start, end, k, false);
    Positive(cs, start, end, k - 1);
    Merged(freed, head, fs, start, end, k - 1);
    MergeTiles(fs, start, end, k - 1);
    At(freed, head, fs, k);
    SecondMerge(freed, head, fs, start, end, k);
  }

  lemma SecondMerge(freed: Memory, head: nat, fs: seq<Chunk>, start: nat, end: nat, k: nat)
    requires Tiles(fs, start, end) && Threaded(freed, head, fs) && 0 < k && k + 1 < |fs|
    requires BothFree(fs, k - 1) && BothFree(fs, k)
    requires Threaded(MergeMem(freed, fs[k - 1].at), head, MergeAt(fs, k - 1))
    ensures var mem' := MergeMem(MergeMem(freed, fs[k - 1].at), fs[k].at);
            && Forward(mem', head, MergeAt(fs, k - 1))
            && (k + 2 < |fs| ==> fs[k + 2].at in mem' && mem'[fs[k + 2].at].prev == fs[k].at)
  {
    hide Tiles, Threaded;
    var ms := MergeAt(fs, k - 1);
    var left := MergeMem(freed, fs[k - 1].at);
    if k + 2 < |fs| {
      StaleHeader(freed, head, fs, start, end, k);
    }
    hide MergeMem;
    forall i | 0 <= i < |ms|
      ensures ms[i].at in MergeMem(left, fs[k].at)
      ensures MergeMem(left, fs[k].at)[ms[i].at].(prev := 0) == HeaderOf(ms, i).(prev := 0)
    {
      At(left, head, ms, i);
      var j := if i <= k - 1 then i else i + 1;
      assert ms[i].at == fs[j].at;
      Differ(fs, start, end, j, k);
      MergeFrame(left, fs[k].at, ms[i].at);
    }
    At(left, head, ms, 0);
    IsForward(MergeMem(left, fs[k].at), head, ms);
  }

  /** A merge at a changes no other header but for its prev. */
  lemma MergeFrame(mem: Memory, a: nat, x: nat)
    requires x in mem && x != a
    ensures x in MergeMem(mem, a) && MergeMem(mem, a)[x].(prev := 0) == mem[x].(prev := 0)
  {
  }

  lemma StaleHeader(freed: Memory, head: nat, fs: seq<Chunk>, start: nat, end: nat, k: nat)
    requires Tiles(fs, start, end) && Threaded(freed, head, fs) && 0 < k && k + 2 < |fs|
    requires BothFree(fs, k - 1) && BothFree(fs, k)
    ensures var mem' := MergeMem(MergeMem(freed, fs[k - 1].at), fs[k].at);
            fs[k + 2].at in mem' && mem'[fs[k + 2].at].prev == fs[k].at
  {
    hide Tiles, Threaded;
    At(freed, head, fs, k - 1);
    At(freed, head, fs, k);
    At(freed, head, fs, k + 1);
    At(freed, head, fs, k + 2);
    Positive(fs, start, end, k);
    Differ(fs, start, end, k, k - 1);
    Differ(fs, start, end, k, k + 1);
    Differ(fs, start, end, k + 1, k - 1);
    Differ(fs, start, end, k + 2, k + 1);
    Differ(fs, start, end, k + 2, k);
    Differ(fs, start, end, k + 2, k - 1);
  }

  lemma IsForward(mem: Memory, head: nat, cs: seq<Chunk>)
    requires head == First(cs)
    requires forall i :: 0 <= i < |cs| ==> cs[i].at in mem && mem[cs[i].at].(prev := 0) == HeaderOf(cs, i).(prev := 0)
    ensures Forward(mem, head, cs)
  {
    forall i | 0 <= i < |cs|
      ensures mem[cs[i].at].state == StateOf(cs[i].used) && mem[cs[i].at].length == cs[i].length
      ensures mem[cs[i].at].next == NextOf(cs, i)
    {
      assert mem[cs[i].at].(prev := 0) == HeaderOf(cs, i).(prev := 0);
    }
  }

  /** Exactly when the chunk is not between two free ones does kfree leave a
      well-formed, coalesced heap behind. */
  lemma KfreeIff(mem: Memory, head: nat, cs: seq<Chunk>, start: nat, end: nat, k: nat)
    requires HeapOk(mem, head, cs, start, end) && k < |cs| && cs[k].used
    ensures cs[k].at in mem
    ensures (exists ds :: HeapOk(KfreeMem(mem, cs[k].at), head, ds, start, end)) <==> !BetweenFree(cs, k)
  {
    At(mem, head, cs, k);
    hide Tiles, Threaded, Forward, KfreeMem;
    if BetweenFree(cs, k) {
      KfreeBetween(mem, head, cs, start, end, k);
      var ms := MergeAt(Mark(cs, k, false), k - 1);
      assert !Coalesced(ms);
      forall ds | HeapOk(KfreeMem(mem, cs[k].at), head, ds, start, end)
        ensures false
      {
        Addresses(ms, start, end);
        Addresses(ds, start, end);
        ThreadedForward(KfreeMem(mem, cs[k].at), head, ds);
        ListUnique(KfreeMem(mem, cs[k].at), head, ms, ds, |ms|);
      }
    } else {
      KfreeMerges(mem, head, cs, start, end, k);
    }
  }

  lemma Addresses(cs: seq<Chunk>, start: nat, end: nat)
    requires Tiles(cs, start, end)
    ensures forall i :: 0 <= i < |cs| ==> cs[i].at > 0
  {
  }

  lemma ThreadedForward(mem: Memory, head: nat, cs: seq<Chunk>)
    requires Threaded(mem, head, cs)
    ensures Forward(mem, head, cs)
  {
  }

  /** The smallest case: free, used, free. */
  lemma KfreeBetweenExample()
    ensures var mem := map[4096 := Header(0xA1A1_A1A1, 64, 4160, 0),
                           4160 := Header(0xBFBF_BFBF, 64, 4224, 4096),
                           4224 := Header(0xA1A1_A1A1, 64, 0, 4160)];
            && (exists cs :: HeapOk(mem, 4096, cs, 4096, 4288))
            && !exists ds :: HeapOk(KfreeMem(mem, 4160), 4096, ds, 4096, 4288)
  {
    var mem := map[4096 := Header(0xA1A1_A1A1, 64, 4160, 0),
                   4160 := Header(0xBFBF_BFBF, 64, 4224, 4096),
                   4224 := Header(0xA1A1_A1A1, 64, 0, 4160)];
    var cs := [Chunk(4096, 64, false), Chunk(4160, 64, true), Chunk(4224, 64, false)];
    hide KfreeMem, Tiles, Coalesced, Threaded;
    ExampleChunks(cs);
    IsThreaded(mem, 4096, cs);
    KfreeIff(mem, 4096, cs, 4096, 4288, 1);
  }

  lemma ExampleChunks(cs: seq<Chunk>)
    requires cs == [Chunk(4096, 64, false), Chunk(4160, 64, true), Chunk(4224, 64, false)]
    ensures Tiles(cs, 4096, 4288) && Coalesced(cs)
  {
  }

  // ---------------------------------------------------------------------
  // kfree with the second merge on the surviving header
  // ---------------------------------------------------------------------

  /** kfree of the chunk at a as intended: after a merge to the left, the second
      merge starts from the header that survived. */
  function SurvivingKfreeMem(mem: Memory, a: nat): Memory
    requires a in mem
  {
    var freed := SetState(mem, a, STATE_FREE);
    var prev := freed[a].prev;
    if prev != 0 && prev in freed && freed[prev].state == STATE_FREE
    then MergeMem(MergeMem(freed, prev), prev)
    else MergeMem(freed, a)
  }

  /** Then every kfree, between two free chunks too, yields the fully merged list. */
  lemma SurvivingKfree(mem: Memory, head: nat, cs: seq<Chunk>, start: nat, end: nat, k: nat)
    requires HeapOk(mem, head, cs, start, end) && k < |cs| && cs[k].used
    ensures cs[k].at in mem && HeapOk(SurvivingKfreeMem(mem, cs[k].at), head, Freed(cs, k), start, end)
  {
    hide Tiles, Threaded, Coalesced, MergeMem, MergeLeft, MergeRight, MergeAt, SetState, StateOf;
    FreedKeeps(cs, start, end, k);
    At(mem, head, cs, k);
    var freed, fs := SetState(mem, cs[k].at, STATE_FREE), Mark(cs, k, false);
    Marked(mem, head, cs, start, end, k, false);
    FreeState();
    MarkTiles(cs, start, end, k, false);
    At(freed, head, fs, k);
    EitherOrder(fs, k);
    if k > 0 {
      At(freed, head, fs, k - 1);
      Positive(cs, start, end, k - 1);
    }
    if k > 0 && !cs[k - 1].used {
      MergeTwice(freed, head, fs, start, end, k - 1);
    } else {
      Merged(freed, head, fs, start, end, k);
    }
  }

  lemma FreeState()
    ensures StateOf(false) == STATE_FREE && StateOf(true) != STATE_FREE
  {
  }

  lemma MergeTwice(mem: Memory, head: nat, cs: seq<Chunk>, start: nat, end: nat, k: nat)
    requires Tiles(cs, start, end) && Threaded(mem, head, cs) && k + 1 < |cs| && BothFree(cs, k)
    ensures Threaded(MergeMem(MergeMem(mem, cs[k].at), cs[k].at), head, MergeRight(MergeAt(cs, k), k))
  {
    hide Tiles, Threaded, MergeMem;
    Merged(mem, head, cs, start, end, k);
    MergeTiles(cs, start, end, k);
    Merged(MergeMem(mem, cs[k].at), head, MergeAt(cs, k), start, end, k);
  }

  // ---------------------------------------------------------------------
  // Heaps whose prev links may be wrong
  // ---------------------------------------------------------------------

  /** The same headers but for prev. */
  ghost predicate SameButPrev(mem: Memory, mem': Memory) {
    mem.Keys == mem'.Keys && forall a :: a in mem ==> mem[a].(prev := 0) == mem'[a].(prev := 0)
  }

  /** The prev a header at a should have. */
  ghost function PrevAt(cs: seq<Chunk>, a: nat): nat {
    if exists i :: 0 <= i < |cs| && cs[i].at == a then
      var i :| 0 <= i < |cs| && cs[i].at == a;
      PrevOf(cs, i)
    else
      0
  }

  ghost function Repaired(mem: Memory, cs: seq<Chunk>): Memory {
    map a | a in mem :: mem[a].(prev := PrevAt(cs, a))
  }

  lemma RepairedThreaded(mem: Memory, head: nat, cs: seq<Chunk>, start: nat, end: nat)
    requires Tiles(cs, start, end) && Forward(mem, head, cs)
    ensures Threaded(Repaired(mem, cs), head, cs) && SameButPrev(mem, Repaired(mem, cs))
  {
    hide Tiles;
    forall i | 0 <= i < |cs|
      ensures PrevAt(cs, cs[i].at) == PrevOf(cs, i)
    {
      var j :| 0 <= j < |cs| && cs[j].at == cs[i].at && PrevAt(cs, cs[i].at) == PrevOf(cs, j);
      if j != i {
        Differ(cs, start, end, i, j);
      }
    }
  }

  lemma ForwardSame(mem: Memory, mem': Memory, head: nat, cs: seq<Chunk>)
    requires Threaded(mem, head, cs) && SameButPrev(mem', mem)
    ensures Forward(mem', head, cs)
  {
    forall i | 0 <= i < |cs|
      ensures cs[i].at in mem' && mem'[cs[i].at].(prev := 0) == HeaderOf(cs, i).(prev := 0)
    {
      At(mem, head, cs, i);
    }
    IsForward(mem', head, cs);
  }

  // No operation but kfree reads prev.

  lemma SameOperations(mem: Memory, mem': Memory, a: nat)
    requires SameButPrev(mem, mem') && a in mem
    ensures SameButPrev(MergeMem(mem, a), MergeMem(mem', a))
    ensures forall state: nat :: SameButPrev(SetState(mem, a, state), SetState(mem', a, state))
    ensures forall length: nat :: length <= mem[a].length ==> SameButPrev(SplitMem(mem, a, length), SplitMem(mem', a, length))
    ensures forall b: nat, bytes: nat :: SameButPrev(AppendMem(mem, a, b, bytes), AppendMem(mem', a, b, bytes))
  {
  }

  lemma MarkedForward(mem: Memory, head: nat, cs: seq<Chunk>, start: nat, end: nat, k: nat, used: bool)
    requires Tiles(cs, start, end) && Forward(mem, head, cs) && k < |cs|
    ensures cs[k].at in mem && Forward(SetState(mem, cs[k].at, StateOf(used)), head, Mark(cs, k, used))
    ensures Threaded(mem, head, cs) ==> Threaded(SetState(mem, cs[k].at, StateOf(used)), head, Mark(cs, k, used))
  {
    ForwardAt(mem, head, cs, k);
    hide Tiles, Threaded, Forward, SameButPrev, SetState;
    var fix := Repaired(mem, cs);
    RepairedThreaded(mem, head, cs, start, end);
    Marked(fix, head, cs, start, end, k, used);
    SameOperations(mem, fix, cs[k].at);
    ForwardSame(SetState(fix, cs[k].at, StateOf(used)), SetState(mem, cs[k].at, StateOf(used)), head, Mark(cs, k, used));
    if Threaded(mem, head, cs) {
      Marked(mem, head, cs, start, end, k, used);
    }
  }

  lemma ForwardAt(mem: Memory, head: nat, cs: seq<Chunk>, i: nat)
    requires Forward(mem, head, cs) && i < |cs|
    ensures cs[i].at in mem && head == First(cs)
    ensures mem[cs[i].at].state == StateOf(cs[i].used) && mem[cs[i].at].length == cs[i].length
    ensures mem[cs[i].at].next == NextOf(cs, i)
  {
  }

  lemma SplitForward(mem: Memory, head: nat, cs: seq<Chunk>, start: nat, end: nat, k: nat, length: nat)
    requires Tiles(cs, start, end) && Forward(mem, head, cs) && k < |cs| && length <= cs[k].length
    requires Tiles(SplitAt(cs, k, length), start, end)
    ensures cs[k].at in mem && length <= mem[cs[k].at].length
    ensures Forward(SplitMem(mem, cs[k].at, length), head, SplitAt(cs, k, length))
    ensures Threaded(mem, head, cs) ==> Threaded(SplitMem(mem, cs[k].at, length), head, SplitAt(cs, k, length))
  {
    ForwardAt(mem, head, cs, k);
    hide Tiles, Threaded, Forward, SameButPrev, SplitMem;
    var fix := Repaired(mem, cs);
    RepairedThreaded(mem, head, cs, start, end);
    Split(fix, head, cs, start, end, k, length);
    SameOperations(mem, fix, cs[k].at);
    ForwardSame(SplitMem(fix, cs[k].at, length), SplitMem(mem, cs[k].at, length), head, SplitAt(cs, k, length));
    if Threaded(mem, head, cs) {
      Split(mem, head, cs, start, end, k, length);
    }
  }

  lemma AppendedForward(mem: Memory, head: nat, cs: seq<Chunk>, start: nat, end: nat, bytes: nat)
    requires Tiles(cs, start, end) && Forward(mem, head, cs) && cs != []
    requires Tiles(cs + [Chunk(end, bytes, false)], start, end + bytes)
    ensures cs[|cs| - 1].at in mem
    ensures Forward(AppendMem(mem, cs[|cs| - 1].at, end, bytes), head, cs + [Chunk(end, bytes, false)])
    ensures Threaded(mem, head, cs) ==>
              Threaded(AppendMem(mem, cs[|cs| - 1].at, end, bytes), head, cs + [Chunk(end, bytes, false)])
  {
    var last := cs[|cs| - 1].at;
    ForwardAt(mem, head, cs, |cs| - 1);
    hide Tiles, Threaded, Forward, SameButPrev, AppendMem;
    var fix := Repaired(mem, cs);
    RepairedThreaded(mem, head, cs, start, end);
    Appended(fix, head, cs, start, end, bytes);
    SameOperations(mem, fix, last);
    ForwardSame(AppendMem(fix, last, end, bytes), AppendMem(mem, last, end, bytes), head, cs + [Chunk(end, bytes, false)]);
    if Threaded(mem, head, cs) {
      Appended(mem, head, cs, start, end, bytes);
    }
  }

  lemma MergedForward(mem: Memory, head: nat, cs: seq<Chunk>, start: nat, end: nat, k: nat)
    requires Tiles(cs, start, end) && Forward(mem, head, cs) && k < |cs|
    ensures Forward(MergeMem(mem, cs[k].at), head, MergeRight(cs, k))
    ensures Threaded(mem, head, cs) ==> Threaded(MergeMem(mem, cs[k].at), head, MergeRight(cs, k))
    ensures cs[k].used ==> MergeMem(mem, cs[k].at) == mem && MergeRight(cs, k) == cs
  {
    ForwardAt(mem, head, cs, k);
    UsedStays(mem, cs, k);
    hide Tiles, Threaded, Forward, SameButPrev, MergeMem, MergeRight;
    var fix := Repaired(mem, cs);
    RepairedThreaded(mem, head, cs, start, end);
    Merged(fix, head, cs, start, end, k);
    SameOperations(mem, fix, cs[k].at);
    ForwardSame(MergeMem(fix, cs[k].at), MergeMem(mem, cs[k].at), head, MergeRight(cs, k));
    if Threaded(mem, head, cs) {
      Merged(mem, head, cs, start, end, k);
    }
  }

  lemma UsedStays(mem: Memory, cs: seq<Chunk>, k: nat)
    requires k < |cs| && cs[k].at in mem && mem[cs[k].at].state == StateOf(cs[k].used)
    ensures cs[k].used ==> MergeMem(mem, cs[k].at) == mem && MergeRight(cs, k) == cs
  {
  }

  // ---------------------------------------------------------------------
  // Which headers there are
  // ---------------------------------------------------------------------

  /** Position of the chunk at a, the length of the list without one. */
  function IndexOf(cs: seq<Chunk>, a: nat): (i: nat)
    ensures i <= |cs| && (i < |cs| ==> cs[i].at == a)
    ensures forall j :: 0 <= j < i ==> cs[j].at != a
  {
    if cs == [] || cs[0].at == a then 0 else 1 + IndexOf(cs[1..], a)
  }

  lemma IndexIs(cs: seq<Chunk>, start: nat, end: nat, i: nat)
    requires Tiles(cs, start, end) && i < |cs|
    ensures IndexOf(cs, cs[i].at) == i
  {
    hide Tiles;
    var j := IndexOf(cs, cs[i].at);
    if j != i && j < |cs| {
      Differ(cs, start, end, i, j);
    }
  }

  /** All 32 bytes at a lie in the body of one free chunk. */
  ghost predicate Buried(cs: seq<Chunk>, a: nat) {
    exists i :: 0 <= i < |cs| && !cs[i].used && cs[i].Payload() <= a && a + HEADER <= cs[i].End()
  }

  /** The headers the memory holds are those of the chunks and those that merges left
      behind in free chunks; no two share a byte, and none lies in a used payload. */
  ghost predicate Remembered(mem: Memory, cs: seq<Chunk>) {
    && (forall a :: a in mem ==> IndexOf(cs, a) < |cs| || (Buried(cs, a) && mem[a].state == STATE_FREE))
    && Apart(mem)
  }

  ghost predicate Apart(mem: Memory) {
    forall a, b :: a in mem && b in mem && a < b ==> a + HEADER <= b
  }

  /** The same headers in the same states. */
  ghost predicate SameStates(mem: Memory, mem': Memory) {
    mem.Keys == mem'.Keys && forall a :: a in mem ==> mem'[a].state == mem[a].state
  }

  lemma MergeStates(mem: Memory, p: nat)
    ensures SameStates(mem, MergeMem(mem, p))
  {
  }

  lemma RememberedStates(mem: Memory, mem': Memory, cs: seq<Chunk>)
    requires Remembered(mem, cs) && SameStates(mem, mem')
    ensures Remembered(mem', cs)
  {
    hide IndexOf;
  }

  lemma ListedIn(cs: seq<Chunk>, ds: seq<Chunk>, start: nat, end: nat, i: nat)
    requires Tiles(ds, start, end) && i < |ds|
    ensures IndexOf(ds, ds[i].at) < |ds|
  {
    IndexIs(ds, start, end, i);
  }

  /** A merge buries the header it absorbs. */
  lemma RememberedMerge(mem: Memory, cs: seq<Chunk>, start: nat, end: nat, i: nat, head: nat)
    requires Remembered(mem, cs) && Tiles(cs, start, end) && Forward(mem, head, cs) && i < |cs|
    ensures Remembered(mem, MergeRight(cs, i))
  {
    if i + 1 < |cs| && BothFree(cs, i) {
      MergeTiles(cs, start, end, i);
      ForwardAt(mem, head, cs, i + 1);
      hide Tiles, Forward, MergeAt, IndexOf, Buried, Apart;
      forall a | a in mem
        ensures IndexOf(MergeAt(cs, i), a) < |cs| - 1 || (Buried(MergeAt(cs, i), a) && mem[a].state == STATE_FREE)
      {
        KnownAfterMerge(cs, start, end, i, a);
      }
    }
  }

  lemma KnownAfterMerge(cs: seq<Chunk>, start: nat, end: nat, i: nat, a: nat)
    requires Tiles(cs, start, end) && i + 1 < |cs| && BothFree(cs, i) && Tiles(MergeAt(cs, i), start, end)
    requires IndexOf(cs, a) < |cs| || Buried(cs, a)
    ensures IndexOf(MergeAt(cs, i), a) < |cs| - 1 || Buried(MergeAt(cs, i), a)
    ensures IndexOf(cs, a) < |cs| && a != cs[i + 1].at ==> IndexOf(MergeAt(cs, i), a) < |cs| - 1
  {
    hide Tiles, IndexOf, Buried;
    Lengths(cs, start, end, i);
    IndexIs(cs, start, end, i + 1);
    var j := IndexOf(cs, a);
    if j < |cs| && j != i + 1 {
      ListedIn(cs, MergeAt(cs, i), start, end, if j <= i then j else j - 1);
    } else if j == i + 1 {
      BuriedIn(MergeAt(cs, i), i, a);
    } else {
      BuriedMerge(cs, i, a);
    }
  }

  lemma Lengths(cs: seq<Chunk>, start: nat, end: nat, i: nat)
    requires Tiles(cs, start, end) && i < |cs|
    ensures cs[i].length >= MIN_CHUNK && (i + 1 < |cs| ==> cs[i + 1].length >= MIN_CHUNK && cs[i].End() == cs[i + 1].at)
  {
  }

  lemma BuriedIn(cs: seq<Chunk>, i: nat, a: nat)
    requires i < |cs| && !cs[i].used && cs[i].Payload() <= a && a + HEADER <= cs[i].End()
    ensures Buried(cs, a)
  {
  }

  lemma BuriedMerge(cs: seq<Chunk>, i: nat, a: nat)
    requires i + 1 < |cs| && BothFree(cs, i) && cs[i].End() == cs[i + 1].at && Buried(cs, a)
    ensures Buried(MergeAt(cs, i), a)
  {
    var j :| 0 <= j < |cs| && !cs[j].used && cs[j].Payload() <= a && a + HEADER <= cs[j].End();
    BuriedIn(MergeAt(cs, i), if j <= i then j else j - 1, a);
  }

  lemma RememberedMark(mem: Memory, cs: seq<Chunk>, k: nat)
    requires Remembered(mem, cs) && k < |cs| && cs[k].at in mem
    ensures Remembered(SetState(mem, cs[k].at, STATE_FREE), Mark(cs, k, false))
  {
    var fs, freed := Mark(cs, k, false), SetState(mem, cs[k].at, STATE_FREE);
    forall a | a in mem
      ensures IndexOf(fs, a) < |fs| || (Buried(fs, a) && freed[a].state == STATE_FREE)
    {
      MarkIndex(cs, k, a);
      if IndexOf(cs, a) == |cs| {
        var j :| 0 <= j < |cs| && !cs[j].used && cs[j].Payload() <= a && a + HEADER <= cs[j].End();
        BuriedIn(fs, j, a);
      }
    }
  }

  lemma {:induction false} MarkIndex(cs: seq<Chunk>, k: nat, a: nat)
    requires k < |cs|
    ensures IndexOf(Mark(cs, k, false), a) == IndexOf(cs, a)
  {
    var fs := Mark(cs, k, false);
    var i, j := IndexOf(cs, a), IndexOf(fs, a);
    assert forall l :: 0 <= l < |cs| ==> fs[l].at == cs[l].at;
  }

  // ---------------------------------------------------------------------
  // kfree through whatever prev names
  // ---------------------------------------------------------------------

  /** Every header kmerge_next looks at from p on is there. */
  predicate Followable(mem: Memory, p: nat) {
    && p in mem
    && (mem[p].state == STATE_FREE && mem[p].next != 0 ==>
          && mem[p].next in mem
          && (mem[mem[p].next].state == STATE_FREE && mem[mem[p].next].next != 0 ==> mem[mem[p].next].next in mem))
  }

  /** Every header kfree of the chunk at a looks at through prev is there. */
  predicate Follows(mem: Memory, a: nat)
    requires a in mem
  {
    mem[a].prev == 0 || Followable(SetState(mem, a, STATE_FREE), mem[a].prev)
  }

  /** kmerge_next at p, as the list sees it: nothing if p is no chunk. */
  function MergeListed(cs: seq<Chunk>, p: nat): seq<Chunk> {
    if IndexOf(cs, p) < |cs| then MergeRight(cs, IndexOf(cs, p)) else cs
  }

  /** kfree of chunk k when its prev is p. */
  function KfreeList(cs: seq<Chunk>, k: nat, p: nat): seq<Chunk>
    requires k < |cs|
  {
    MergeListed(MergeListed(Mark(cs, k, false), p), cs[k].at)
  }

  lemma MergedListed(mem: Memory, head: nat, cs: seq<Chunk>, start: nat, end: nat, p: nat)
    requires Tiles(cs, start, end) && Forward(mem, head, cs) && Remembered(mem, cs)
    ensures Tiles(MergeListed(cs, p), start, end)
    ensures Forward(MergeMem(mem, p), head, MergeListed(cs, p)) && Remembered(MergeMem(mem, p), MergeListed(cs, p))
    ensures MergeMem(mem, p).Keys == mem.Keys
  {
    hide Tiles, Forward, Remembered, MergeMem, MergeRight;
    MergeStates(mem, p);
    var i := IndexOf(cs, p);
    if i < |cs| {
      MergedForward(mem, head, cs, start, end, i);
      MergeRightTiles(cs, start, end, i);
      RememberedMerge(mem, cs, start, end, i, head);
    } else {
      ForwardElsewhere(mem, head, cs, p);
    }
    RememberedStates(mem, MergeMem(mem, p), MergeListed(cs, p));
  }

  lemma MergeRightTiles(cs: seq<Chunk>, start: nat, end: nat, i: nat)
    requires Tiles(cs, start, end) && i < |cs|
    ensures Tiles(MergeRight(cs, i), start, end)
  {
    if i + 1 < |cs| && BothFree(cs, i) {
      MergeTiles(cs, start, end, i);
    }
  }

  /** A merge at an address that is no chunk leaves the forward chain alone. */
  lemma ForwardElsewhere(mem: Memory, head: nat, cs: seq<Chunk>, p: nat)
    requires Forward(mem, head, cs) && IndexOf(cs, p) == |cs|
    ensures Forward(MergeMem(mem, p), head, cs)
  {
    hide MergeMem, IndexOf;
    forall i | 0 <= i < |cs|
      ensures cs[i].at in MergeMem(mem, p)
      ensures MergeMem(mem, p)[cs[i].at].(prev := 0) == HeaderOf(cs, i).(prev := 0)
    {
      ForwardAt(mem, head, cs, i);
      MergeFrame(mem, p, cs[i].at);
    }
    IsForward(MergeMem(mem, p), head, cs);
  }

  /** kfree keeps the tiling and the forward chain whatever prev names. */
  lemma KfreeWalkable(mem: Memory, head: nat, cs: seq<Chunk>, start: nat, end: nat, k: nat)
    requires Tiles(cs, start, end) && Forward(mem, head, cs) && Remembered(mem, cs) && k < |cs|
    ensures cs[k].at in mem
    ensures var ds := KfreeList(cs, k, mem[cs[k].at].prev);
            && Tiles(ds, start, end) && Forward(KfreeMem(mem, cs[k].at), head, ds)
            && Remembered(KfreeMem(mem, cs[k].at), ds)
    ensures KfreeMem(mem, cs[k].at).Keys == mem.Keys
  {
    ForwardAt(mem, head, cs, k);
    var a := cs[k].at;
    MarkedForward(mem, head, cs, start, end, k, false);
    FreeState();
    MarkTiles(cs, start, end, k, false);
    RememberedMark(mem, cs, k);
    NotListed(cs, start, end);
    hide Tiles, Forward, Remembered, MergeMem, MergeListed, SetState, StateOf, IndexOf;
    var freed, fs := SetState(mem, a, STATE_FREE), Mark(cs, k, false);
    SetStateFields(mem, a);
    MarkIndex(cs, k, 0);
    MergedListed(freed, head, fs, start, end, mem[a].prev);
    MergeNothing(freed, fs);
    var left := if mem[a].prev != 0 then MergeMem(freed, mem[a].prev) else freed;
    MergedListed(left, head, MergeListed(fs, mem[a].prev), start, end, a);
  }

  lemma SetStateFields(mem: Memory, a: nat)
    requires a in mem
    ensures SetState(mem, a, STATE_FREE)[a].prev == mem[a].prev && SetState(mem, a, STATE_FREE).Keys == mem.Keys
    ensures SetState(mem, a, STATE_FREE)[a].next == mem[a].next
  {
  }

  lemma NotListed(cs: seq<Chunk>, start: nat, end: nat)
    requires Tiles(cs, start, end)
    ensures IndexOf(cs, 0) == |cs|
  {
  }

  lemma MergeNothing(mem: Memory, cs: seq<Chunk>)
    ensures MergeMem(mem, 0) == mem && (IndexOf(cs, 0) == |cs| ==> MergeListed(cs, 0) == cs)
  {
  }

  /** After the first merge the second one finds its headers too. */
  lemma SecondFollows(mem: Memory, head: nat, cs: seq<Chunk>, start: nat, end: nat, k: nat, p: nat)
    requires Tiles(cs, start, end) && Forward(mem, head, cs) && k < |cs| && Tiles(MergeListed(cs, p), start, end)
    requires Forward(MergeMem(mem, p), head, MergeListed(cs, p)) && MergeMem(mem, p).Keys == mem.Keys
    ensures Followable(MergeMem(mem, p), cs[k].at)
  {
    var ds, left := MergeListed(cs, p), MergeMem(mem, p);
    var a := cs[k].at;
    ForwardAt(mem, head, cs, k);
    hide Tiles, Forward, MergeMem;
    if IndexOf(ds, a) < |ds| {
      ForwardFollowable(left, head, ds, IndexOf(ds, a));
    } else {
      Absorbed(cs, start, end, k, p);
      MergeFrame(mem, p, a);
      if k + 1 < |cs| {
        ForwardFollowable(left, head, ds, IndexOf(ds, cs[k + 1].at));
      }
    }
  }

  lemma ForwardFollowable(mem: Memory, head: nat, cs: seq<Chunk>, i: nat)
    requires Forward(mem, head, cs) && i < |cs|
    ensures Followable(mem, cs[i].at) && (mem[cs[i].at].next != 0 ==> mem[cs[i].at].next in mem)
  {
    ForwardAt(mem, head, cs, i);
    if i + 1 < |cs| {
      ForwardAt(mem, head, cs, i + 1);
      if i + 2 < |cs| {
        ForwardAt(mem, head, cs, i + 2);
      }
    }
  }

  /** The chunk a merge takes out of the list is the one behind p; the next one stays. */
  lemma Absorbed(cs: seq<Chunk>, start: nat, end: nat, k: nat, p: nat)
    requires Tiles(cs, start, end) && k < |cs| && Tiles(MergeListed(cs, p), start, end)
    requires IndexOf(MergeListed(cs, p), cs[k].at) == |MergeListed(cs, p)|
    ensures cs[k].at != p
    ensures k + 1 < |cs| ==> IndexOf(MergeListed(cs, p), cs[k + 1].at) < |MergeListed(cs, p)|
  {
    var i, ds := IndexOf(cs, p), MergeListed(cs, p);
    IndexIs(cs, start, end, k);
    assert i + 1 < |cs| && BothFree(cs, i) && ds == MergeAt(cs, i);
    hide Tiles, MergeAt;
    if k <= i {
      ListedIn(cs, ds, start, end, k);
    } else if k > i + 1 {
      ListedIn(cs, ds, start, end, k - 1);
    } else if k + 1 < |cs| {
      ListedIn(cs, ds, start, end, k);
    }
  }

  /** Both merges of kfree find the headers they look at. */
  lemma KfreeReads(mem: Memory, head: nat, cs: seq<Chunk>, start: nat, end: nat, k: nat)
    requires Tiles(cs, start, end) && Forward(mem, head, cs) && Remembered(mem, cs) && k < |cs|
    requires cs[k].at in mem && Follows(mem, cs[k].at)
    ensures var freed, prev := SetState(mem, cs[k].at, STATE_FREE), mem[cs[k].at].prev;
            && freed[cs[k].at].prev == prev
            && (prev != 0 ==> Followable(freed, prev))
            && Followable(if prev != 0 then MergeMem(freed, prev) else freed, cs[k].at)
  {
    MarkedForward(mem, head, cs, start, end, k, false);
    FreeState();
    MarkTiles(cs, start, end, k, false);
    RememberedMark(mem, cs, k);
    SetStateFields(mem, cs[k].at);
    var freed, fs, prev := SetState(mem, cs[k].at, STATE_FREE), Mark(cs, k, false), mem[cs[k].at].prev;
    assert fs[k].at == cs[k].at;
    hide Tiles, Forward, Remembered, MergeMem, MergeListed, SetState, StateOf, Mark, Followable;
    MergedListed(freed, head, fs, start, end, prev);
    if prev != 0 {
      SecondFollows(freed, head, fs, start, end, k, prev);
    } else {
      ForwardFollowable(freed, head, fs, k);
    }
  }

  lemma KfreeState(mem: Memory, a: nat)
    requires a in mem
    ensures KfreeMem(mem, a).Keys == mem.Keys && KfreeMem(mem, a)[a].state == STATE_FREE
  {
    var freed := SetState(mem, a, STATE_FREE);
    hide MergeMem;
    MergeStates(freed, freed[a].prev);
    MergeStates(if freed[a].prev != 0 then MergeMem(freed, freed[a].prev) else freed, a);
  }

  /** kfree of this payload frees a chunk. */
  predicate Frees(mem: Memory, ptr: nat) {
    ptr >= HEADER && ptr - HEADER in mem && mem[ptr - HEADER].state == STATE_USED
  }

  /** There is a header in front of ptr, and kfree, should it free, finds those it looks at. */
  predicate Safe(mem: Memory, ptr: nat) {
    ptr == 0 || (ptr >= HEADER && ptr - HEADER in mem && (Frees(mem, ptr) ==> Follows(mem, ptr - HEADER)))
  }

  /** A header in use is that of a chunk in the list. */
  lemma FreesListed(mem: Memory, head: nat, cs: seq<Chunk>, ptr: nat)
    requires Forward(mem, head, cs) && Remembered(mem, cs) && Frees(mem, ptr)
    ensures var k := IndexOf(cs, ptr - HEADER); k < |cs| && cs[k].used && cs[k].Payload() == ptr
  {
    hide IndexOf, Buried, Apart, Forward;
    ForwardAt(mem, head, cs, IndexOf(cs, ptr - HEADER));
  }

  /** A prev that names a chunk of the list, or none, can be followed. */
  lemma FollowsListed(mem: Memory, head: nat, cs: seq<Chunk>, a: nat)
    requires Forward(mem, head, cs) && a in mem
    requires mem[a].prev == 0 || IndexOf(cs, mem[a].prev) < |cs|
    ensures Follows(mem, a)
  {
    hide IndexOf;
    if mem[a].prev != 0 {
      var i := IndexOf(cs, mem[a].prev);
      ForwardFollowable(mem, head, cs, i);
      if i + 1 < |cs| {
        ForwardFollowable(mem, head, cs, i + 1);
      }
    }
  }

  /** On an intact heap every payload can be freed. */
  lemma IntactSafe(mem: Memory, head: nat, cs: seq<Chunk>, start: nat, end: nat, k: nat)
    requires Tiles(cs, start, end) && Threaded(mem, head, cs) && k < |cs|
    ensures Safe(mem, cs[k].Payload())
  {
    ThreadedForward(mem, head, cs);
    At(mem, head, cs, k);
    if k > 0 {
      IndexIs(cs, start, end, k - 1);
    }
    hide Threaded, Forward, Tiles, IndexOf, Follows;
    FollowsListed(mem, head, cs, cs[k].at);
  }

  /** What kfree makes of the list of an intact heap. */
  lemma KfreeListIntact(mem: Memory, head: nat, cs: seq<Chunk>, start: nat, end: nat, k: nat)
    requires HeapOk(mem, head, cs, start, end) && Remembered(mem, cs) && k < |cs| && cs[k].used
    ensures cs[k].at in mem
    ensures KfreeList(cs, k, mem[cs[k].at].prev)
         == if BetweenFree(cs, k) then MergeAt(Mark(cs, k, false), k - 1) else Freed(cs, k)
  {
    At(mem, head, cs, k);
    ThreadedForward(mem, head, cs);
    KfreeWalkable(mem, head, cs, start, end, k);
    var after, ds := KfreeMem(mem, cs[k].at), KfreeList(cs, k, mem[cs[k].at].prev);
    hide Tiles, Threaded, Forward, Coalesced, KfreeMem, KfreeList, Freed, MergeAt, Mark;
    if BetweenFree(cs, k) {
      KfreeBetween(mem, head, cs, start, end, k);
      OneList(after, head, ds, MergeAt(Mark(cs, k, false), k - 1), start, end);
    } else {
      KfreeMerges(mem, head, cs, start, end, k);
      ThreadedForward(after, head, Freed(cs, k));
      OneList(after, head, ds, Freed(cs, k), start, end);
    }
  }

  lemma OneList(mem: Memory, head: nat, cs: seq<Chunk>, ds: seq<Chunk>, start: nat, end: nat)
    requires Tiles(cs, start, end) && Tiles(ds, start, end) && Forward(mem, head, cs) && Forward(mem, head, ds)
    ensures cs == ds
  {
    Addresses(cs, start, end);
    Addresses(ds, start, end);
    ListUnique(mem, head, cs, ds, |cs|);
  }

  /** kfree takes the chunk freed out of those in use, and no other. */
  lemma KfreeInUse(cs: seq<Chunk>, start: nat, end: nat, k: nat, p: nat)
    requires Tiles(cs, start, end) && k < |cs| && cs[k].used
    ensures InUse(KfreeList(cs, k, p)) == InUse(cs) - {cs[k]}
  {
    FreedInUse(cs, start, end, k);
    var fs := Mark(cs, k, false);
    hide Mark, MergeRight, IndexOf, InUse;
    MergeInUse(fs, IndexOf(fs, p));
    MergeInUse(MergeListed(fs, p), IndexOf(MergeListed(fs, p), cs[k].at));
  }

  // ---------------------------------------------------------------------
  // kmalloc hands bytes to its caller
  // ---------------------------------------------------------------------

  /** The bytes between two addresses belong to the caller, or to a new header at keep:
      what else lay there is a header no longer. */
  function HandOut(mem: Memory, from: nat, to: nat, keep: nat): Memory {
    map a | a in mem && (a <= from || a >= to || a == keep) :: mem[a]
  }

  /** A chunk of that length is split, the rest being large enough for a chunk. */
  predicate Splits(c: Chunk, required: nat) { c.length >= required + HEADER + MIN_SPLIT }

  /** Where the bytes of a chunk end that kmalloc hands out or writes. */
  function HandedEnd(c: Chunk, required: nat): nat {
    if Splits(c, required) then c.at + required + HEADER else c.End()
  }

  /** The new header among them, the chunk's own when there is none. */
  function HandedKeep(c: Chunk, required: nat): nat {
    if Splits(c, required) then c.at + required else c.at
  }

  function HandOutOf(mem: Memory, c: Chunk, required: nat): Memory {
    HandOut(mem, c.at, HandedEnd(c, required), HandedKeep(c, required))
  }

  lemma HandOutKeeps(mem: Memory, head: nat, cs: seq<Chunk>, c: Chunk, required: nat)
    requires forall i :: 0 <= i < |cs| ==>
               cs[i].at <= c.at || cs[i].at >= HandedEnd(c, required) || cs[i].at == HandedKeep(c, required)
    ensures Forward(mem, head, cs) ==> Forward(HandOutOf(mem, c, required), head, cs)
    ensures Threaded(mem, head, cs) ==> Threaded(HandOutOf(mem, c, required), head, cs)
  {
  }

  /** No header of the allocated list lies in the bytes handed out. */
  lemma HeadsOutside(cs: seq<Chunk>, start: nat, end: nat, k: nat, required: nat)
    requires Tiles(cs, start, end) && k < |cs| && Fits(cs[k], required)
    requires required >= MIN_CHUNK && Aligned(required)
    ensures forall i :: 0 <= i < |Allocate(cs, k, required)| ==>
              var a := Allocate(cs, k, required)[i].at;
              a <= cs[k].at || a >= HandedEnd(cs[k], required) || a == HandedKeep(cs[k], required)
  {
    hide Tiles, Aligned, Allocate;
    AllocateTiles(cs, start, end, k, required);
    var ds := Allocate(cs, k, required);
    AllocateShape(cs, k, required, k);
    forall i | 0 <= i < |ds|
      ensures ds[i].at <= cs[k].at || ds[i].at >= HandedEnd(cs[k], required) || ds[i].at == HandedKeep(cs[k], required)
    {
      if i < k {
        Ordered(ds, start, end, i, k);
      } else if i > k && !Splits(cs[k], required) {
        AllocateShape(cs, k, required, i);
        Ordered(cs, start, end, k, i);
      } else if i > k + 1 {
        AllocateShape(cs, k, required, i - 1);
        Ordered(cs, start, end, k, i - 1);
      }
    }
  }

  lemma AllocateShape(cs: seq<Chunk>, k: nat, required: nat, j: nat)
    requires k < |cs| && required <= cs[k].length && j < |cs|
    ensures var ds := Allocate(cs, k, required);
            && |ds| == (if Splits(cs[k], required) then |cs| + 1 else |cs|)
            && (Splits(cs[k], required) ==> ds[k + 1] == Chunk(cs[k].at + required, cs[k].length - required, false))
            && ds[k].at == cs[k].at
            && (j != k ==> ds[if Splits(cs[k], required) && j > k then j + 1 else j] == cs[j])
  {
  }

  /** What kmalloc leaves when it has taken chunk k: one more header if it split, no state
      changed but that of the chunk, and the bytes handed out forgotten. */
  lemma RememberedTake(mem: Memory, cs: seq<Chunk>, start: nat, end: nat, k: nat, required: nat, mem': Memory)
    requires Remembered(mem, cs) && Tiles(cs, start, end) && k < |cs| && Fits(cs[k], required)
    requires required >= MIN_CHUNK && Aligned(required)
    requires cs[k].at in mem && mem'.Keys == mem.Keys + {HandedKeep(cs[k], required)}
    requires forall a :: a in mem && a != cs[k].at && a != HandedKeep(cs[k], required) ==> mem'[a].state == mem[a].state
    ensures Remembered(HandOutOf(mem', cs[k], required), Allocate(cs, k, required))
  {
    var ds, out := Allocate(cs, k, required), HandOutOf(mem', cs[k], required);
    AllocateTiles(cs, start, end, k, required);
    TakeApart(mem, cs[k], required, mem');
    KeptListed(cs, start, end, k, required);
    hide Tiles, Aligned, Allocate, IndexOf, Buried, Apart, HandOut, HandedEnd, HandedKeep, Fits;
    forall a | a in out
      ensures IndexOf(ds, a) < |ds| || (Buried(ds, a) && out[a].state == STATE_FREE)
    {
      KeptOut(mem', a, cs[k].at, HandedEnd(cs[k], required), HandedKeep(cs[k], required));
      if a != HandedKeep(cs[k], required) && a != cs[k].at {
        KnownAfterTake(cs, start, end, k, required, a);
      }
    }
  }

  lemma KeptListed(cs: seq<Chunk>, start: nat, end: nat, k: nat, required: nat)
    requires k < |cs| && required <= cs[k].length && Tiles(Allocate(cs, k, required), start, end)
    ensures var ds := Allocate(cs, k, required);
            IndexOf(ds, HandedKeep(cs[k], required)) < |ds| && IndexOf(ds, cs[k].at) < |ds|
  {
    AllocateShape(cs, k, required, k);
    hide Tiles, Allocate, IndexOf;
    ListedIn(cs, Allocate(cs, k, required), start, end, k);
    if Splits(cs[k], required) {
      ListedIn(cs, Allocate(cs, k, required), start, end, k + 1);
    }
  }

  lemma KeptOut(mem: Memory, a: nat, from: nat, to: nat, keep: nat)
    requires a in HandOut(mem, from, to, keep)
    ensures a in mem && HandOut(mem, from, to, keep)[a] == mem[a] && (a <= from || a >= to || a == keep)
  {
  }

  lemma KnownAfterTake(cs: seq<Chunk>, start: nat, end: nat, k: nat, required: nat, a: nat)
    requires k < |cs| && required <= cs[k].length && Tiles(Allocate(cs, k, required), start, end)
    requires a < cs[k].at || a >= HandedEnd(cs[k], required)
    ensures var ds := Allocate(cs, k, required);
            && (IndexOf(cs, a) < |cs| ==> IndexOf(ds, a) < |ds|)
            && (Buried(cs, a) ==> Buried(ds, a))
  {
    hide Tiles, IndexOf, Allocate, Buried;
    var ds, j := Allocate(cs, k, required), IndexOf(cs, a);
    AllocateShape(cs, k, required, if j < |cs| then j else k);
    if j < |cs| && j != k {
      ListedIn(cs, ds, start, end, if Splits(cs[k], required) && j > k then j + 1 else j);
    } else if j == k {
      ListedIn(cs, ds, start, end, k);
    }
    if Buried(cs, a) {
      BuriedTake(cs, k, required, a);
    }
  }

  lemma BuriedTake(cs: seq<Chunk>, k: nat, required: nat, a: nat)
    requires k < |cs| && required <= cs[k].length && Buried(cs, a)
    requires a < cs[k].at || a >= HandedEnd(cs[k], required)
    ensures Buried(Allocate(cs, k, required), a)
  {
    var j :| 0 <= j < |cs| && !cs[j].used && cs[j].Payload() <= a && a + HEADER <= cs[j].End();
    AllocateShape(cs, k, required, j);
    hide Allocate, Buried;
    if j == k {
      BuriedIn(Allocate(cs, k, required), k + 1, a);
    } else {
      BuriedIn(Allocate(cs, k, required), if Splits(cs[k], required) && j > k then j + 1 else j, a);
    }
  }

  lemma TakeApart(mem: Memory, c: Chunk, required: nat, mem': Memory)
    requires Apart(mem) && required >= MIN_CHUNK && mem'.Keys == mem.Keys + {HandedKeep(c, required)}
    requires !Splits(c, required) ==> c.at in mem
    ensures Apart(HandOutOf(mem', c, required))
  {
  }

  /** The split, if any, and the mark. */
  function TakenMem(mem: Memory, c: Chunk, required: nat): Memory
    requires c.at in mem && (Splits(c, required) ==> required <= mem[c.at].length)
  {
    SetState(if Splits(c, required) then SplitMem(mem, c.at, required) else mem, c.at, STATE_USED)
  }

  lemma TakeStates(mem: Memory, c: Chunk, required: nat)
    requires c.at in mem && (Splits(c, required) ==> required <= mem[c.at].length)
    requires mem[c.at].next != 0 ==> mem[c.at].next in mem
    ensures var mem' := TakenMem(mem, c, required);
            && mem'.Keys == mem.Keys + {HandedKeep(c, required)}
            && forall a :: a in mem && a != c.at && a != HandedKeep(c, required) ==> mem'[a].state == mem[a].state
  {
  }

  /** The end of kmalloc on a list whose chunk k fits, in memory. */
  lemma TakeMem(mem: Memory, head: nat, cs: seq<Chunk>, start: nat, end: nat, k: nat, required: nat)
    requires Tiles(cs, start, end) && Forward(mem, head, cs) && Remembered(mem, cs)
    requires k < |cs| && Fits(cs[k], required) && required >= MIN_CHUNK && Aligned(required)
    ensures cs[k].at in mem && required <= mem[cs[k].at].length
    ensures var out, ds := HandOutOf(TakenMem(mem, cs[k], required), cs[k], required), Allocate(cs, k, required);
            && Forward(out, head, ds) && Remembered(out, ds) && (Threaded(mem, head, cs) ==> Threaded(out, head, ds))
  {
    hide Tiles, Threaded, Forward, Remembered, SplitMem, SetState, Aligned, HandOutOf, HandedEnd, HandedKeep;
    ForwardAt(mem, head, cs, k);
    ForwardFollowable(mem, head, cs, k);
    TakeStates(mem, cs[k], required);
    HeadsOutside(cs, start, end, k, required);
    if Splits(cs[k], required) {
      SplitTiles(cs, start, end, k, required);
      SplitForward(mem, head, cs, start, end, k, required);
      MarkedForward(SplitMem(mem, cs[k].at, required), head, SplitAt(cs, k, required), start, end, k, true);
    } else {
      MarkedForward(mem, head, cs, start, end, k, true);
    }
    assert StateOf(true) == STATE_USED;
    HandOutKeeps(TakenMem(mem, cs[k], required), head, Allocate(cs, k, required), cs[k], required);
    RememberedTake(mem, cs, start, end, k, required, TakenMem(mem, cs[k], required));
  }

  /** Every header ends within the heap. */
  lemma RememberedInside(mem: Memory, cs: seq<Chunk>, start: nat, end: nat, a: nat)
    requires Remembered(mem, cs) && Tiles(cs, start, end) && a in mem
    ensures a + HEADER <= end
  {
    hide Tiles, IndexOf;
    var i := IndexOf(cs, a);
    if i < |cs| {
      Inside(cs, start, end, i);
    } else {
      var j :| 0 <= j < |cs| && !cs[j].used && cs[j].Payload() <= a && a + HEADER <= cs[j].End();
      Inside(cs, start, end, j);
    }
  }

  lemma Inside(cs: seq<Chunk>, start: nat, end: nat, i: nat)
    requires Tiles(cs, start, end) && i < |cs|
    ensures cs[i].at + HEADER <= cs[i].End() <= end
  {
    if i < |cs| - 1 {
      Ordered(cs, start, end, i, |cs| - 1);
    }
  }

  lemma RememberedAppend(mem: Memory, cs: seq<Chunk>, start: nat, end: nat, bytes: nat)
    requires Remembered(mem, cs) && Tiles(cs, start, end) && cs != [] && cs[|cs| - 1].at in mem
    requires Tiles(cs + [Chunk(end, bytes, false)], start, end + bytes)
    ensures Remembered(AppendMem(mem, cs[|cs| - 1].at, end, bytes), cs + [Chunk(end, bytes, false)])
  {
    hide Tiles, IndexOf, Buried, Apart;
    var longer, more := cs + [Chunk(end, bytes, false)], AppendMem(mem, cs[|cs| - 1].at, end, bytes);
    forall a | a in mem
      ensures a + HEADER <= end
      ensures IndexOf(longer, a) < |longer| || (Buried(longer, a) && mem[a].state == STATE_FREE)
    {
      RememberedInside(mem, cs, start, end, a);
      KnownAfterAppend(cs, start, end, bytes, a);
    }
    assert longer[|cs|].at == end;
    ListedIn(cs, longer, start, end + bytes, |cs|);
    AppendApart(mem, cs[|cs| - 1].at, end, bytes);
    AppendStates(mem, cs[|cs| - 1].at, end, bytes);
  }

  lemma AppendApart(mem: Memory, last: nat, end: nat, bytes: nat)
    requires Apart(mem) && last in mem && forall a :: a in mem ==> a + HEADER <= end
    ensures Apart(AppendMem(mem, last, end, bytes))
  {
  }

  lemma AppendStates(mem: Memory, last: nat, end: nat, bytes: nat)
    requires last in mem && end !in mem
    ensures AppendMem(mem, last, end, bytes).Keys == mem.Keys + {end}
    ensures forall a :: a in mem ==> AppendMem(mem, last, end, bytes)[a].state == mem[a].state
  {
  }

  lemma KnownAfterAppend(cs: seq<Chunk>, start: nat, end: nat, bytes: nat, a: nat)
    requires Tiles(cs + [Chunk(end, bytes, false)], start, end + bytes)
    ensures IndexOf(cs, a) < |cs| ==> IndexOf(cs + [Chunk(end, bytes, false)], a) < |cs| + 1
    ensures Buried(cs, a) ==> Buried(cs + [Chunk(end, bytes, false)], a)
  {
    hide Tiles, IndexOf, Buried;
    var longer := cs + [Chunk(end, bytes, false)];
    if IndexOf(cs, a) < |cs| {
      assert longer[IndexOf(cs, a)].at == a;
      ListedIn(cs, longer, start, end + bytes, IndexOf(cs, a));
    }
    if Buried(cs, a) {
      BuriedAppend(cs, Chunk(end, bytes, false), a);
    }
  }

  lemma BuriedAppend(cs: seq<Chunk>, c: Chunk, a: nat)
    requires Buried(cs, a)
    ensures Buried(cs + [c], a)
  {
    var j :| 0 <= j < |cs| && !cs[j].used && cs[j].Payload() <= a && a + HEADER <= cs[j].End();
    BuriedIn(cs + [c], j, a);
  }

  /** The condition can fail: when kfree met a chunk between two free ones and kmalloc has
      then handed out all of the merged one, prev of the chunk behind names the caller's bytes. */
  lemma HandedPrev(mem: Memory, head: nat, cs: seq<Chunk>, start: nat, end: nat, k: nat, required: nat)
    requires HeapOk(mem, head, cs, start, end) && k + 2 < |cs| && cs[k].used && BetweenFree(cs, k) && cs[k + 2].used
    requires var merged := MergeAt(Mark(cs, k, false), k - 1)[k - 1];
             Fits(merged, required) && !Splits(merged, required)
    ensures cs[k].at in mem
    ensures var merged := MergeAt(Mark(cs, k, false), k - 1)[k - 1];
            var out := HandOutOf(KfreeMem(mem, cs[k].at), merged, required);
            cs[k + 2].at in out && !Follows(out, cs[k + 2].at)
  {
    KfreeBetween(mem, head, cs, start, end, k);
    Neighbours(cs, start, end, k);
    hide Tiles, Threaded, Forward, KfreeMem, HeapOk;
  }

  lemma Neighbours(cs: seq<Chunk>, start: nat, end: nat, k: nat)
    requires Tiles(cs, start, end) && 0 < k && k + 2 < |cs|
    ensures 0 < cs[k - 1].at < cs[k].at == cs[k - 1].End() < cs[k].End() <= cs[k + 2].at
  {
    Ordered(cs, start, end, k, k + 2);
    assert cs[k].length >= MIN_CHUNK && cs[k - 1].length >= MIN_CHUNK;
  }

  // ---------------------------------------------------------------------
  // Runs of kfree alone
  // ---------------------------------------------------------------------

  /** Links of the headers in r stay in r. */
  ghost predicate ClosedOn(mem: Memory, r: set<nat>) {
    forall a :: a in r ==>
      && a in mem
      && (mem[a].next != 0 ==> mem[a].next in r)
      && (mem[a].prev != 0 ==> mem[a].prev in r)
  }

  lemma ClosedFollows(mem: Memory, r: set<nat>, a: nat)
    requires ClosedOn(mem, r) && a in r
    ensures Follows(mem, a)
  {
  }

  lemma ClosedMerge(mem: Memory, r: set<nat>, p: nat)
    requires ClosedOn(mem, r) && p in r
    ensures ClosedOn(MergeMem(mem, p), r)
  {
  }

  lemma ClosedKfree(mem: Memory, r: set<nat>, a: nat)
    requires ClosedOn(mem, r) && a in r
    ensures a in mem && ClosedOn(KfreeMem(mem, a), r)
  {
    var freed := SetState(mem, a, STATE_FREE);
    assert ClosedOn(freed, r);
    hide ClosedOn, MergeMem;
    if freed[a].prev != 0 {
      assert freed[a].prev in r by { PrevIn(freed, r, a); }
      ClosedMerge(freed, r, freed[a].prev);
      ClosedMerge(MergeMem(freed, freed[a].prev), r, a);
    } else {
      ClosedMerge(freed, r, a);
    }
  }

  lemma PrevIn(mem: Memory, r: set<nat>, a: nat)
    requires ClosedOn(mem, r) && a in r
    ensures a in mem && (mem[a].prev != 0 ==> mem[a].prev in r)
  {
  }

  ghost function Heads(cs: seq<Chunk>): set<nat> { set c | c in cs :: c.at }

  /** On an intact heap all links lead from chunk to chunk. */
  lemma IntactClosed(mem: Memory, head: nat, cs: seq<Chunk>)
    requires Threaded(mem, head, cs)
    ensures ClosedOn(mem, Heads(cs))
  {
    forall a | a in Heads(cs)
      ensures a in mem
      ensures mem[a].next != 0 ==> mem[a].next in Heads(cs)
      ensures mem[a].prev != 0 ==> mem[a].prev in Heads(cs)
    {
      var c :| c in cs && c.at == a;
      var i :| 0 <= i < |cs| && cs[i] == c;
      At(mem, head, cs, i);
      if i + 1 < |cs| {
        assert cs[i + 1] in cs;
      }
      if i > 0 {
        assert cs[i - 1] in cs;
      }
    }
  }
}
