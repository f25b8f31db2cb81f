/** The kernel heap allocator, kernel/mm/kmalloc.c. */
module Kmalloc {
  import opened Machine
  import opened RunHeap
  import opened HeapImage
  import opened FrameSets
  import opened RawMemory
  import Pmm

  /** frames_for, in 64-bit arithmetic. */
  function FramesFor(size: Word): nat {
    var bytes := Wrap((if size == 0 then 1 else size) + HEADER_SIZE);
    Wrap(bytes + 4095) / 4096
  }

  /** A block is large enough if and only if the request does not wrap; then it is also the
      smallest such block. The requests that round to zero frames are exactly 4096 in number. */
  lemma FramesForSound(size: Word)
    ensures size + 16 <= 4096 * FramesFor(size) <==> size <= TWO64 - 4112
    ensures size <= TWO64 - 4112 ==>
              4096 * (FramesFor(size) - 1) < (if size == 0 then 1 else size) + 16
    ensures FramesFor(size) == 0 <==> TWO64 - 4111 <= size <= TWO64 - 16
    ensures size <= 4080 || TWO64 - 15 <= size ==> FramesFor(size) == 1
  {
    var bytes := (if size == 0 then 1 else size) + 16;
    if size <= TWO64 - 4112 {
      assert FramesFor(size) == (bytes + 4095) / 4096;
    } else if size < TWO64 - 16 {
      assert Wrap(Wrap(bytes) + 4095) == bytes + 4095 - TWO64;
    } else {
      assert Wrap(bytes) == bytes - TWO64;
    }
  }

  /** Words and fields after kmalloc(size), for every 64-bit size. */
  ghost function KmallocImage(img: Image, h: Heap, size: Word): Image
    requires Stored(img.mem, h)
  {
    var i := FirstFit(h.runs, h.free, FramesFor(size));
    if i < |h.free| then TakeNth(img, h, i, FramesFor(size)) else img
  }

  /** Every word and field after `need` frames, possibly none, were taken from the i-th listed
      run, at frame s: the run gets its header; what is left of it becomes a node that takes over
      its link; the link that led to it leads to that node, or past it; and no other word of
      memory is touched: the block is not cleared. */
  lemma {:induction false} TakeWords(img: Image, h: Heap, i: nat, need: nat, w: nat)
    requires Represents(img, h) && i < |h.free| && need <= h.runs[h.free[i]] && w < |img.mem|
    ensures var s, img' := h.free[i], TakeNth(img, h, i, need);
            var frames := h.runs[s];
            var next := if need < frames then 4096 * (s + need) else img.mem[512 * s];
            && |img'.mem| == |img.mem|
            && img'.mem[512 * s] == 0x4E41_4449_524D_4148 && img'.mem[512 * s + 1] == need
            && (0 < need < frames ==>
                  img'.mem[512 * (s + need)] == img.mem[512 * s] && img'.mem[512 * (s + need) + 1] == frames - need)
            && (if i == 0 then img'.head == next
                else img'.head == img.head && img'.mem[512 * h.free[i - 1]] == next)
            && img'.freeFrames == img.freeFrames - need && img'.usedFrames == img.usedFrames + need
            && (|| w == 512 * s || w == 512 * s + 1 || (0 < i && w == 512 * h.free[i - 1])
                || (need < frames && (w == 512 * (s + need) || w == 512 * (s + need) + 1))
                || img'.mem[w] == img.mem[w])
  {
    TakeFieldsAre(img, h, i, need);
    TakeNodesAre(img, h, i, need);
    TakeKeepsRest(img, h, i, need, w);
  }

  lemma {:induction false} CountersFit(img: Image, h: Heap, i: nat)
    requires Represents(img, h) && i < |h.free|
    ensures h.runs[h.free[i]] <= img.freeFrames && img.usedFrames + h.runs[h.free[i]] < TWO64
  {
    SumSeqSplit(h.runs, h.free, i);
  }

  lemma {:induction false} TakeFieldsAre(img: Image, h: Heap, i: nat, need: nat)
    requires Represents(img, h) && i < |h.free| && need <= h.runs[h.free[i]]
    ensures var img', s := TakeNth(img, h, i, need), h.free[i];
            && img'.freeFrames == img.freeFrames - need && img'.usedFrames == img.usedFrames + need
            && (i != 0 ==> img'.head == img.head)
            && (i == 0 ==> img'.head == if need < h.runs[s] then 4096 * (s + need) else img.mem[512 * s])
  {
    assert NodeStored(img.mem, h, i);
    assert need <= img.freeFrames && img.usedFrames + need < TWO64 by {
      CountersFit(img, h, i);
    }
    TakeFields(img, h, i, need);
  }

  lemma {:induction false} TakeKeepsRest(img: Image, h: Heap, i: nat, need: nat, w: nat)
    requires Stored(img.mem, h) && i < |h.free| && need <= h.runs[h.free[i]] && w < |img.mem|
    ensures var s, mem := h.free[i], TakeNth(img, h, i, need).mem;
            && |mem| == |img.mem|
            && (|| w == 512 * s || w == 512 * s + 1 || (0 < i && w == 512 * h.free[i - 1])
                || (need < h.runs[s] && (w == 512 * (s + need) || w == 512 * (s + need) + 1))
                || mem[w] == img.mem[w])
  {
    TakeWord(img, h, i, need, w);
  }

  lemma {:induction false} TakeNodesAre(img: Image, h: Heap, i: nat, need: nat)
    requires Stored(img.mem, h) && i < |h.free| && need <= h.runs[h.free[i]]
    ensures var s, mem := h.free[i], TakeNth(img, h, i, need).mem;
            var frames := h.runs[s];
            var next := if need < frames then 4096 * (s + need) else img.mem[512 * s];
            && |mem| == |img.mem|
            && mem[512 * s] == MAGIC && mem[512 * s + 1] == need
            && (0 < need < frames ==>
                  mem[512 * (s + need)] == img.mem[512 * s] && mem[512 * (s + need) + 1] == frames - need)
            && (0 < i ==> mem[512 * h.free[i - 1]] == next)
  {
    var s := h.free[i];
    assert NodeStored(img.mem, h, i);
    TakeWord(img, h, i, need, 512 * s);
    TakeWord(img, h, i, need, 512 * s + 1);
    if 0 < need < h.runs[s] {
      if 0 < i {
        RunsApart(h, s, h.free[i - 1]);
      }
      TakeWord(img, h, i, need, 512 * (s + need));
      TakeWord(img, h, i, need, 512 * (s + need) + 1);
    }
    if 0 < i {
      TakeWord(img, h, i, need, 512 * h.free[i - 1]);
    }
  }

  /** kmalloc takes from the first listed run that has the frames, if there is one. */
  lemma {:induction false} KmallocTakes(img: Image, h: Heap, size: Word, i: nat)
    requires Stored(img.mem, h) && i <= |h.free|
    requires forall j :: 0 <= j < i ==> h.runs[h.free[j]] < FramesFor(size)
    requires i < |h.free| ==> FramesFor(size) <= h.runs[h.free[i]]
    ensures KmallocImage(img, h, size) == if i < |h.free| then TakeNth(img, h, i, FramesFor(size)) else img
  {
    assert FirstFit(h.runs, h.free, FramesFor(size)) == i;
  }

  /** Taking from the i-th run, on the list in memory: following the pointers afterwards visits
      the same nodes in the same order, except that the run is replaced by what is left of it, or
      is gone when nothing is left. */
  lemma {:induction false} TakeOnTheList(img: Image, h: Heap, i: nat, need: nat)
    requires Represents(img, h) && i < |h.free| && 1 <= need <= h.runs[h.free[i]]
    ensures var img', list := TakeNth(img, h, i, need), h.free;
            ReadList(img'.mem, img'.head, h.n) ==
            Some(if need < h.runs[list[i]] then list[..i] + [list[i] + need] + list[i + 1..]
                 else list[..i] + list[i + 1..])
  {
    var q := h.free;
    assert need < h.runs[q[i]] ==> Take(h, i, need).free == q[..i] + [q[i] + need] + q[i + 1..];
    ReadAfterTake(img, h, i, need);
  }

  lemma {:induction false} ReadAfterTake(img: Image, h: Heap, i: nat, need: nat)
    requires Represents(img, h) && i < |h.free| && 1 <= need <= h.runs[h.free[i]]
    ensures var img' := TakeNth(img, h, i, need);
            ReadList(img'.mem, img'.head, h.n) == Some(Take(h, i, need).free)
  {
    TakeRefines(img, h, i, need);
    ListInMemory(TakeNth(img, h, i, need), Take(h, i, need));
  }

  /** Freeing a block and allocating any size of the same frame count gives the same block
      and puts back every word of memory, the list head and both counters. */
  lemma {:induction false} FreeThenKmalloc(img: Image, h: Heap, s: nat, size: Word)
    requires Represents(img, h) && s in Live(h) && FramesFor(size) == h.runs[s]
    ensures Represents(FreeImage(img, PtrOf(s)), Release(h, s))
    ensures Alloc(Release(h, s), FramesFor(size)) == (h, Some(s))
    ensures KmallocImage(FreeImage(img, PtrOf(s)), Release(h, s), size) == img
  {
    FreeThenTakeRestores(img, h, s);
  }

  ghost predicate DescribesAHeap(img: Image) {
    exists h: Heap :: Represents(img, h)
  }

  /** kmalloc leaves a heap behind if and only if nothing is free or the size is not one of
      those that round to zero frames; for these, memory describes no heap at all afterwards. */
  lemma {:induction false} KmallocSafeIff(img: Image, h: Heap, size: Word)
    requires Represents(img, h)
    ensures DescribesAHeap(KmallocImage(img, h, size))
            <==> h.free == [] || !(TWO64 - 4111 <= size <= TWO64 - 16)
  {
    FramesForSound(size);
    var need := FramesFor(size);
    var i := FirstFit(h.runs, h.free, need);
    if i == |h.free| {
      assert Represents(KmallocImage(img, h, size), h);
    } else if need != 0 {
      TakeRefines(img, h, i, need);
      assert Represents(KmallocImage(img, h, size), Take(h, i, need));
    } else {
      forall any: Heap
        ensures !Represents(TakeNth(img, h, 0, 0), any)
      {
        TakeZeroCorrupts(img, h, any);
      }
    }
  }

  predicate NullOrRun(h: Heap, ptr: Word) {
    ptr == 0 || (ptr / 4096 in h.runs && ptr == PtrOf(ptr / 4096))
  }

  function ReleasePtr(h: Heap, ptr: Word): Heap {
    if ptr == 0 then h else Release(h, ptr / 4096)
  }

  lemma {:induction false} PtrInMemory(mem: seq<Word>, h: Heap, s: nat)
    requires Partition(h) && Fits(mem, h) && s in h.runs
    ensures 16 <= PtrOf(s) < TWO64 && PtrOf(s) % 8 == 0 && PtrOf(s) / 8 <= |mem|
  {
  }

  lemma {:induction false} FreePtrRefines(img: Image, h: Heap, ptr: Word)
    requires Represents(img, h) && NullOrRun(h, ptr)
    ensures ptr == 0 || (16 <= ptr && ptr % 8 == 0 && ptr / 8 <= |img.mem|)
    ensures Represents(FreeImage(img, ptr), ReleasePtr(h, ptr))
  {
    if ptr != 0 {
      var s := ptr / 4096;
      PtrInMemory(img.mem, h, s);
      assert Represents(FreeImage(img, PtrOf(s)), Release(h, s)) by {
        FreeRefines(img, h, s);
      }
    }
  }

  // ---------------------------------------------------------------- kmalloc_init

  /** Memory and fields after kmalloc_init took n frames from `base` on: one node is written,
      and nothing at all without frames. */
  ghost function InitImage(mem: seq<Word>, base: nat, n: nat): Image
    requires n != 0 ==> n < TWO64 && AddrOf(base) < TWO64 && 512 * base + 1 < |mem|
  {
    if n == 0 then Image(mem, 0, 0, 0)
    else Image(mem[512 * base := 0][512 * base + 1 := n], AddrOf(base), n, 0)
  }

  lemma {:induction false} InitRefines(mem: seq<Word>, base: nat, n: nat)
    requires 1 <= base && base + n <= 0x4_0000 && |mem| == 0x800_0000
    ensures Represents(InitImage(mem, base, n), Start(base, n))
  {
    StartInv(base, n);
    var h := Start(base, n);
    if n != 0 {
      assert h.free[1..] == [];
      assert SumSeq(h.runs, h.free) == n;
    }
  }

  /** What kmalloc_init leaves in memory, word by word: the two words of the node, and every
      other word as it was. */
  lemma {:induction false} InitWords(mem: seq<Word>, base: nat, n: nat, w: nat)
    requires 1 <= base && base + n <= 0x4_0000 && |mem| == 0x800_0000 && w < |mem|
    ensures var img := InitImage(mem, base, n);
            && |img.mem| == |mem| && img.usedFrames == 0 && img.freeFrames == n
            && img.head == (if n == 0 then 0 else 4096 * base)
            && (n != 0 ==> img.mem[512 * base] == 0 && img.mem[512 * base + 1] == n)
            && (n == 0 || (w != 512 * base && w != 512 * base + 1) ==> img.mem[w] == mem[w])
  {
  }

  /** The n lowest frames are consecutive. */
  ghost predicate Consecutive(free: set<nat>, n: nat) {
    free != {} && Interval(Lowest(free), n) <= free
  }

  /** n is the length of the first stretch of consecutive free frames, or 64 if that is less. */
  ghost predicate IsStretch(free: set<nat>, n: nat) {
    Consecutive(free, n) && 1 <= n <= 64 && (n < 64 ==> Lowest(free) + n !in free)
  }

  /** The frames the heap gets: the first stretch, or none at all (then `base` is 1). */
  ghost predicate FirstRun(free: set<nat>, base: nat, n: nat) {
    if free == {} then base == 1 && n == 0 else base == Lowest(free) && IsStretch(free, n)
  }

  ghost function Taken(free: set<nat>, n: nat): set<nat> {
    if free == {} then {} else Interval(Lowest(free), n)
  }

  /** What the frame allocator has left: the stretch is gone, and so is the frame that showed
      its end, if there is one. */
  ghost function FreeAfterPull(free: set<nat>, n: nat): set<nat> {
    var rest := free - Taken(free, n);
    if n < 64 && rest != {} then rest - {Lowest(rest)} else rest
  }

  lemma {:induction false} RestStarts(free: set<nat>, i: nat)
    requires free != {} && Consecutive(free, i)
    ensures forall f :: f in free - Taken(free, i) ==> Lowest(free) + i <= f
    ensures Lowest(free) + i !in Taken(free, i)
  {
    IntervalSize(Lowest(free), i);
  }

  /** The next frame allocated continues the stretch, or shows that it is over. */
  lemma {:induction false} PullStep(free: set<nat>, i: nat)
    requires free != {} && i < 64 && Consecutive(free, i)
    ensures var rest := free - Taken(free, i);
            if rest != {} && Lowest(rest) == Lowest(free) + i then
              Consecutive(free, i + 1) && rest - {Lowest(rest)} == free - Taken(free, i + 1)
            else
              i != 0 && IsStretch(free, i)
  {
    var rest, next := free - Taken(free, i), Lowest(free) + i;
    RestStarts(free, i);
    assert Taken(free, i + 1) == Taken(free, i) + {next};
    if next in free {
      LowestIs(rest, next);
    }
  }

  lemma {:induction false} StretchInWindow(free: set<nat>, n: nat)
    requires IsStretch(free, n) && 0 !in free && forall f :: f in free ==> f < 0x4_0000
    ensures 1 <= Lowest(free) && Lowest(free) + n <= 0x4_0000
  {
    IntervalSize(Lowest(free), n);
    assert Lowest(free) + n - 1 in free;
  }

  /** The free count drops by the frames of the heap, and by one more exactly when a hole
      ended the stretch early. */
  lemma {:induction false} PullCount(free: set<nat>, n: nat)
    requires IsStretch(free, n)
    ensures var hole := n < 64 && exists f :: f in free && Lowest(free) + n <= f;
            |FreeAfterPull(free, n)| == |free| - n - if hole then 1 else 0
  {
    IntervalSize(Lowest(free), n);
    var rest := free - Taken(free, n);
    assert free == rest + Taken(free, n);
    assert forall f :: f in rest <==> f in free && Lowest(free) + n <= f;
    assert rest != {} <==> exists f :: f in rest;
  }

  /** The heap's frames and what is left, frame by frame: the heap gets the frames from the
      lowest free one up to the first hole, at most 64; a frame is left exactly when it was free,
      is none of these, and is not the one that showed the hole. */
  lemma {:induction false} FirstRunMeaning(free: set<nat>, base: nat, n: nat, f: nat)
    requires FirstRun(free, base, n)
    ensures free == {} ==> n == 0 && FreeAfterPull(free, n) == {}
    ensures free != {} ==>
              && 1 <= n <= 64 && base in free && (forall g :: g in free ==> base <= g)
              && (base <= f < base + n ==> f in free) && (n < 64 ==> base + n !in free)
              && (f in FreeAfterPull(free, n) <==>
                  f in free && base + n <= f && (n == 64 || exists g :: g in free && base + n <= g < f))
  {
    if free != {} {
      assert base <= f < base + n ==> f in free by {
        IntervalSize(base, n);
      }
      LeftAfterPull(free, n, f);
    }
  }

  lemma {:induction false} LeftAfterPull(free: set<nat>, n: nat, f: nat)
    requires free != {}
    ensures f in FreeAfterPull(free, n) <==>
            f in free && Lowest(free) + n <= f && (64 <= n || exists g :: g in free && Lowest(free) + n <= g < f)
  {
    var rest := free - Taken(free, n);
    assert forall g :: g in rest <==> g in free && Lowest(free) + n <= g by {
      IntervalSize(Lowest(free), n);
    }
    if n < 64 && f in rest && f != Lowest(rest) {
      assert Lowest(rest) in free && Lowest(free) + n <= Lowest(rest) < f;
    }
  }

  class Kheap {
    /** All of physical memory the kernel maps. */
    const mem: array<Word>
    var freeList: Word
    var freeFrames: Word
    var usedFrames: Word
    ghost var heap: Heap

    ghost function View(): Image
      reads this, mem
    {
      Image(mem[..], freeList, freeFrames, usedFrames)
    }

    ghost predicate Valid()
      reads this, mem
    {
      Represents(View(), heap)
    }

    /** Memory before kmalloc_init: no heap yet. */
    constructor (memory: array<Word>)
      requires memory.Length == 0x800_0000
      ensures mem == memory && heap == Start(1, 0) && Valid()
    {
      mem := memory;
      freeList, freeFrames, usedFrames := 0, 0, 0;
      heap := Start(1, 0);
      new;
      InitRefines(mem[..], 1, 0);
    }

    /** The loop of kmalloc_init: contiguous frames from the frame allocator, at most 64. */
    method Pull(p: Pmm.Allocator) returns (addr: Word, i: nat)
      requires p.Valid() && 0 !in p.pool
      modifies p`free, p`pool, p.bitmap
      ensures p.Valid() && p.usable == old(p.usable)
      ensures i <= 64 && (addr == 0 <==> i == 0) && (old(p.pool) == {} <==> i == 0)
      ensures i != 0 ==> addr == 4096 * Lowest(old(p.pool)) && IsStretch(old(p.pool), i)
      ensures p.pool == FreeAfterPull(old(p.pool), i)
    {
      addr, i := 0, 0;
      ghost var all := p.pool;
      while i < 64
        invariant i <= 64 && p.Valid() && p.usable == old(p.usable)
        invariant addr == 0 <==> i == 0
        invariant i != 0 ==> all != {} && addr == 4096 * Lowest(all) && Consecutive(all, i)
        invariant p.pool == all - Taken(all, i)
      {
        if all != {} {
          PullStep(all, i);
        }
        var next := p.AllocFrame();
        if next == 0 {
          return;
        }
        if addr != 0 && next != addr + i * 4096 {
          return;
        }
        if addr == 0 {
          addr := next;
        }
        i := i + 1;
      }
    }

    /** kmalloc_init: the heap is one free run of the frames pulled, and the two words of its
        node are all that is written. */
    method Init(p: Pmm.Allocator)
      requires p.Valid() && 0 !in p.pool && mem.Length == 0x800_0000
      modifies this, mem, p`free, p`pool, p.bitmap
      ensures Valid() && p.Valid() && p.usable == old(p.usable)
      ensures FirstRun(old(p.pool), heap.base, heap.n) && heap == Start(heap.base, heap.n)
      ensures 1 <= heap.base && heap.base + heap.n <= 0x4_0000
      ensures View() == InitImage(old(mem[..]), heap.base, heap.n)
      ensures p.pool == FreeAfterPull(old(p.pool), heap.n)
      ensures heap.n == 0 <==> old(p.pool) == {}
      ensures freeList == (if heap.n == 0 then 0 else 4096 * heap.base) && freeFrames == heap.n && usedFrames == 0
      ensures heap.n != 0 ==> mem[512 * heap.base] == 0 && mem[512 * heap.base + 1] == heap.n
      ensures forall w :: 0 <= w < mem.Length && (heap.n == 0 || (w != 512 * heap.base && w != 512 * heap.base + 1)) ==>
                mem[w] == old(mem[w])
    {
      ghost var was := mem[..];
      PullAndStore(p);
      InitFrame(was);
    }

    method PullAndStore(p: Pmm.Allocator)
      requires p.Valid() && 0 !in p.pool && mem.Length == 0x800_0000
      modifies this, mem, p`free, p`pool, p.bitmap
      ensures Valid() && p.Valid() && p.usable == old(p.usable)
      ensures FirstRun(old(p.pool), heap.base, heap.n) && heap == Start(heap.base, heap.n)
      ensures 1 <= heap.base && heap.base + heap.n <= 0x4_0000
      ensures View() == InitImage(old(mem[..]), heap.base, heap.n)
      ensures p.pool == FreeAfterPull(old(p.pool), heap.n)
    {
      ghost var all, was := p.pool, mem[..];
      assert forall f :: f in all ==> f < 0x4_0000;
      freeList, freeFrames, usedFrames := 0, 0, 0;
      var addr, i := Pull(p);
      assert mem[..] == was;
      if addr == 0 {
        StoreNothing();
      } else {
        assert 1 <= Lowest(all) && Lowest(all) + i <= 0x4_0000 by {
          StretchInWindow(all, i);
        }
        assert addr / 4096 == Lowest(all);
        StoreRun(addr, i);
      }
    }

    /** What the image says of each word. */
    lemma InitFrame(was: seq<Word>)
      requires Valid() && |was| == mem.Length == 0x800_0000 && 1 <= heap.base && heap.base + heap.n <= 0x4_0000
      requires View() == InitImage(was, heap.base, heap.n)
      ensures freeList == (if heap.n == 0 then 0 else 4096 * heap.base) && freeFrames == heap.n && usedFrames == 0
      ensures heap.n != 0 ==> mem[512 * heap.base] == 0 && mem[512 * heap.base + 1] == heap.n
      ensures forall w :: 0 <= w < mem.Length && (heap.n == 0 || (w != 512 * heap.base && w != 512 * heap.base + 1)) ==>
                mem[w] == was[w]
    {
      forall w | 0 <= w < mem.Length
        ensures heap.n == 0 || (w != 512 * heap.base && w != 512 * heap.base + 1) ==> mem[w] == was[w]
      {
        InitWords(was, heap.base, heap.n, w);
        assert mem[..][w] == mem[w];
      }
      assert heap.n != 0 ==> mem[512 * heap.base] == mem[..][512 * heap.base]
                             && mem[512 * heap.base + 1] == mem[..][512 * heap.base + 1];
      InitWords(was, heap.base, heap.n, 0);
    }

    /** A heap without frames: nothing is written. */
    method StoreNothing()
      requires mem.Length == 0x800_0000 && freeList == 0 && freeFrames == 0 && usedFrames == 0
      modifies this`heap
      ensures Valid() && heap == Start(1, 0) && View() == InitImage(mem[..], 1, 0)
    {
      heap := Start(1, 0);
      InitRefines(mem[..], 1, 0);
    }

    /** The one free run of a new heap. */
    method StoreRun(addr: Word, n: nat)
      requires addr % 4096 == 0 && 1 <= addr / 4096 && 1 <= n && addr / 4096 + n <= 0x4_0000
      requires mem.Length == 0x800_0000 && usedFrames == 0
      modifies this`freeList, this`freeFrames, this`heap, mem
      ensures Valid() && heap == Start(addr / 4096, n)
      ensures View() == InitImage(old(mem[..]), addr / 4096, n)
    {
      ghost var base := addr / 4096;
      mem[addr / 8] := 0;
      mem[addr / 8 + 1] := n;
      assert mem[..] == old(mem[..])[512 * base := 0][512 * base + 1 := n];
      freeList := addr;
      freeFrames := n;
      heap := Start(base, n);
      InitRefines(old(mem[..]), base, n);
    }

    predicate LinkInMemory(link: Link)
      reads this, mem
    {
      link.Next? ==> link.node / 8 < mem.Length
    }

    function Deref(link: Link): Word
      requires LinkInMemory(link)
      reads this, mem
    {
      match link
      case Head => freeList
      case Next(a) => mem[a / 8]
    }

    method SetLink(link: Link, v: Word)
      requires LinkInMemory(link)
      modifies this`freeList, mem
      ensures View() == Store(old(View()), link, v)
    {
      match link {
        case Head => freeList := v;
        case Next(a) =>
          mem[a / 8] := v;
          assert mem[..] == old(mem[..])[a / 8 := v];
      }
    }

    method Relink(link: Link, run: Word, need: nat)
      requires RunOk(View(), link, run, need)
      modifies this`freeList, mem
      ensures View() == RelinkImage(old(View()), link, run, need)
    {
      if need < mem[run / 8 + 1] {
        var tail := run + need * 4096;
        ghost var was := mem[..];
        mem[tail / 8] := mem[run / 8];
        mem[tail / 8 + 1] := mem[run / 8 + 1] - need;
        assert mem[..] == was[tail / 8 := was[run / 8]][tail / 8 + 1 := was[run / 8 + 1] - need];
        SetLink(link, tail);
      } else {
        SetLink(link, mem[run / 8]);
      }
    }

    method Stamp(run: Word, frames: Word)
      requires run / 8 + 1 < mem.Length
      modifies this`freeFrames, this`usedFrames, mem
      ensures View() == StampImage(old(View()), run, frames)
    {
      freeFrames := Wrap(freeFrames - frames);
      mem[run / 8] := MAGIC;
      mem[run / 8 + 1] := frames;
      assert mem[..] == old(mem[..])[run / 8 := MAGIC][run / 8 + 1 := frames];
      usedFrames := Wrap(usedFrames + frames);
    }

    /** Walk the list in memory to the first run that fits, or to NULL. */
    method Walk(need: nat) returns (link: Link)
      requires Valid()
      ensures LinkInMemory(link)
      ensures link == LinkTo(heap.free, FirstFit(heap.runs, heap.free, need))
      ensures Deref(link) == PointerTo(heap.free, FirstFit(heap.runs, heap.free, need))
    {
      link := Head;
      ghost var i: nat := 0;
      while Deref(link) != 0
        invariant i <= |heap.free| && link == LinkTo(heap.free, i) && LinkInMemory(link)
        invariant Deref(link) == PointerTo(heap.free, i)
        invariant forall j :: 0 <= j < i ==> heap.runs[heap.free[j]] < need
        decreases |heap.free| - i
      {
        var run := Deref(link);
        assert NodeStored(mem[..], heap, i);
        if need <= mem[run / 8 + 1] {
          return;
        }
        link := Next(run);
        i := i + 1;
      }
    }

    /** Hand out `need` frames of the i-th free run, which the walk stopped at. */
    method Grant(link: Link, run: Word, need: nat, ghost i: nat)
      requires Valid() && i < |heap.free| && need <= heap.runs[heap.free[i]]
      requires link == LinkTo(heap.free, i) && run == AddrOf(heap.free[i])
      modifies this, mem
      ensures View() == TakeNth(old(View()), old(heap), i, need)
      ensures heap == if need == 0 then old(heap) else Take(old(heap), i, need)
      ensures need != 0 ==> Valid()
    {
      ghost var img, h := View(), heap;
      assert NodeStored(img.mem, h, i);
      Relink(link, run, need);
      Stamp(run, need);
      if need != 0 {
        TakeRefines(img, h, i, need);
        heap := Take(h, i, need);
      }
    }

    /** First fit over the list in memory. The heap stays valid unless the request rounds to
        zero frames, and a failed request changes nothing. */
    method Kmalloc(size: Word) returns (ptr: Word)
      requires Valid()
      modifies this, mem
      ensures var h, need := old(heap), FramesFor(size);
              var i := FirstFit(h.runs, h.free, need);
              if i < |h.free| then
                ptr == 4096 * h.free[i] + 16 && heap == (if need == 0 then h else Take(h, i, need))
              else
                ptr == 0 && heap == h
      ensures View() == KmallocImage(old(View()), old(heap), size)
      ensures FramesFor(size) != 0 ==> Valid()
    {
      var need := FramesFor(size);
      var link := Walk(need);
      var run := Deref(link);
      if run == 0 {
        return 0;
      }
      Grant(link, run, need, FirstFit(heap.runs, heap.free, need));
      return run + HEADER_SIZE;
    }

    /** A 64-bit store at any address, byte by byte. */
    method StoreWord(a: nat, v: Word)
      requires RawMemory.InMemory(mem[..], a)
      modifies mem
      ensures mem[..] == WriteWord(old(mem[..]), a, v)
    {
      for j := 0 to 8
        invariant mem[..] == WriteBytes(old(mem[..]), a, v, j)
      {
        ghost var was := mem[..];
        var k := (a + j) / 8;
        WordBound();
        WithByteBound(mem[k], (a + j) % 8, ByteOf(v, j), 8);
        mem[k] := WithByte(mem[k], (a + j) % 8, ByteOf(v, j));
        assert mem[..] == PutByte(was, a + j, ByteOf(v, j));
      }
    }

    /** kfree, for every 64-bit pointer; the flag says that it touched memory that is not there. */
    method Kfree(ptr: Word) returns (faulted: bool)
      modifies this`freeList, this`freeFrames, this`usedFrames, mem
      ensures KfreeOutcome(old(View()), ptr) == if faulted then Fault else Done(View())
      ensures faulted ==> View() == old(View())
    {
      if ptr == 0 {
        return false;
      }
      var hdr := Wrap(ptr - HEADER_SIZE);
      if hdr + 8 > 8 * mem.Length {
        return true;
      }
      if ReadWord(mem[..], hdr) != MAGIC {
        return false;
      }
      if hdr + 16 > 8 * mem.Length {
        return true;
      }
      if ReadWord(mem[..], hdr + 8) == 0 {
        return false;
      }
      StoreWord(hdr, 0);
      StoreWord(hdr, freeList);
      freeList := hdr;
      var frames := ReadWord(mem[..], hdr + 8);
      freeFrames := Wrap(freeFrames + frames);
      usedFrames := Wrap(usedFrames - frames);
      return false;
    }

    /** kfree on NULL or on the pointer of any run of the heap keeps the heap: it releases
        exactly the block that is live there, or nothing at all. */
    method KfreeRun(ptr: Word)
      requires Valid() && NullOrRun(heap, ptr)
      modifies this, mem
      ensures Valid() && View() == FreeImage(old(View()), ptr) && heap == ReleasePtr(old(heap), ptr)
    {
      ghost var img, h := View(), ReleasePtr(heap, ptr);
      FreePtrRefines(img, heap, ptr);
      AlignedKfree(img, ptr);
      var _ := Kfree(ptr);
      heap := h;
    }

    /** A client stores a word somewhere in the payload of a live block. */
    method ClientWrite(w: nat, v: Word, ghost s: nat)
      requires Valid() && s in Live(heap) && InPayload(heap, s, w)
      modifies mem
      ensures Valid() && View() == old(View()).(mem := old(mem[..])[w := v])
    {
      WriteKeeps(mem[..], heap, s, w, v);
      mem[w] := v;
      assert mem[..] == old(mem[..])[w := v];
    }

    /** Somebody else stores a word outside the heap's frames. */
    method ForeignWrite(w: nat, v: Word)
      requires Valid() && w < mem.Length && !(512 * heap.base <= w < 512 * (heap.base + heap.n))
      modifies mem
      ensures Valid() && View() == old(View()).(mem := old(mem[..])[w := v])
    {
      OutsideWriteKeeps(mem[..], heap, w, v);
      mem[w] := v;
      assert mem[..] == old(mem[..])[w := v];
    }
  }
}
