/**
 Whole runs of the kernel's memory: heap calls, frame-allocator calls and stores by the holders
 of frames into their own frames, interleaved in any order over one memory.
 */
module KernelRuns {
  import opened Machine
  import opened FrameSets
  import opened HeapImage
  import opened Kmalloc
  import opened KernelMemory
  import E = E820
  import Paging
  import Pmm
  import PmmRuns
  import HeapRuns
  import RunHeap

  datatype Kernel = Kernel(img: Image, x: HeapRuns.Session, pool: PmmRuns.Pool)

  datatype Op = Heap(h: HeapRuns.Op) | Frames(f: PmmRuns.Op) | Store(w: nat, v: Word)

  ghost function HeapFrames(k: Kernel): set<nat> {
    Interval(k.x.heap.base, k.x.heap.n)
  }

  /** The heap is in memory, the frames are conserved, the heap's own among those held, and the
      page tables stand. */
  ghost predicate KernelOk(k: Kernel, all: set<nat>) {
    && HeapRuns.SessionOk(k.x) && Represents(k.img, k.x.heap)
    && PmmRuns.PoolOk(k.pool, all) && HeapFrames(k) <= k.pool.held
    && (forall f :: f in all ==> 0x100 <= f < MAX_FRAMES)
    && |k.img.mem| == 0x800_0000 && Paging.TablesBuilt(Halves(k.img.mem))
  }

  /** Clients free what they hold, blocks or frames, but no frame of the heap, and store into
      payloads of live blocks or into frames they hold. */
  ghost predicate Legal(k: Kernel, op: Op) {
    match op
    case Heap(h) => HeapRuns.Legal(k.x, h)
    case Frames(f) => PmmRuns.Legal(k.pool, f) && (f.Free? ==> Pmm.Returned(f.addr) !! HeapFrames(k))
    case Store(w, _) => w / 512 in k.pool.held - HeapFrames(k)
  }

  ghost function Step(k: Kernel, op: Op): Kernel
    requires HeapRuns.SessionOk(k.x) && Represents(k.img, k.x.heap) && Legal(k, op)
  {
    match op
    case Heap(h) => k.(img := HeapRuns.StepImage(k.img, k.x, h), x := HeapRuns.Step(k.x, h))
    case Frames(f) => k.(pool := PmmRuns.Step(k.pool, f))
    case Store(w, v) => if w < |k.img.mem| then k.(img := k.img.(mem := k.img.mem[w := v])) else k
  }

  // ---------------------------------------------------------------- one step

  lemma {:induction false} OutsideHeap(k: Kernel, w: nat)
    ensures w / 512 in HeapFrames(k) <==> 512 * k.x.heap.base <= w < 512 * (k.x.heap.base + k.x.heap.n)
  {
    IntervalSize(k.x.heap.base, k.x.heap.n);
  }

  /** The first megabyte is nobody's. */
  lemma {:induction false} LowWordsOutsideHeap(k: Kernel, all: set<nat>, w: nat)
    requires KernelOk(k, all) && w < 0x2_0000
    ensures !(512 * k.x.heap.base <= w < 512 * (k.x.heap.base + k.x.heap.n))
    ensures w / 512 !in k.pool.held
  {
    assert w / 512 < 0x100;
    assert w / 512 !in all;
    OutsideHeap(k, w);
  }

  lemma {:induction false} HeapStepKeepsTables(k: Kernel, all: set<nat>, op: HeapRuns.Op)
    requires KernelOk(k, all) && HeapRuns.Legal(k.x, op)
    ensures |HeapRuns.StepImage(k.img, k.x, op).mem| == 0x800_0000
    ensures Paging.TablesBuilt(Halves(HeapRuns.StepImage(k.img, k.x, op).mem))
  {
    var mem, mem' := k.img.mem, HeapRuns.StepImage(k.img, k.x, op).mem;
    assert |mem'| == |mem| by {
      LowWordsOutsideHeap(k, all, 0);
      HeapRuns.StepConfined(k.img, k.x, op, 0);
    }
    forall w | 0xE000 <= w < 0xE800
      ensures mem'[w] == mem[w]
    {
      LowWordsOutsideHeap(k, all, w);
      HeapRuns.StepConfined(k.img, k.x, op, w);
    }
    SameWordsSameTables(mem, mem');
  }

  lemma {:induction false} HeapStepOk(k: Kernel, all: set<nat>, op: HeapRuns.Op)
    requires KernelOk(k, all) && HeapRuns.Legal(k.x, op)
    ensures KernelOk(Step(k, Heap(op)), all)
  {
    HeapStepKeepsTables(k, all, op);
    HeapRuns.StepKeeps(k.x, op);
    HeapRuns.StepRefines(k.img, k.x, op);
  }

  lemma {:induction false} FramesStepOk(k: Kernel, all: set<nat>, op: PmmRuns.Op)
    requires KernelOk(k, all) && Legal(k, Frames(op))
    ensures KernelOk(Step(k, Frames(op)), all)
  {
    PmmRuns.StepConserves(k.pool, op, all);
  }

  lemma {:induction false} StoreStepOk(k: Kernel, all: set<nat>, w: nat, v: Word)
    requires KernelOk(k, all) && Legal(k, Store(w, v))
    ensures w < |k.img.mem| && KernelOk(Step(k, Store(w, v)), all)
  {
    var f := w / 512;
    assert f in all && f < MAX_FRAMES;
    OutsideHeap(k, w);
    OutsideWriteKeeps(k.img.mem, k.x.heap, w, v);
    assert 0x2_0000 <= w;
    SameWordsSameTables(k.img.mem, k.img.mem[w := v]);
  }

  /** Every legal step keeps everything at once. */
  lemma {:induction false} StepOk(k: Kernel, all: set<nat>, op: Op)
    requires KernelOk(k, all) && Legal(k, op)
    ensures KernelOk(Step(k, op), all) && HeapFrames(Step(k, op)) == HeapFrames(k)
  {
    match op {
      case Heap(h) =>
        HeapStepOk(k, all, h);
        HeapRuns.StepKeeps(k.x, h);
      case Frames(f) => FramesStepOk(k, all, f);
      case Store(w, v) => StoreStepOk(k, all, w, v);
    }
  }

  // ---------------------------------------------------------------- every run

  /** Every step is legal where it is taken. (By StepOk the other conjunct costs nothing: it holds
      along the run once it holds at the start; it is there so that the steps are defined.) */
  ghost predicate LegalRun(k: Kernel, all: set<nat>, ops: seq<Op>)
    decreases |ops|
  {
    ops == [] || (KernelOk(k, all) && Legal(k, ops[0]) && LegalRun(Step(k, ops[0]), all, ops[1..]))
  }

  ghost function Exec(k: Kernel, all: set<nat>, ops: seq<Op>): Kernel
    requires LegalRun(k, all, ops)
    decreases |ops|
  {
    if ops == [] then k else Exec(Step(k, ops[0]), all, ops[1..])
  }

  /** Over every run: the heap stays in memory, free and held frames stay a partition of the
      frames pmm_init left, the heap's frames stay held and so are never handed out, and every
      address of the window still maps to itself. */
  lemma {:induction false} KernelTheorem(k: Kernel, all: set<nat>, ops: seq<Op>)
    requires KernelOk(k, all) && LegalRun(k, all, ops)
    ensures var k' := Exec(k, all, ops);
            && KernelOk(k', all) && HeapFrames(k') == HeapFrames(k)
            && HeapFrames(k') !! k'.pool.free
            && forall va: nat :: va < MAX_BYTES ==>
                 Paging.Walk(Halves(k'.img.mem), Paging.PML4, va) == Paging.Mapped(va, true)
    decreases |ops|
  {
    if ops == [] {
      forall va: nat | va < MAX_BYTES
        ensures Paging.Walk(Halves(k.img.mem), Paging.PML4, va) == Paging.Mapped(va, true)
      {
        Paging.IdentityBelow1GB(Halves(k.img.mem), va);
      }
    } else {
      StepOk(k, all, ops[0]);
      KernelTheorem(Step(k, ops[0]), all, ops[1..]);
    }
  }

  /** The operation is a store by its own holder to word w. */
  predicate Writes(op: Op, w: nat) {
    match op
    case Heap(h) => h.Poke? && h.w == w
    case Frames(_) => false
    case Store(v, _) => v == w
  }

  lemma {:induction false} StepKeepsWord(k: Kernel, all: set<nat>, op: Op, w: nat)
    requires KernelOk(k, all) && Legal(k, op) && w < |k.img.mem|
    requires w / 512 !in HeapFrames(k) && !Writes(op, w)
    ensures w < |Step(k, op).img.mem| && Step(k, op).img.mem[w] == k.img.mem[w]
  {
    OutsideHeap(k, w);
    if op.Heap? {
      HeapRuns.StepConfined(k.img, k.x, op.h, w);
    }
  }

  /** Over every run a word outside the heap, in somebody's frame or in nobody's, changes only
      by a store to that very word. */
  lemma {:induction false} FrameTheorem(k: Kernel, all: set<nat>, ops: seq<Op>, w: nat)
    requires KernelOk(k, all) && LegalRun(k, all, ops) && w < |k.img.mem|
    requires w / 512 !in HeapFrames(k)
    requires forall i :: 0 <= i < |ops| ==> !Writes(ops[i], w)
    ensures w < |Exec(k, all, ops).img.mem| && Exec(k, all, ops).img.mem[w] == k.img.mem[w]
    decreases |ops|
  {
    if ops == [] {
    } else {
      StepOk(k, all, ops[0]);
      StepKeepsWord(k, all, ops[0], w);
      FrameTheorem(Step(k, ops[0]), all, ops[1..], w);
    }
  }

  /** The block at `s` is live before the run and after each of its steps. */
  ghost predicate HeldThroughout(k: Kernel, all: set<nat>, ops: seq<Op>, s: nat)
    requires LegalRun(k, all, ops)
    decreases |ops|
  {
    && s in RunHeap.Live(k.x.heap)
    && (ops == [] || HeldThroughout(Step(k, ops[0]), all, ops[1..], s))
  }

  lemma {:induction false} StepKeepsBlock(k: Kernel, all: set<nat>, op: Op, s: nat, w: nat)
    requires KernelOk(k, all) && Legal(k, op)
    requires s in RunHeap.Live(k.x.heap) && InPayload(k.x.heap, s, w) && !Writes(op, w)
    ensures w < |k.img.mem| == |Step(k, op).img.mem| && Step(k, op).img.mem[w] == k.img.mem[w]
    ensures s in Step(k, op).x.heap.runs && InPayload(Step(k, op).x.heap, s, w)
  {
    match op {
      case Heap(h) => HeapRuns.StepKeepsPayload(k.img, k.x, h, s, w);
      case Frames(_) =>
      case Store(v, _) => OutsideHeap(k, v);
    }
  }

  /** Over every run, while a heap block is held no word of its payload changes but by its
      holder's stores, whatever frames are allocated, freed and written beside it. */
  lemma {:induction false} BlockTheorem(k: Kernel, all: set<nat>, ops: seq<Op>, s: nat, w: nat)
    requires KernelOk(k, all) && LegalRun(k, all, ops)
    requires HeldThroughout(k, all, ops, s) && InPayload(k.x.heap, s, w)
    requires forall i :: 0 <= i < |ops| ==> !Writes(ops[i], w)
    ensures w < |k.img.mem| == |Exec(k, all, ops).img.mem| && Exec(k, all, ops).img.mem[w] == k.img.mem[w]
    decreases |ops|
  {
    if ops == [] {
    } else {
      StepOk(k, all, ops[0]);
      StepKeepsBlock(k, all, ops[0], s, w);
      BlockTheorem(Step(k, ops[0]), all, ops[1..], s, w);
    }
  }

  // ---------------------------------------------------------------- from the entry code on

  /** Dwords as the words the heap sees. */
  function Pack(m: seq<Paging.Dword>): seq<Word> {
    seq(|m| / 2, i requires 0 <= i < |m| / 2 => PackAt(m, i))
  }

  function PackAt(m: seq<Paging.Dword>, i: nat): Word
    requires 2 * i + 1 < |m|
  {
    var low: int, high: int := m[2 * i], m[2 * i + 1];
    low + 0x1_0000_0000 * high
  }

  lemma SplitPacked(low: int, high: int)
    requires 0 <= low < 0x1_0000_0000 && 0 <= high < 0x1_0000_0000
    ensures (low + 0x1_0000_0000 * high) % 0x1_0000_0000 == low
    ensures (low + 0x1_0000_0000 * high) / 0x1_0000_0000 == high
  {
  }

  /** The two views of memory are the same memory. */
  lemma {:induction false} HalvesOfPack(m: seq<Paging.Dword>)
    requires |m| % 2 == 0
    ensures Halves(Pack(m)) == m
  {
    forall k | 0 <= k < |m|
      ensures Halves(Pack(m))[k] == m[k]
    {
      var i := k / 2;
      assert Pack(m)[i] == PackAt(m, i);
      SplitPacked(m[2 * i], m[2 * i + 1]);
    }
  }

  /** The kernel after the entry code, pmm_init and kmalloc_init. */
  ghost function AfterBoot(mem: seq<Word>, all: set<nat>, base: nat, n: nat): Kernel
    requires |mem| == 0x800_0000 && base + n <= 0x4_0000
  {
    Kernel(InitImage(mem, base, n), HeapRuns.Session(RunHeap.Start(base, n), {}),
           PmmRuns.Pool(FreeAfterPull(all, n), all - FreeAfterPull(all, n)))
  }

  lemma {:induction false} BootOk(mem: seq<Word>, es: seq<E.Entry>, start: Word, end: Word, base: nat, n: nat)
    requires |mem| == 0x800_0000 && Paging.TablesBuilt(Halves(mem))
    requires FirstRun(E.FreeFrames(es, start, end), base, n) && 1 <= base && base + n <= 0x4_0000
    ensures KernelOk(AfterBoot(mem, E.FreeFrames(es, start, end), base, n), E.FreeFrames(es, start, end))
  {
    var all := E.FreeFrames(es, start, end);
    forall f | f in all
      ensures 0x100 <= f < MAX_FRAMES
    {
      assert !E.CarvedOut(start, end, f);
    }
    RunHeap.StartInv(base, n);
    InitRefines(mem, base, n);
    InitKeepsTables(mem, base, n);
  }

  /** From the dwords the entry code leaves, for every firmware table, after every run. */
  lemma {:induction false} FromEntryToAnyRun(m: seq<Paging.Dword>, es: seq<E.Entry>, start: Word, end: Word,
                                             base: nat, n: nat, ops: seq<Op>, va: nat)
    requires |m| == 0x1000_0000 && Paging.TablesBuilt(m) && va < MAX_BYTES
    requires FirstRun(E.FreeFrames(es, start, end), base, n) && 1 <= base && base + n <= 0x4_0000
    requires LegalRun(AfterBoot(Pack(m), E.FreeFrames(es, start, end), base, n), E.FreeFrames(es, start, end), ops)
    ensures var all := E.FreeFrames(es, start, end);
            var k := Exec(AfterBoot(Pack(m), all, base, n), all, ops);
            && KernelOk(k, all)
            && Paging.Walk(Halves(k.img.mem), Paging.PML4, va) == Paging.Mapped(va, true)
  {
    HalvesOfPack(m);
    BootOk(Pack(m), es, start, end, base, n);
    KernelTheorem(AfterBoot(Pack(m), E.FreeFrames(es, start, end), base, n), E.FreeFrames(es, start, end), ops);
  }

  // ---------------------------------------------------------------- the kernel's own calls

  /** What an operation returns: a pointer, a frame's address, or 0. */
  ghost function Answer(k: Kernel, op: Op): int
    requires HeapRuns.SessionOk(k.x)
  {
    match op
    case Heap(h) => HeapRuns.Answer(k.x, h)
    case Frames(f) => if f.Alloc? then PmmRuns.Answer(k.pool.free) else 0
    case Store(_, _) => 0
  }

  ghost function Answers(k: Kernel, all: set<nat>, ops: seq<Op>): seq<int>
    requires LegalRun(k, all, ops)
    decreases |ops|
  {
    if ops == [] then [] else [Answer(k, ops[0])] + Answers(Step(k, ops[0]), all, ops[1..])
  }

  /** A frame handed out in a run is above 1MB, held afterwards by its new holder alone, and none
      of the heap's; an answer of 0 means that no frame was free. */
  lemma {:induction false} FrameAnswer(k: Kernel, all: set<nat>)
    requires KernelOk(k, all)
    ensures var k', a := Step(k, Frames(PmmRuns.Alloc)), Answer(k, Frames(PmmRuns.Alloc));
            if k.pool.free == {} then a == 0 && k' == k
            else
              && 0x10_0000 <= a < MAX_BYTES && a % 4096 == 0
              && a / 4096 !in k.pool.held + HeapFrames(k)
              && k'.pool.held == k.pool.held + {a / 4096} && k'.pool.free == k.pool.free - {a / 4096}
  {
    if k.pool.free != {} {
      assert Lowest(k.pool.free) in all;
    }
  }

  /** The objects are in the state `s`. */
  ghost predicate InState(p: Pmm.Allocator, k: Kheap, s: Kernel)
    reads p, p.bitmap, k, k.mem
  {
    p.Valid() && k.Valid() && k.View() == s.img && k.heap == s.x.heap && p.pool == s.pool.free
  }

  method DoStep(p: Pmm.Allocator, k: Kheap, op: Op, ghost s: Kernel, ghost all: set<nat>) returns (answer: Word)
    requires InState(p, k, s) && KernelOk(s, all) && Legal(s, op)
    modifies p`free, p`pool, p.bitmap, k, k.mem
    ensures InState(p, k, Step(s, op))
    ensures answer == Answer(s, op)
  {
    answer := 0;
    match op {
      case Heap(h) =>
        answer := HeapRuns.DoStep(k, h, s.x);
      case Frames(f) =>
        answer := PmmRuns.DoStep(p, f, s.pool);
      case Store(w, v) =>
        StoreStepOk(s, all, w, v);
        OutsideHeap(s, w);
        k.ForeignWrite(w, v);
    }
  }

  /** The allocators' own methods produce exactly these runs, and return exactly these answers. */
  method Drive(p: Pmm.Allocator, k: Kheap, ops: seq<Op>, ghost s: Kernel, ghost all: set<nat>)
    returns (answers: seq<Word>)
    requires InState(p, k, s) && KernelOk(s, all) && LegalRun(s, all, ops)
    modifies p`free, p`pool, p.bitmap, k, k.mem
    ensures InState(p, k, Exec(s, all, ops)) && answers == Answers(s, all, ops)
    decreases |ops|
  {
    if ops == [] {
      answers := [];
    } else {
      StepOk(s, all, ops[0]);
      var answer := DoStep(p, k, ops[0], s, all);
      var rest := Drive(p, k, ops[1..], Step(s, ops[0]), all);
      answers := [answer] + rest;
    }
  }

  /** Whatever the firmware table: boot, and then any run that is legal for the kernel `s` it
      yields, end in the state and with the answers of the specification, and leave every
      address of the window mapped to itself. */
  method BootAndRun(p: Pmm.Allocator, k: Kheap, count: nat, entries: Option<seq<E.Entry>>, start: Word, end: Word,
                    ops: seq<Op>) returns (answers: seq<Word>, ghost s: Kernel)
    requires p.bitmap.Length == 0x8000 && k.mem.Length == 0x800_0000
    requires entries.Some? ==> count <= |entries.value| || 64 <= |entries.value|
    requires Paging.TablesBuilt(Halves(k.mem[..]))
    requires var all := E.FreeFrames(Pmm.Table(count, entries), start, end);
             forall base: nat, n: nat :: FirstRun(all, base, n) && base + n <= 0x4_0000 ==>
               LegalRun(AfterBoot(k.mem[..], all, base, n), all, ops)
    modifies p, p.bitmap, k, k.mem
    ensures s.x.heap.base + s.x.heap.n <= 0x4_0000
    ensures var all := E.FreeFrames(Pmm.Table(count, entries), start, end);
            && FirstRun(all, s.x.heap.base, s.x.heap.n)
            && s == AfterBoot(old(k.mem[..]), all, s.x.heap.base, s.x.heap.n) && LegalRun(s, all, ops)
            && InState(p, k, Exec(s, all, ops)) && answers == Answers(s, all, ops)
    ensures forall va: nat :: va < MAX_BYTES ==> Paging.Walk(Halves(k.mem[..]), Paging.PML4, va) == Paging.Mapped(va, true)
  {
    ghost var mem, es := k.mem[..], Pmm.Table(count, entries);
    ghost var all := E.FreeFrames(es, start, end);
    Boot(p, k, count, entries, start, end);
    s := AfterBoot(mem, all, k.heap.base, k.heap.n);
    assert KernelOk(s, all) by {
      BootOk(mem, es, start, end, k.heap.base, k.heap.n);
    }
    answers := Drive(p, k, ops, s, all);
    MappedAfter(s, all, ops);
  }

  lemma {:induction false} MappedAfter(k: Kernel, all: set<nat>, ops: seq<Op>)
    requires KernelOk(k, all) && LegalRun(k, all, ops)
    ensures forall va: nat :: va < MAX_BYTES ==>
              Paging.Walk(Halves(Exec(k, all, ops).img.mem), Paging.PML4, va) == Paging.Mapped(va, true)
  {
    KernelTheorem(k, all, ops);
  }
}
