/**
 The memory subsystem put together: the frame allocator feeds the heap, the heap stays in its
 frames, and the page tables under both keep mapping them.
 */
module KernelMemory {
  import opened Machine
  import opened FrameSets
  import opened HeapImage
  import opened Kmalloc
  import E = E820
  import Paging
  import Pmm
  import PmmRuns
  import HeapRuns
  import RunHeap
  import RawMemory

  /** Whatever disciplined clients of the frame allocator do after kmalloc_init, as long as
      nobody gives back a frame of the heap, no call ever returns one. */
  lemma {:induction false} HeapFramesStayOut(all: set<nat>, n: nat, ops: seq<PmmRuns.Op>)
    requires IsStretch(all, n)
    requires var p := PmmRuns.Pool(FreeAfterPull(all, n), all - FreeAfterPull(all, n));
             PmmRuns.LegalRun(p, ops) && PmmRuns.Spares(ops, Interval(Lowest(all), n))
    ensures var p := PmmRuns.Pool(FreeAfterPull(all, n), all - FreeAfterPull(all, n));
            forall i :: 0 <= i <= |ops| ==> Interval(Lowest(all), n) !! PmmRuns.Exec(p, ops[..i]).free
  {
    var p := PmmRuns.Pool(FreeAfterPull(all, n), all - FreeAfterPull(all, n));
    assert PmmRuns.PoolOk(p, all);
    PmmRuns.NeverHandedOut(p, ops, all, Interval(Lowest(all), n));
  }

  /** Memory in 32-bit halves, low half first. */
  function Halves(mem: seq<Word>): (m: seq<Paging.Dword>)
    ensures |m| == 2 * |mem|
  {
    seq(2 * |mem|, i requires 0 <= i < 2 * |mem| =>
      if i % 2 == 0 then mem[i / 2] % 0x1_0000_0000 else mem[i / 2] / 0x1_0000_0000)
  }

  /** The halves are the same bytes: byte j of half k is the byte at address 4k + j. */
  lemma {:induction false} HalvesBytes(mem: seq<Word>, k: nat, j: nat)
    requires k < 2 * |mem| && j < 4
    ensures RawMemory.ByteOf(Halves(mem)[k], j) == RawMemory.ByteAt(mem, 4 * k + j)
  {
    var b := 4 * k + j;
    if k % 2 == 0 {
      assert b / 8 == k / 2 && b % 8 == j;
      LowHalf(mem[k / 2], j);
    } else {
      assert b / 8 == k / 2 && b % 8 == 4 + j;
      HighHalf(mem[k / 2], j);
    }
  }

  lemma {:induction false} LowHalf(x: nat, j: nat)
    requires j < 4
    ensures RawMemory.ByteOf(x % 0x1_0000_0000, j) == RawMemory.ByteOf(x, j)
  {
    var q, y := x / 0x1_0000_0000, x % 0x1_0000_0000;
    var x1, y1 := x / 0x100, y / 0x100;
    assert x % 0x100 == y % 0x100 && x1 == y1 + q * 0x100_0000;
    var x2, y2 := x1 / 0x100, y1 / 0x100;
    assert x1 % 0x100 == y1 % 0x100 && x2 == y2 + q * 0x1_0000;
    var x3, y3 := x2 / 0x100, y2 / 0x100;
    assert x2 % 0x100 == y2 % 0x100 && x3 == y3 + q * 0x100;
    FourBytes(x, x1, x2, x3, j);
    FourBytes(y, y1, y2, y3, j);
  }

  lemma {:induction false} FourBytes(x: nat, x1: nat, x2: nat, x3: nat, j: nat)
    requires x1 == x / 0x100 && x2 == x1 / 0x100 && x3 == x2 / 0x100 && j < 4
    ensures RawMemory.ByteOf(x, j) == (if j == 0 then x else if j == 1 then x1 else if j == 2 then x2 else x3) % 0x100
  {
    if j > 1 {
      assert RawMemory.ByteOf(x, j) == RawMemory.ByteOf(x1, j - 1) == RawMemory.ByteOf(x2, j - 2);
    }
    if j == 3 {
      assert RawMemory.ByteOf(x2, 1) == RawMemory.ByteOf(x3, 0);
    }
  }

  lemma {:induction false} HighHalf(x: nat, j: nat)
    requires j < 4
    ensures RawMemory.ByteOf(x / 0x1_0000_0000, j) == RawMemory.ByteOf(x, 4 + j)
  {
    assert x / 0x100 / 0x100 / 0x100 / 0x100 == x / 0x1_0000_0000;
    assert RawMemory.ByteOf(x, 4 + j) == RawMemory.ByteOf(x / 0x100, 3 + j);
    assert RawMemory.ByteOf(x / 0x100, 3 + j) == RawMemory.ByteOf(x / 0x100 / 0x100, 2 + j);
    assert RawMemory.ByteOf(x / 0x100 / 0x100, 2 + j) == RawMemory.ByteOf(x / 0x100 / 0x100 / 0x100, 1 + j);
  }

  /** The tables lie in the words from 0xE000 to 0xE7FF. */
  lemma {:induction false} SameWordsSameTables(mem: seq<Word>, mem': seq<Word>)
    requires Paging.TablesBuilt(Halves(mem)) && |mem'| == |mem|
    requires forall w :: 0xE000 <= w < 0xE800 ==> mem'[w] == mem[w]
    ensures Paging.TablesBuilt(Halves(mem'))
  {
    forall k | 0x1_C000 <= k < 0x1_D000
      ensures Halves(mem')[k] == Halves(mem)[k]
    {
      assert mem'[k / 2] == mem[k / 2];
    }
    Paging.TablesSurvive(Halves(mem), Halves(mem'));
  }

  lemma {:induction false} InitKeepsTables(mem: seq<Word>, base: nat, n: nat)
    requires |mem| == 0x800_0000 && 1 <= base && base + n <= 0x4_0000 && (n != 0 ==> 0x100 <= base)
    requires Paging.TablesBuilt(Halves(mem))
    ensures Paging.TablesBuilt(Halves(InitImage(mem, base, n).mem))
  {
    SameWordsSameTables(mem, InitImage(mem, base, n).mem);
  }

  /** A heap above 1MB never damages the page tables: after any run, every frame the frame
      allocator can hand out, every heap pointer among them, still maps to itself. */
  lemma {:induction false} HeapKeepsIdentityMap(img: Image, x: HeapRuns.Session, ops: seq<HeapRuns.Op>, va: nat)
    requires Represents(img, x.heap) && HeapRuns.SessionOk(x) && HeapRuns.LegalRun(x, ops)
    requires x.heap.n != 0 ==> 0x100 <= x.heap.base
    requires Paging.TablesBuilt(Halves(img.mem)) && va < MAX_BYTES
    ensures Paging.TablesBuilt(Halves(HeapRuns.ExecImage(img, x, ops).mem))
    ensures Paging.Walk(Halves(HeapRuns.ExecImage(img, x, ops).mem), Paging.PML4, va) == Paging.Mapped(va, true)
  {
    var mem, mem' := img.mem, HeapRuns.ExecImage(img, x, ops).mem;
    assert |Halves(mem)| == 2 * |mem|;
    HeapRuns.ConfinementTheorem(img, x, ops, 0);
    forall w | 0xE000 <= w < 0xE800
      ensures mem'[w] == mem[w]
    {
      HeapRuns.ConfinementTheorem(img, x, ops, w);
    }
    SameWordsSameTables(mem, mem');
    Paging.IdentityBelow1GB(Halves(mem'), va);
  }

  /** From the tables the entry code built, through kmalloc_init, through any run of the heap:
      the image kmalloc_init leaves is a heap, and after the run every address of the window
      still maps to itself. */
  lemma {:induction false} IdentityMapForever(mem: seq<Word>, base: nat, n: nat, ops: seq<HeapRuns.Op>, va: nat)
    requires |mem| == 0x800_0000 && 1 <= base && base + n <= 0x4_0000 && (n != 0 ==> 0x100 <= base)
    requires Paging.TablesBuilt(Halves(mem)) && va < MAX_BYTES
    requires HeapRuns.LegalRun(HeapRuns.Session(RunHeap.Start(base, n), {}), ops)
    ensures var x := HeapRuns.Session(RunHeap.Start(base, n), {});
            && Represents(InitImage(mem, base, n), x.heap) && HeapRuns.SessionOk(x)
            && Paging.Walk(Halves(HeapRuns.ExecImage(InitImage(mem, base, n), x, ops).mem), Paging.PML4, va)
               == Paging.Mapped(va, true)
  {
    InitRefines(mem, base, n);
    InitKeepsTables(mem, base, n);
    HeapKeepsIdentityMap(InitImage(mem, base, n), HeapRuns.Session(RunHeap.Start(base, n), {}), ops, va);
  }

  /** Boot order of kmain: pmm_init, then kmalloc_init. The heap is the first stretch of free
      frames, at most 64, all above 1MB and inside the window; the frame allocator no longer
      has any of them, only the heap's first node is written to memory, and page tables that
      were there are still there. */
  method Boot(p: Pmm.Allocator, k: Kheap, count: nat, entries: Option<seq<E.Entry>>, start: Word, end: Word)
    requires p.bitmap.Length == 0x8000 && k.mem.Length == 0x800_0000
    requires entries.Some? ==> count <= |entries.value| || 64 <= |entries.value|
    modifies p, p.bitmap, k, k.mem
    ensures var all := E.FreeFrames(Pmm.Table(count, entries), start, end);
            && k.Valid() && p.Valid()
            && p.usable == |E.UsableFrames(Pmm.Table(count, entries))|
            && FirstRun(all, k.heap.base, k.heap.n) && k.heap == RunHeap.Start(k.heap.base, k.heap.n)
            && p.pool == FreeAfterPull(all, k.heap.n)
    ensures 1 <= k.heap.base && k.heap.base + k.heap.n <= 0x4_0000
    ensures k.heap.n != 0 ==> 0x100 <= k.heap.base
    ensures k.View() == InitImage(old(k.mem[..]), k.heap.base, k.heap.n)
    ensures forall w :: 0 <= w < k.mem.Length
                        && (k.heap.n == 0 || (w != 512 * k.heap.base && w != 512 * k.heap.base + 1)) ==>
              k.mem[w] == old(k.mem[w])
    ensures old(Paging.TablesBuilt(Halves(k.mem[..]))) ==> Paging.TablesBuilt(Halves(k.mem[..]))
  {
    p.Init(count, entries, start, end);
    ghost var es := Pmm.Table(count, entries);
    forall f | f in E.FreeFrames(es, start, end)
      ensures 0x100 <= f
    {
      assert !E.CarvedOut(start, end, f);
    }
    k.Init(p);
    if old(Paging.TablesBuilt(Halves(k.mem[..]))) {
      InitKeepsTables(old(k.mem[..]), k.heap.base, k.heap.n);
    }
  }

  /** Some byte of the eight at `a` faults in the page walk. */
  ghost predicate Unmapped(mem: seq<Word>, a: nat) {
    exists va: nat :: a <= va < a + 8 && Paging.Walk(Halves(mem), Paging.PML4, va).Fault?
  }

  lemma {:induction false} UnmappedIff(mem: seq<Word>, a: nat)
    requires |mem| == 0x800_0000 && Paging.TablesBuilt(Halves(mem)) && a + 8 <= 0x1_0000_0000_0000
    ensures Unmapped(mem, a) <==> !RawMemory.InMemory(mem, a)
  {
    forall va: nat | a <= va < a + 8
      ensures Paging.Walk(Halves(mem), Paging.PML4, va).Fault? <==> MAX_BYTES <= va
    {
      Paging.IdentityBelow1GB(Halves(mem), va);
    }
    var last := a + 7;
    assert Paging.Walk(Halves(mem), Paging.PML4, last).Fault? <==> MAX_BYTES <= last;
  }

  /** The pointers on which kfree faults, out of all 64-bit ones: those whose header is not in
      the window, and those whose header ends outside it and begins with the magic. */
  lemma {:induction false} KfreeFaultsIff(img: Image, ptr: Word)
    requires |img.mem| == 0x800_0000
    ensures KfreeOutcome(img, ptr).Fault? <==>
            || 0 < ptr < 16
            || 0x4000_0008 < ptr
            || (0x4000_0000 < ptr && RawMemory.ReadWord(img.mem, ptr - 16) == MAGIC)
  {
    if 16 <= ptr {
      assert Wrap(ptr - HEADER_SIZE) == ptr - 16;
    } else if 0 < ptr {
      assert Wrap(ptr - HEADER_SIZE) == TWO64 + ptr - 16;
    }
  }

  /** These are page faults: the walk faults on a byte of the header's first word, or of its
      second once the first held the magic. */
  lemma {:induction false} KfreeFaultsOnTheWalk(img: Image, ptr: Word)
    requires |img.mem| == 0x800_0000 && Paging.TablesBuilt(Halves(img.mem))
    requires 16 <= ptr < 0x1_0000_0000_0000
    ensures KfreeOutcome(img, ptr).Fault? <==>
            if RawMemory.InMemory(img.mem, ptr - 16) && RawMemory.ReadWord(img.mem, ptr - 16) == MAGIC
            then Unmapped(img.mem, ptr - 8)
            else Unmapped(img.mem, ptr - 16)
  {
    KfreeFaultsIff(img, ptr);
    UnmappedIff(img.mem, ptr - 16);
    UnmappedIff(img.mem, ptr - 8);
  }

  /** Every byte of every run, free or live, is at an address the tables map to itself. */
  lemma {:induction false} PointersAreMapped(m: seq<Paging.Dword>, mem: seq<Word>, h: RunHeap.Heap, s: nat, b: nat)
    requires Paging.TablesBuilt(m)
    requires RunHeap.Partition(h) && Fits(mem, h) && s in h.runs && b < 4096 * h.runs[s]
    ensures Paging.Walk(m, Paging.PML4, AddrOf(s) + b) == Paging.Mapped(AddrOf(s) + b, true)
  {
    assert s + h.runs[s] <= h.base + h.n;
    Paging.IdentityBelow1GB(m, AddrOf(s) + b);
  }
}
