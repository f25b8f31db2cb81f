/**
 Whole runs of the heap: any number of kmalloc, kfree and client writes, in any order. The
 client may free any pointer kmalloc ever gave it, as often as it likes, and may write
 anything inside the blocks it holds.
 */
module HeapRuns {
  import opened Machine
  import opened RunHeap
  import opened HeapImage
  import opened Kmalloc

  datatype Op = Malloc(size: Word) | Free(ptr: Word) | Poke(w: nat, v: Word)

  /** The heap and the first frame of every block ever returned. */
  datatype Session = Session(heap: Heap, issued: set<nat>)

  ghost predicate Legal(x: Session, op: Op) {
    match op
    case Malloc(size) => FramesFor(size) != 0
    case Free(ptr) => ptr == 0 || (ptr / 4096 in x.issued && ptr == PtrOf(ptr / 4096))
    case Poke(w, _) => exists s :: s in Live(x.heap) && InPayload(x.heap, s, w)
  }

  ghost predicate SessionOk(x: Session) {
    Inv(x.heap) && x.issued <= x.heap.runs.Keys
  }

  function Step(x: Session, op: Op): Session
    requires forall i :: 0 <= i < |x.heap.free| ==> x.heap.free[i] in x.heap.runs
  {
    match op
    case Malloc(size) =>
      var (h, got) := Alloc(x.heap, FramesFor(size));
      Session(h, if got.Some? then x.issued + {got.value} else x.issued)
    case Free(ptr) => x.(heap := ReleasePtr(x.heap, ptr))
    case Poke(_, _) => x
  }

  /** A step that cuts a run in two. */
  ghost predicate Splits(x: Session, op: Op)
    requires SessionOk(x)
  {
    op.Malloc? &&
    var i := FirstFit(x.heap.runs, x.heap.free, FramesFor(op.size));
    i < |x.heap.free| && FramesFor(op.size) < x.heap.runs[x.heap.free[i]]
  }

  lemma {:induction false} AllocKeeps(h: Heap, need: nat)
    requires Inv(h) && 1 <= need
    ensures var i := FirstFit(h.runs, h.free, need);
            var h' := Alloc(h, need).0;
            && Inv(h') && h'.base == h.base && h'.n == h.n
            && h.runs.Keys <= h'.runs.Keys
            && (i < |h.free| ==> h.free[i] in h'.runs)
            && |h'.runs| == |h.runs| + if i < |h.free| && need < h.runs[h.free[i]] then 1 else 0
  {
    var i := FirstFit(h.runs, h.free, need);
    if i < |h.free| {
      TakeInv(h, i, need);
      if need < h.runs[h.free[i]] {
        SplitPartition(h, i, need);
        assert Take(h, i, need).runs.Keys == h.runs.Keys + {h.free[i] + need};
      }
    }
  }

  /** Every step keeps the tiling and every run start, and adds a run only by a split. */
  lemma {:induction false} StepKeeps(x: Session, op: Op)
    requires SessionOk(x) && Legal(x, op)
    ensures SessionOk(Step(x, op))
    ensures Step(x, op).heap.base == x.heap.base && Step(x, op).heap.n == x.heap.n
    ensures x.heap.runs.Keys <= Step(x, op).heap.runs.Keys
    ensures x.issued <= Step(x, op).issued
    ensures |Step(x, op).heap.runs| == |x.heap.runs| + if Splits(x, op) then 1 else 0
  {
    match op {
      case Malloc(size) => AllocKeeps(x.heap, FramesFor(size));
      case Free(ptr) => ReleaseInv(x.heap, ptr / 4096);
      case Poke(_, _) =>
    }
  }

  ghost predicate LegalRun(x: Session, ops: seq<Op>)
    decreases |ops|
  {
    ops == [] || (SessionOk(x) && Legal(x, ops[0]) && LegalRun(Step(x, ops[0]), ops[1..]))
  }

  ghost function Exec(x: Session, ops: seq<Op>): Session
    decreases |ops|
  {
    if ops == [] || !SessionOk(x) then x else Exec(Step(x, ops[0]), ops[1..])
  }

  /** What an operation returns to its caller: kmalloc's pointer, and 0 for the others. */
  function Answer(x: Session, op: Op): int
    requires forall i :: 0 <= i < |x.heap.free| ==> x.heap.free[i] in x.heap.runs
  {
    if !op.Malloc? then 0
    else
      match Alloc(x.heap, FramesFor(op.size)).1
      case None => 0
      case Some(s) => PtrOf(s)
  }

  ghost function Answers(x: Session, ops: seq<Op>): seq<int>
    decreases |ops|
  {
    if ops == [] || !SessionOk(x) then [] else [Answer(x, ops[0])] + Answers(Step(x, ops[0]), ops[1..])
  }

  ghost function CountSplits(x: Session, ops: seq<Op>): nat
    decreases |ops|
  {
    if ops == [] || !SessionOk(x) then 0
    else (if Splits(x, ops[0]) then 1 else 0) + CountSplits(Step(x, ops[0]), ops[1..])
  }

  lemma {:induction false} ExecKeeps(x: Session, ops: seq<Op>)
    requires SessionOk(x) && LegalRun(x, ops)
    ensures SessionOk(Exec(x, ops))
    ensures Exec(x, ops).heap.base == x.heap.base && Exec(x, ops).heap.n == x.heap.n
    ensures x.heap.runs.Keys <= Exec(x, ops).heap.runs.Keys
    ensures x.issued <= Exec(x, ops).issued
    ensures |Exec(x, ops).heap.runs| == |x.heap.runs| + CountSplits(x, ops)
    decreases |ops|
  {
    if ops == [] {
    } else {
      StepKeeps(x, ops[0]);
      ExecKeeps(Step(x, ops[0]), ops[1..]);
    }
  }

  /** From a fresh heap of n frames, whatever the run: the runs still tile those n frames,
      free and live frames add up to n, every pointer ever issued still points at a run, and
      at most n - 1 splits ever happened. */
  lemma {:induction false} RunTheorem(base: nat, n: nat, ops: seq<Op>)
    requires LegalRun(Session(Start(base, n), {}), ops)
    ensures var x := Exec(Session(Start(base, n), {}), ops);
            && x.heap.base == base && x.heap.n == n
            && Inv(x.heap)
            && x.issued <= x.heap.runs.Keys
            && (0 < n ==> CountSplits(Session(Start(base, n), {}), ops) <= n - 1)
            && |x.heap.free| <= n
  {
    var x0 := Session(Start(base, n), {});
    StartInv(base, n);
    ExecKeeps(x0, ops);
    RunCount(Exec(x0, ops).heap);
  }

  /** A block just allocated is live, has the frames asked for, and shares none of them with a
      block that was live before; every such block stays as it was. */
  lemma {:induction false} BlockIsFresh(h: Heap, need: nat)
    requires Inv(h) && 1 <= need && Alloc(h, need).1.Some?
    ensures var (h', got) := Alloc(h, need);
            && Live(h') == Live(h) + {got.value} && got.value !in Live(h)
            && h'.runs[got.value] == need
            && forall t :: t in Live(h) ==>
                 && t in h'.runs && h'.runs[t] == h.runs[t]
                 && (t + h.runs[t] <= got.value || got.value + need <= t)
  {
    var i := FirstFit(h.runs, h.free, need);
    TakeInv(h, i, need);
    forall t | t in Live(h)
      ensures t + h.runs[t] <= h.free[i] || h.free[i] + need <= t
      ensures t in Take(h, i, need).runs && Take(h, i, need).runs[t] == h.runs[t]
    {
      RunsApart(h, t, h.free[i]);
    }
  }

  /** A request of at most 4080 bytes succeeds if and only if a frame is free. */
  lemma {:induction false} SmallRequest(img: Image, h: Heap, size: Word)
    requires Represents(img, h) && size <= 4080
    ensures Alloc(h, FramesFor(size)).1.Some? <==> img.freeFrames > 0
  {
    FramesForSound(size);
    if h.free != [] {
      assert 1 <= h.runs[h.free[0]];
      assert FirstFit(h.runs, h.free, 1) == 0;
    }
  }

  /** A step issues a block exactly when it returns a pointer, and then that block. */
  lemma {:induction false} StepIssues(x: Session, op: Op, s: nat)
    requires SessionOk(x)
    ensures s in Step(x, op).issued <==> s in x.issued || Answer(x, op) == PtrOf(s)
  {
  }

  /** The blocks issued in a run are exactly those whose pointers were returned. */
  lemma {:induction false} IssuedIsReturned(x: Session, ops: seq<Op>, s: nat)
    requires SessionOk(x) && LegalRun(x, ops)
    ensures |Answers(x, ops)| == |ops|
    ensures s in Exec(x, ops).issued <==> s in x.issued || PtrOf(s) in Answers(x, ops)
    decreases |ops|
  {
    if ops == [] {
    } else {
      StepKeeps(x, ops[0]);
      StepIssues(x, ops[0], s);
      IssuedIsReturned(Step(x, ops[0]), ops[1..], s);
    }
  }

  lemma AnswerOne(x: Session, op: Op)
    requires SessionOk(x)
    ensures Answer(x, op) == 0 || (Answer(x, op) > 0 && Answer(x, op) == PtrOf(Answer(x, op) / 4096))
  {
  }

  lemma {:induction false} AnswerShape(x: Session, ops: seq<Op>, i: nat)
    requires SessionOk(x) && LegalRun(x, ops) && i < |Answers(x, ops)|
    ensures Answers(x, ops)[i] == 0 || (Answers(x, ops)[i] > 0 && Answers(x, ops)[i] == PtrOf(Answers(x, ops)[i] / 4096))
    decreases |ops|
  {
    if ops == [] {
    } else if i == 0 {
      AnswerOne(x, ops[0]);
    } else {
      StepKeeps(x, ops[0]);
      AnswerShape(Step(x, ops[0]), ops[1..], i - 1);
    }
  }

  // ---------------------------------------------------------------- the same runs in memory

  ghost function StepImage(img: Image, x: Session, op: Op): Image
    requires Represents(img, x.heap) && SessionOk(x) && Legal(x, op)
  {
    match op
    case Malloc(size) =>
      KmallocImage(img, x.heap, size)
    case Free(ptr) =>
      FreePtrRefines(img, x.heap, ptr);
      FreeImage(img, ptr)
    case Poke(w, v) =>
      img.(mem := img.mem[w := v])
  }

  lemma {:induction false} StepRefines(img: Image, x: Session, op: Op)
    requires Represents(img, x.heap) && SessionOk(x) && Legal(x, op)
    ensures Represents(StepImage(img, x, op), Step(x, op).heap)
  {
    match op {
      case Malloc(size) =>
        var i := FirstFit(x.heap.runs, x.heap.free, FramesFor(size));
        if i < |x.heap.free| {
          TakeRefines(img, x.heap, i, FramesFor(size));
        }
      case Free(ptr) => FreePtrRefines(img, x.heap, ptr);
      case Poke(w, v) =>
        var s :| s in Live(x.heap) && InPayload(x.heap, s, w);
        WriteKeeps(img.mem, x.heap, s, w, v);
    }
  }

  ghost function ExecImage(img: Image, x: Session, ops: seq<Op>): Image
    requires Represents(img, x.heap) && SessionOk(x) && LegalRun(x, ops)
    decreases |ops|
  {
    if ops == [] then img
    else
      StepKeeps(x, ops[0]);
      StepRefines(img, x, ops[0]);
      ExecImage(StepImage(img, x, ops[0]), Step(x, ops[0]), ops[1..])
  }

  /** Over every run, memory goes on holding the abstract heap. */
  lemma {:induction false} RunRefines(img: Image, x: Session, ops: seq<Op>)
    requires Represents(img, x.heap) && SessionOk(x) && LegalRun(x, ops)
    ensures Represents(ExecImage(img, x, ops), Exec(x, ops).heap)
    decreases |ops|
  {
    if ops == [] {
    } else {
      StepKeeps(x, ops[0]);
      StepRefines(img, x, ops[0]);
      RunRefines(StepImage(img, x, ops[0]), Step(x, ops[0]), ops[1..]);
    }
  }

  /** After every run the list found from the head is the abstract free list, NULL within n
      nodes, and the counters are the sums of the free and of the live runs, totalling n. */
  lemma {:induction false} MemoryTheorem(img: Image, x: Session, ops: seq<Op>)
    requires Represents(img, x.heap) && SessionOk(x) && LegalRun(x, ops)
    ensures var img', h' := ExecImage(img, x, ops), Exec(x, ops).heap;
            && Inv(h')
            && ReadList(img'.mem, img'.head, x.heap.n) == Some(h'.free)
            && img'.freeFrames == SumSeq(h'.runs, h'.free)
            && img'.usedFrames == SumSet(h'.runs, Live(h'))
            && img'.freeFrames + img'.usedFrames == x.heap.n
  {
    RunRefines(img, x, ops);
    ExecKeeps(x, ops);
    ListInMemory(ExecImage(img, x, ops), Exec(x, ops).heap);
  }

  /** Every pointer kmalloc returned in a run, freed after the run: kfree does not fault, and it
      releases the block live at that address and no other, or there is none and not one word
      changes. */
  lemma {:induction false} ReturnedPointerFreesItsBlock(img: Image, x: Session, ops: seq<Op>, i: nat)
    requires Represents(img, x.heap) && SessionOk(x) && LegalRun(x, ops)
    requires i < |Answers(x, ops)| && Answers(x, ops)[i] != 0
    ensures var img', h' := ExecImage(img, x, ops), Exec(x, ops).heap;
            var ptr := Answers(x, ops)[i];
            var s := ptr / 4096;
            && 0 < ptr < TWO64 && ptr == PtrOf(s) && s in h'.runs
            && (if s in Live(h') then
                  && KfreeOutcome(img', ptr).Done?
                  && Represents(KfreeOutcome(img', ptr).img, Release(h', s))
                  && Live(Release(h', s)) == Live(h') - {s}
                  && Release(h', s).free == [s] + h'.free && Release(h', s).runs == h'.runs
                else
                  KfreeOutcome(img', ptr) == Done(img'))
  {
    var img', h' := ExecImage(img, x, ops), Exec(x, ops).heap;
    var s := Answers(x, ops)[i] / 4096;
    RunRefines(img, x, ops);
    ExecKeeps(x, ops);
    AnswerShape(x, ops, i);
    IssuedIsReturned(x, ops, s);
    PtrInMemory(img'.mem, h', s);
    AlignedKfree(img', PtrOf(s));
    FreeRefines(img', h', s);
    ReleaseInv(h', s);
  }

  /** The block at `s` is live before the run and after each of its steps. */
  ghost predicate HeldThroughout(x: Session, ops: seq<Op>, s: nat)
    requires SessionOk(x) && LegalRun(x, ops)
    decreases |ops|
  {
    && s in Live(x.heap)
    && (ops == [] ||
        (StepKeeps(x, ops[0]);
         HeldThroughout(Step(x, ops[0]), ops[1..], s)))
  }

  lemma {:induction false} StepKeepsPayload(img: Image, x: Session, op: Op, s: nat, w: nat)
    requires Represents(img, x.heap) && SessionOk(x) && Legal(x, op)
    requires s in Live(x.heap) && InPayload(x.heap, s, w)
    requires op.Poke? ==> op.w != w
    ensures w < |img.mem| == |StepImage(img, x, op).mem|
    ensures StepImage(img, x, op).mem[w] == img.mem[w]
    ensures s in Step(x, op).heap.runs && InPayload(Step(x, op).heap, s, w)
  {
    var h := x.heap;
    match op {
      case Malloc(size) =>
        var i := FirstFit(h.runs, h.free, FramesFor(size));
        if i < |h.free| {
          TakeKeepsPayload(img, h, i, FramesFor(size), s, w);
          if FramesFor(size) < h.runs[h.free[i]] {
            SplitPartition(h, i, FramesFor(size));
          }
        }
      case Free(ptr) =>
        if ptr != 0 {
          FreeKeepsPayload(img, h, ptr / 4096, s, w);
        }
      case Poke(_, _) =>
    }
  }

  /** While a block is held, no word of its payload changes except by its holder's writes,
      whatever else is allocated, freed or written. */
  lemma {:induction false} PayloadTheorem(img: Image, x: Session, ops: seq<Op>, s: nat, w: nat)
    requires Represents(img, x.heap) && SessionOk(x) && LegalRun(x, ops)
    requires HeldThroughout(x, ops, s) && InPayload(x.heap, s, w)
    requires forall j :: 0 <= j < |ops| && ops[j].Poke? ==> ops[j].w != w
    ensures w < |img.mem| == |ExecImage(img, x, ops).mem|
    ensures ExecImage(img, x, ops).mem[w] == img.mem[w]
    decreases |ops|
  {
    if ops == [] {
    } else {
      StepKeeps(x, ops[0]);
      StepRefines(img, x, ops[0]);
      StepKeepsPayload(img, x, ops[0], s, w);
      PayloadTheorem(StepImage(img, x, ops[0]), Step(x, ops[0]), ops[1..], s, w);
    }
  }

  lemma {:induction false} StepConfined(img: Image, x: Session, op: Op, w: nat)
    requires Represents(img, x.heap) && SessionOk(x) && Legal(x, op) && w < |img.mem|
    requires !(512 * x.heap.base <= w < 512 * (x.heap.base + x.heap.n))
    ensures |StepImage(img, x, op).mem| == |img.mem| && StepImage(img, x, op).mem[w] == img.mem[w]
  {
    var h := x.heap;
    if op.Malloc? {
      var i := FirstFit(h.runs, h.free, FramesFor(op.size));
      if i < |h.free| {
        TakeWord(img, h, i, FramesFor(op.size), w);
      }
    }
  }

  /** Over every run no word outside the heap's own frames is written. */
  lemma {:induction false} ConfinementTheorem(img: Image, x: Session, ops: seq<Op>, w: nat)
    requires Represents(img, x.heap) && SessionOk(x) && LegalRun(x, ops) && w < |img.mem|
    requires !(512 * x.heap.base <= w < 512 * (x.heap.base + x.heap.n))
    ensures |ExecImage(img, x, ops).mem| == |img.mem| && ExecImage(img, x, ops).mem[w] == img.mem[w]
    decreases |ops|
  {
    if ops == [] {
    } else {
      StepKeeps(x, ops[0]);
      StepRefines(img, x, ops[0]);
      StepConfined(img, x, ops[0], w);
      ConfinementTheorem(StepImage(img, x, ops[0]), Step(x, ops[0]), ops[1..], w);
    }
  }

  /** The allocator's own methods produce exactly these runs, and return exactly these
      pointers. */
  method Drive(k: Kheap, ops: seq<Op>, ghost issued: set<nat>) returns (ptrs: seq<Word>)
    requires k.Valid() && issued <= k.heap.runs.Keys
    requires LegalRun(Session(k.heap, issued), ops)
    modifies k, k.mem
    ensures k.Valid()
    ensures k.heap == Exec(Session(old(k.heap), issued), ops).heap
    ensures k.View() == ExecImage(old(k.View()), Session(old(k.heap), issued), ops)
    ensures ptrs == Answers(Session(old(k.heap), issued), ops)
    decreases |ops|
  {
    if ops == [] {
      ptrs := [];
    } else {
      ghost var x := Session(k.heap, issued);
      StepKeeps(x, ops[0]);
      var ptr := DoStep(k, ops[0], x);
      var rest := Drive(k, ops[1..], Step(x, ops[0]).issued);
      ptrs := [ptr] + rest;
    }
  }

  method DoStep(k: Kheap, op: Op, ghost x: Session) returns (ptr: Word)
    requires k.Valid() && SessionOk(x) && x.heap == k.heap && Legal(x, op)
    modifies k, k.mem
    ensures k.Valid() && k.heap == Step(x, op).heap
    ensures k.View() == StepImage(old(k.View()), x, op)
    ensures ptr == Answer(x, op)
  {
    ptr := 0;
    match op {
      case Malloc(size) => ptr := k.Kmalloc(size);
      case Free(p) => k.KfreeRun(p);
      case Poke(w, v) =>
        ghost var s :| s in Live(k.heap) && InPayload(k.heap, s, w);
        k.ClientWrite(w, v, s);
    }
  }
}
