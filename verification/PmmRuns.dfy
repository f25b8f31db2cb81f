/**
 Whole runs of the frame allocator, at the level of sets: which frames are free, and which
 are held by whoever allocated them.
 */
module PmmRuns {
  import opened Machine
  import opened FrameSets
  import opened Pmm
  import E = E820

  datatype Pool = Pool(free: set<nat>, held: set<nat>)

  datatype Op = Alloc | Free(addr: Word)

  /** The address pmm_alloc_frame returns. */
  ghost function Answer(free: set<nat>): nat {
    if free == {} then 0 else 4096 * Lowest(free)
  }

  ghost function Step(p: Pool, op: Op): Pool {
    match op
    case Alloc => if p.free == {} then p else Pool(p.free - {Lowest(p.free)}, p.held + {Lowest(p.free)})
    case Free(addr) => Pool(p.free + Returned(addr), p.held - Returned(addr))
  }

  /** The documented discipline: free only what is held, or an address that is ignored. */
  ghost predicate Legal(p: Pool, op: Op) {
    op.Free? ==> Returned(op.addr) <= p.held + p.free
  }

  /** `all` is the set pmm_init left free: frames move between free and held, never in or out. */
  ghost predicate PoolOk(p: Pool, all: set<nat>) {
    p.free !! p.held && p.free + p.held == all
  }

  ghost predicate LegalRun(p: Pool, ops: seq<Op>)
    decreases |ops|
  {
    ops == [] || (Legal(p, ops[0]) && LegalRun(Step(p, ops[0]), ops[1..]))
  }

  ghost function Exec(p: Pool, ops: seq<Op>): Pool
    decreases |ops|
  {
    if ops == [] then p else Exec(Step(p, ops[0]), ops[1..])
  }

  /** A call conserves the frames if and only if it is disciplined: pmm_free_frame takes a
      reserved frame as readily as one it handed out. */
  lemma {:induction false} StepConserves(p: Pool, op: Op, all: set<nat>)
    requires PoolOk(p, all)
    ensures PoolOk(Step(p, op), all) <==> Legal(p, op)
  {
    if op.Free? && !Legal(p, op) {
      var f :| f in Returned(op.addr) && f !in p.held + p.free;
      assert f in Step(p, op).free && f !in all;
    }
  }

  /** Over every disciplined run the frames are conserved: free and held stay disjoint and
      make up exactly the frames that were free at first. */
  lemma {:induction false} RunConserves(p: Pool, ops: seq<Op>, all: set<nat>)
    requires PoolOk(p, all) && LegalRun(p, ops)
    ensures PoolOk(Exec(p, ops), all)
    ensures |Exec(p, ops).free| + |Exec(p, ops).held| == |all|
    decreases |ops|
  {
    if ops == [] {
      assert |p.free + p.held| == |p.free| + |p.held|;
    } else {
      StepConserves(p, ops[0], all);
      RunConserves(Step(p, ops[0]), ops[1..], all);
    }
  }

  /** pmm_free_frame undoes pmm_alloc_frame: the pool is as it was, frame by frame. */
  lemma {:induction false} AllocThenFree(p: Pool)
    requires p.free != {} && p.free !! p.held && forall f :: f in p.free ==> f < 0x4_0000
    ensures Step(Step(p, Alloc), Free(Answer(p.free))) == p
  {
    var f := Lowest(p.free);
    assert Returned(4096 * f) == {f};
    assert p.free - {f} + {f} == p.free;
    assert p.held + {f} - {f} == p.held;
  }

  /** Calls that give back the frames of a list. */
  function GiveBack(fs: seq<nat>): seq<Op>
    requires forall i :: 0 <= i < |fs| ==> fs[i] < 0x4_0000
  {
    seq(|fs|, i requires 0 <= i < |fs| => Free(4096 * fs[i]))
  }

  lemma {:induction false} GiveBackReturns(p: Pool, fs: seq<nat>)
    requires forall i :: 0 <= i < |fs| ==> fs[i] < 0x4_0000
    ensures var fs' := set i | 0 <= i < |fs| :: fs[i];
            Exec(p, GiveBack(fs)) == Pool(p.free + fs', p.held - fs')
    decreases |fs|
  {
    if fs == [] {
      assert GiveBack(fs) == [];
      assert p.free + {} == p.free && p.held - {} == p.held;
    } else {
      var n := |fs| - 1;
      var before, f := fs[..n], fs[n];
      GiveBackReturns(p, before);
      assert GiveBack(fs) == GiveBack(before) + [Free(4096 * f)];
      ExecSnoc(p, GiveBack(before), Free(4096 * f));
      assert Returned(4096 * f) == {f};
      var old', new' := set i | 0 <= i < n :: before[i], set i | 0 <= i < |fs| :: fs[i];
      assert forall i :: 0 <= i < n ==> before[i] == fs[i];
      assert new' == old' + {f};
      assert p.free + old' + {f} == p.free + new';
      assert p.held - old' - {f} == p.held - new';
    }
  }

  /** Whatever disciplined calls came before: once every held frame is given back, in any order
      and however often, exactly the frames that were free at first are free again. */
  lemma {:induction false} EverythingComesBack(p: Pool, ops: seq<Op>, all: set<nat>, fs: seq<nat>)
    requires PoolOk(p, all) && LegalRun(p, ops)
    requires forall i :: 0 <= i < |fs| ==> fs[i] < 0x4_0000
    requires forall f :: f in Exec(p, ops).held <==> f in fs
    ensures Exec(Exec(p, ops), GiveBack(fs)) == Pool(all, {})
  {
    var q := Exec(p, ops);
    RunConserves(p, ops, all);
    GiveBackReturns(q, fs);
    assert (set i | 0 <= i < |fs| :: fs[i]) == q.held;
    assert q.free + q.held == all && q.held - q.held == {};
  }

  /** After pmm_init on any table and any disciplined run: the free count stays within the
      usable count, frame 0 is not free, address 0 means out of memory and nothing else, and
      any other answer is a frame of the window above 1MB that nobody holds. */
  lemma {:induction false} AfterInit(es: seq<E.Entry>, start: Word, end: Word, ops: seq<Op>)
    requires LegalRun(Pool(E.FreeFrames(es, start, end), {}), ops)
    ensures var p := Exec(Pool(E.FreeFrames(es, start, end), {}), ops);
            && |p.free| <= |E.UsableFrames(es)|
            && 0 !in p.free
            && (Answer(p.free) == 0 <==> p.free == {})
            && (p.free != {} ==> 0x100 <= Lowest(p.free) < MAX_FRAMES && Lowest(p.free) !in p.held)
  {
    var all := E.FreeFrames(es, start, end);
    var p := Exec(Pool(all, {}), ops);
    RunConserves(Pool(all, {}), ops, all);
    forall f | f in all
      ensures 0x100 <= f < MAX_FRAMES
    {
      assert !E.CarvedOut(start, end, f);
    }
    SubsetSize(p.free, all);
    SubsetSize(all, E.UsableFrames(es));
    assert 0 !in p.free;
  }

  /** An answer of 0 is ambiguous exactly when frame 0 is free, and one call of
      pmm_free_frame frees frame 0 exactly when its argument is 0: the code does not tell a
      reserved frame from one it handed out. */
  lemma {:induction false} ZeroIsAmbiguousIff(p: Pool, addr: Word)
    ensures Answer(p.free) == 0 && p.free != {} <==> 0 in p.free
    ensures 0 !in p.free ==> (0 in Step(p, Free(addr)).free <==> addr == 0)
  {
    if 0 in p.free {
      LowestIs(p.free, 0);
    }
  }

  /** Frame 0 was given back and nothing allocated since. */
  ghost predicate ZeroFreedLast(ops: seq<Op>) {
    exists i :: 0 <= i < |ops| && ops[i] == Free(0) && forall j :: i < j < |ops| ==> ops[j] != Alloc
  }

  /** Over every run, disciplined or not: frame 0, not free at first, is free at the end if and
      only if some call gave address 0 back and no allocation came after it. */
  lemma {:induction false} ZeroFreeIff(p: Pool, ops: seq<Op>)
    requires 0 !in p.free
    ensures 0 in Exec(p, ops).free <==> ZeroFreedLast(ops)
    decreases |ops|
  {
    if ops == [] {
    } else {
      var n := |ops| - 1;
      var before, op := ops[..n], ops[n];
      ZeroFreeIff(p, before);
      ExecSnoc(p, before, op);
      assert before + [op] == ops;
      var q := Exec(p, before);
      if op == Free(0) {
        assert ZeroFreedLast(ops);
      } else if op == Alloc {
        if 0 in q.free {
          LowestIs(q.free, 0);
        }
      } else {
        assert ops[n] != Alloc;
        ZeroFreedStays(ops);
      }
    }
  }

  /** A call that neither allocates nor frees address 0 does not matter. */
  lemma {:induction false} ZeroFreedStays(ops: seq<Op>)
    requires ops != [] && ops[|ops| - 1] != Alloc && ops[|ops| - 1] != Free(0)
    ensures ZeroFreedLast(ops) <==> ZeroFreedLast(ops[..|ops| - 1])
  {
    var before := ops[..|ops| - 1];
    if ZeroFreedLast(before) {
      var i :| 0 <= i < |before| && before[i] == Free(0) && forall j :: i < j < |before| ==> before[j] != Alloc;
      assert ops[i] == Free(0) && forall j :: i < j < |ops| ==> ops[j] != Alloc;
    }
    if ZeroFreedLast(ops) {
      var i :| 0 <= i < |ops| && ops[i] == Free(0) && forall j :: i < j < |ops| ==> ops[j] != Alloc;
      assert before[i] == Free(0) && forall j :: i < j < |before| ==> before[j] != Alloc;
    }
  }

  /** Nobody gives back a frame of `mine`. */
  ghost predicate Spares(ops: seq<Op>, mine: set<nat>) {
    forall i :: 0 <= i < |ops| && ops[i].Free? ==> Returned(ops[i].addr) !! mine
  }

  /** Frames that are held and that nobody gives back stay held, and no call returns one. */
  lemma {:induction false} NeverHandedOut(p: Pool, ops: seq<Op>, all: set<nat>, mine: set<nat>)
    requires PoolOk(p, all) && LegalRun(p, ops)
    requires mine <= p.held && Spares(ops, mine)
    ensures mine <= Exec(p, ops).held
    ensures forall i :: 0 <= i <= |ops| ==> mine !! Exec(p, ops[..i]).free
    decreases |ops|
  {
    if ops == [] {
      assert Exec(p, ops[..0]) == p;
    } else {
      var p', rest := Step(p, ops[0]), ops[1..];
      StepConserves(p, ops[0], all);
      assert ops[0].Free? ==> Returned(ops[0].addr) !! mine;
      assert Spares(rest, mine);
      NeverHandedOut(p', rest, all, mine);
      forall i | 0 <= i <= |ops|
        ensures mine !! Exec(p, ops[..i]).free
      {
        if i > 0 {
          assert ops[..i][1..] == rest[..i - 1];
          assert mine !! Exec(p', rest[..i - 1]).free;
        }
      }
    }
  }

  /** pmm_init leaves the same bitmap and the same counters for every order of the table. */
  lemma {:induction false} InitOrderIrrelevant(es: seq<E.Entry>, fs: seq<E.Entry>, start: Word, end: Word,
                                               a: seq<bv8>, b: seq<bv8>)
    requires multiset(es) == multiset(fs) && |a| == |b|
    requires Matches(a, E.FreeFrames(es, start, end))
    requires Matches(b, E.FreeFrames(fs, start, end))
    ensures a == b
    ensures |E.UsableFrames(es)| == |E.UsableFrames(fs)|
    ensures |E.FreeFrames(es, start, end)| == |E.FreeFrames(fs, start, end)|
  {
    E.OrderIrrelevant(es, fs, start, end);
    BitmapIsItsFreeSet(a, b, E.FreeFrames(es, start, end));
  }

  /** What the calls of a run return: pmm_alloc_frame's address, and 0 for the others. */
  ghost function Answers(p: Pool, ops: seq<Op>): seq<int>
    decreases |ops|
  {
    if ops == [] then []
    else [if ops[0].Alloc? then Answer(p.free) else 0] + Answers(Step(p, ops[0]), ops[1..])
  }

  /** The allocator's methods produce exactly these runs and answers, disciplined or not, and
      the counter is the number of clear bits throughout. */
  method Drive(a: Allocator, ops: seq<Op>, ghost held: set<nat>) returns (answers: seq<Word>)
    requires a.Valid()
    modifies a`free, a`pool, a.bitmap
    ensures a.Valid() && a.pool == Exec(Pool(old(a.pool), held), ops).free
    ensures answers == Answers(Pool(old(a.pool), held), ops)
    decreases |ops|
  {
    if ops == [] {
      answers := [];
    } else {
      ghost var p := Pool(a.pool, held);
      var answer := DoStep(a, ops[0], p);
      var rest := Drive(a, ops[1..], Step(p, ops[0]).held);
      answers := [answer] + rest;
    }
  }

  method DoStep(a: Allocator, op: Op, ghost p: Pool) returns (answer: Word)
    requires a.Valid() && p.free == a.pool
    modifies a`free, a`pool, a.bitmap
    ensures a.Valid() && a.pool == Step(p, op).free
    ensures answer == if op.Alloc? then Answer(p.free) else 0
  {
    answer := 0;
    match op {
      case Alloc => answer := a.AllocFrame();
      case Free(addr) => a.FreeFrame(addr);
    }
  }

  lemma {:induction false} ExecSnoc(p: Pool, ops: seq<Op>, op: Op)
    ensures Exec(p, ops + [op]) == Step(Exec(p, ops), op)
    decreases |ops|
  {
    if ops == [] {
      assert (ops + [op])[1..] == [];
    } else {
      assert (ops + [op])[1..] == ops[1..] + [op];
      ExecSnoc(Step(p, ops[0]), ops[1..], op);
    }
  }
}
