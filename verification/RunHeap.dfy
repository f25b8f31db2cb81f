/**
 The heap as the allocator's design describes it: a range of frames cut into runs, and a
 list of the runs that are free. There is no memory here; module HeapImage encodes these
 values in words.
 */
module RunHeap {
  import opened Machine
  import opened FrameSets

  /** `runs` maps the first frame of every run, free or live, to its length in frames.
      `free` lists the first frames of the free runs in free-list order. */
  datatype Heap = Heap(base: nat, n: nat, runs: map<nat, nat>, free: seq<nat>)

  ghost function Elements(q: seq<nat>): set<nat> {
    set s | s in q
  }

  ghost function Live(h: Heap): set<nat> {
    h.runs.Keys - Elements(h.free)
  }

  ghost predicate InRange(base: nat, n: nat, runs: map<nat, nat>) {
    forall s :: s in runs ==> 1 <= runs[s] && base <= s && s + runs[s] <= base + n
  }

  ghost predicate Apart(runs: map<nat, nat>) {
    forall s, t {:trigger EndsBefore(runs, s, t)} :: s in runs && s < t && t in runs ==> EndsBefore(runs, s, t)
  }

  /** The run at `s` is over by frame `f`. */
  ghost predicate EndsBefore(runs: map<nat, nat>, s: nat, f: nat)
    requires s in runs
  {
    s + runs[s] <= f
  }

  ghost predicate EndsAtRun(end: nat, runs: map<nat, nat>, s: nat)
    requires s in runs
  {
    s + runs[s] == end || s + runs[s] in runs
  }

  ghost predicate Gapless(base: nat, end: nat, runs: map<nat, nat>) {
    && (base < end ==> base in runs)
    && (forall s {:trigger EndsAtRun(end, runs, s)} :: s in runs ==> EndsAtRun(end, runs, s))
  }

  /** The runs tile frames [base, base + n): none is empty, none overlaps another, and each
      ends where another starts or where the heap ends. */
  ghost predicate Partition(h: Heap) {
    InRange(h.base, h.n, h.runs) && Apart(h.runs) && Gapless(h.base, h.base + h.n, h.runs)
  }

  ghost predicate Distinct(q: seq<nat>) {
    forall i, j :: 0 <= i < j < |q| ==> q[i] != q[j]
  }

  ghost predicate FreeListOk(h: Heap) {
    Distinct(h.free) && forall i :: 0 <= i < |h.free| ==> h.free[i] in h.runs
  }

  /** Frames in the runs that start at the elements of `q`. */
  ghost function SumSeq(runs: map<nat, nat>, q: seq<nat>): nat
    requires forall i :: 0 <= i < |q| ==> q[i] in runs
  {
    if q == [] then 0 else runs[q[0]] + SumSeq(runs, q[1..])
  }

  /** Frames in the runs that start at the elements of `s`. */
  ghost function SumSet(runs: map<nat, nat>, s: set<nat>): nat
    requires s <= runs.Keys
  {
    if s == {} then 0 else var x :| x in s; runs[x] + SumSet(runs, s - {x})
  }

  ghost predicate Shape(h: Heap) {
    Partition(h) && FreeListOk(h)
  }

  ghost predicate Inv(h: Heap) {
    Shape(h) && SumSeq(h.runs, h.free) + SumSet(h.runs, Live(h)) == h.n
  }

  // ---------------------------------------------------------------- operations

  /** The heap right after kmalloc_init took `n` frames from `base` on. */
  function Start(base: nat, n: nat): Heap {
    if n == 0 then Heap(base, 0, map[], []) else Heap(base, n, map[base := n], [base])
  }

  /** Position of the first listed run of at least `need` frames, or |q| when there is none. */
  function FirstFit(runs: map<nat, nat>, q: seq<nat>, need: nat): (i: nat)
    requires forall i :: 0 <= i < |q| ==> q[i] in runs
    ensures i <= |q|
    ensures forall j :: 0 <= j < i ==> runs[q[j]] < need
    ensures i < |q| ==> need <= runs[q[i]]
  {
    if q == [] then 0
    else if need <= runs[q[0]] then 0
    else
      var k := FirstFit(runs, q[1..], need);
      assert forall j :: 0 < j <= k ==> q[j] == q[1..][j - 1];
      k + 1
  }

  /** Cut the run at `s` after its first `need` frames. */
  function Cut(runs: map<nat, nat>, s: nat, need: nat): map<nat, nat>
    requires s in runs && need <= runs[s]
  {
    runs[s := need][s + need := runs[s] - need]
  }

  /** Take `need` frames off the front of the i-th free run; a remainder keeps its list slot. */
  function Take(h: Heap, i: nat, need: nat): Heap
    requires i < |h.free| && h.free[i] in h.runs && need <= h.runs[h.free[i]]
  {
    var s := h.free[i];
    if need < h.runs[s] then
      h.(runs := Cut(h.runs, s, need), free := h.free[i := s + need])
    else
      h.(free := h.free[..i] + h.free[i + 1..])
  }

  /** First-fit allocation: the new heap and the first frame of the block, if any run fits. */
  function Alloc(h: Heap, need: nat): (Heap, Option<nat>)
    requires forall i :: 0 <= i < |h.free| ==> h.free[i] in h.runs
  {
    var i := FirstFit(h.runs, h.free, need);
    if i < |h.free| then (Take(h, i, need), Some(h.free[i])) else (h, None)
  }

  /** Put the run that starts at frame `s` at the head of the free list, if it is live. */
  function Release(h: Heap, s: nat): Heap {
    if s in h.runs && s !in h.free then h.(free := [s] + h.free) else h
  }

  // ---------------------------------------------------------------- sums

  lemma {:induction false} SumSetRemove(runs: map<nat, nat>, s: set<nat>, x: nat)
    requires s <= runs.Keys && x in s
    ensures SumSet(runs, s) == runs[x] + SumSet(runs, s - {x})
    decreases s
  {
    var y :| y in s && SumSet(runs, s) == runs[y] + SumSet(runs, s - {y});
    if y != x {
      SumSetRemove(runs, s - {y}, x);
      SumSetRemove(runs, s - {x}, y);
      assert s - {y} - {x} == s - {x} - {y};
    }
  }

  /** A sum over a set only reads the runs that start in the set. */
  lemma {:induction false} SumSetFrame(r1: map<nat, nat>, r2: map<nat, nat>, s: set<nat>)
    requires s <= r1.Keys && s <= r2.Keys
    requires forall x :: x in s ==> r1[x] == r2[x]
    ensures SumSet(r1, s) == SumSet(r2, s)
    decreases s
  {
    if s == {} {
    } else {
      var x :| x in s;
      SumSetRemove(r1, s, x);
      SumSetRemove(r2, s, x);
      SumSetFrame(r1, r2, s - {x});
    }
  }

  lemma {:induction false} SumSeqFrame(r1: map<nat, nat>, r2: map<nat, nat>, q: seq<nat>)
    requires forall i :: 0 <= i < |q| ==> q[i] in r1 && q[i] in r2 && r1[q[i]] == r2[q[i]]
    ensures SumSeq(r1, q) == SumSeq(r2, q)
  {
    if q == [] {
    } else {
      SumSeqFrame(r1, r2, q[1..]);
    }
  }

  lemma {:induction false} SumSeqConcat(runs: map<nat, nat>, p: seq<nat>, q: seq<nat>)
    requires forall i :: 0 <= i < |p| ==> p[i] in runs
    requires forall i :: 0 <= i < |q| ==> q[i] in runs
    ensures SumSeq(runs, p + q) == SumSeq(runs, p) + SumSeq(runs, q)
  {
    if p == [] {
      assert p + q == q;
    } else {
      assert (p + q)[1..] == p[1..] + q;
      SumSeqConcat(runs, p[1..], q);
    }
  }

  /** Pull the i-th element out of a list sum. */
  lemma {:induction false} SumSeqSplit(runs: map<nat, nat>, q: seq<nat>, i: nat)
    requires forall j :: 0 <= j < |q| ==> q[j] in runs
    requires i < |q|
    ensures SumSeq(runs, q) == SumSeq(runs, q[..i]) + runs[q[i]] + SumSeq(runs, q[i + 1..])
  {
    assert q == q[..i] + q[i..];
    assert q[i..][1..] == q[i + 1..];
    SumSeqConcat(runs, q[..i], q[i..]);
  }

  // ---------------------------------------------------------------- the invariant is kept

  lemma {:induction false} StartInv(base: nat, n: nat)
    ensures Inv(Start(base, n))
    ensures Live(Start(base, n)) == {}
  {
    var h := Start(base, n);
    assert Live(h) == {};
    if n == 0 {
    } else {
      assert h.free[1..] == [];
      assert SumSeq(h.runs, h.free) == n;
    }
  }

  lemma {:induction false} RemoveAt(q: seq<nat>, i: nat)
    requires Distinct(q) && i < |q|
    ensures Distinct(q[..i] + q[i + 1..])
    ensures Elements(q[..i] + q[i + 1..]) == Elements(q) - {q[i]}
  {
    var r := q[..i] + q[i + 1..];
    forall x ensures x in Elements(r) <==> x in Elements(q) - {q[i]} {
      if x in Elements(q) - {q[i]} {
        var k :| 0 <= k < |q| && q[k] == x;
        assert x == if k < i then r[k] else r[k - 1];
      }
    }
  }

  lemma {:induction false} ReplaceAt(q: seq<nat>, i: nat, t: nat)
    requires Distinct(q) && i < |q| && t !in q
    ensures Distinct(q[i := t])
    ensures Elements(q[i := t]) == Elements(q) - {q[i]} + {t}
  {
    var r := q[i := t];
    forall x ensures x in Elements(r) <==> x in Elements(q) - {q[i]} + {t} {
      if x in Elements(q) - {q[i]} {
        var k :| 0 <= k < |q| && q[k] == x;
        assert x == r[k];
      }
      assert t == r[i];
    }
  }

  lemma {:induction false} TakeWhole(h: Heap, i: nat, need: nat)
    requires Inv(h) && i < |h.free| && need == h.runs[h.free[i]]
    ensures Inv(Take(h, i, need))
    ensures Live(Take(h, i, need)) == Live(h) + {h.free[i]}
    ensures SumSeq(h.runs, h.free) == SumSeq(Take(h, i, need).runs, Take(h, i, need).free) + need
  {
    var s, h' := h.free[i], Take(h, i, need);
    RemoveAt(h.free, i);
    assert Live(h') == Live(h) + {s};
    SumSetRemove(h.runs, Live(h'), s);
    assert Live(h') - {s} == Live(h);
    SumSeqSplit(h.runs, h.free, i);
    SumSeqConcat(h.runs, h.free[..i], h.free[i + 1..]);
  }

  lemma {:induction false} CutApart(runs: map<nat, nat>, s: nat, need: nat)
    requires Apart(runs) && s in runs && 1 <= need < runs[s]
    ensures s + need !in runs
    ensures Apart(Cut(runs, s, need))
  {
    var cut, t := Cut(runs, s, need), s + need;
    forall x | x in runs && s < x
      ensures t < x
    {
      assert EndsBefore(runs, s, x);
    }
    forall x, y | x in cut && x < y && y in cut
      ensures EndsBefore(cut, x, y)
    {
      if x == t {
        assert EndsBefore(runs, s, y);
      } else if y != t {
        assert EndsBefore(runs, x, y);
      } else if x != s {
        assert EndsBefore(runs, x, s);
      }
    }
  }

  lemma {:induction false} CutGapless(base: nat, end: nat, runs: map<nat, nat>, s: nat, need: nat)
    requires Gapless(base, end, runs) && s in runs && 1 <= need < runs[s]
    ensures Gapless(base, end, Cut(runs, s, need))
  {
    var cut := Cut(runs, s, need);
    forall x | x in cut
      ensures EndsAtRun(end, cut, x)
    {
      assert EndsAtRun(end, runs, if x == s + need then s else x);
    }
  }

  /** Cutting a run in two keeps the tiling; the new boundary was inside the old run. */
  lemma {:induction false} SplitPartition(h: Heap, i: nat, need: nat)
    requires Partition(h) && i < |h.free| && h.free[i] in h.runs && 1 <= need < h.runs[h.free[i]]
    ensures h.free[i] + need !in h.runs
    ensures Partition(Take(h, i, need))
  {
    CutApart(h.runs, h.free[i], need);
    CutGapless(h.base, h.base + h.n, h.runs, h.free[i], need);
  }

  lemma {:induction false} SplitFreeList(h: Heap, i: nat, need: nat)
    requires FreeListOk(h) && i < |h.free| && 1 <= need < h.runs[h.free[i]]
    requires h.free[i] + need !in h.runs
    ensures FreeListOk(Take(h, i, need))
    ensures Live(Take(h, i, need)) == Live(h) + {h.free[i]}
  {
    var s, h' := h.free[i], Take(h, i, need);
    ReplaceAt(h.free, i, s + need);
    assert h'.runs.Keys == h.runs.Keys + {s + need};
    assert Live(h') == Live(h) + {s};
  }

  lemma {:induction false} SplitFreeSum(h: Heap, i: nat, need: nat)
    requires FreeListOk(h) && i < |h.free| && 1 <= need < h.runs[h.free[i]]
    requires h.free[i] + need !in h.runs && FreeListOk(Take(h, i, need))
    ensures SumSeq(h.runs, h.free) == SumSeq(Take(h, i, need).runs, Take(h, i, need).free) + need
  {
    var h' := Take(h, i, need);
    SumSeqSplit(h.runs, h.free, i);
    SumSeqSplit(h'.runs, h'.free, i);
    assert h'.free[..i] == h.free[..i] && h'.free[i + 1..] == h.free[i + 1..];
    SumSeqFrame(h.runs, h'.runs, h.free[..i]);
    SumSeqFrame(h.runs, h'.runs, h.free[i + 1..]);
  }

  lemma {:induction false} SplitLiveSum(h: Heap, i: nat, need: nat)
    requires FreeListOk(h) && i < |h.free| && 1 <= need < h.runs[h.free[i]]
    requires h.free[i] + need !in h.runs
    requires Live(Take(h, i, need)) == Live(h) + {h.free[i]}
    ensures SumSet(Take(h, i, need).runs, Live(Take(h, i, need))) == SumSet(h.runs, Live(h)) + need
  {
    var s, h' := h.free[i], Take(h, i, need);
    SumSetRemove(h'.runs, Live(h'), s);
    assert Live(h') - {s} == Live(h);
    SumSetFrame(h.runs, h'.runs, Live(h));
  }

  lemma {:induction false} TakeSplit(h: Heap, i: nat, need: nat)
    requires Inv(h) && i < |h.free| && 1 <= need < h.runs[h.free[i]]
    ensures Inv(Take(h, i, need))
    ensures Live(Take(h, i, need)) == Live(h) + {h.free[i]}
    ensures SumSeq(h.runs, h.free) == SumSeq(Take(h, i, need).runs, Take(h, i, need).free) + need
  {
    SplitPartition(h, i, need);
    SplitFreeList(h, i, need);
    SplitFreeSum(h, i, need);
    SplitLiveSum(h, i, need);
  }

  /** Allocation keeps the tiling and moves exactly `need` frames from free to live. */
  lemma {:induction false} TakeInv(h: Heap, i: nat, need: nat)
    requires Inv(h) && i < |h.free| && 1 <= need <= h.runs[h.free[i]]
    ensures Inv(Take(h, i, need))
    ensures Live(Take(h, i, need)) == Live(h) + {h.free[i]}
    ensures SumSeq(h.runs, h.free) == SumSeq(Take(h, i, need).runs, Take(h, i, need).free) + need
  {
    if need == h.runs[h.free[i]] {
      TakeWhole(h, i, need);
    } else {
      TakeSplit(h, i, need);
    }
  }

  /** What allocation does to the list and to the runs, entry by entry: a remainder stands where
      the run it is cut from stood, and a run used up leaves its place; every other entry keeps
      its order, and every other run its length. */
  lemma {:induction false} TakeKeepsOrder(h: Heap, i: nat, need: nat)
    requires Inv(h) && i < |h.free| && 1 <= need <= h.runs[h.free[i]]
    ensures var s, frames, h' := h.free[i], h.runs[h.free[i]], Take(h, i, need);
            && h'.base == h.base && h'.n == h.n
            && |h'.free| == |h.free| - (if need == frames then 1 else 0)
            && (forall j :: 0 <= j < i ==> h'.free[j] == h.free[j])
            && (need < frames ==> h'.free[i] == s + need && h'.free[i + 1..] == h.free[i + 1..])
            && (need == frames ==> h'.free[i..] == h.free[i + 1..])
            && h'.runs.Keys == h.runs.Keys + (if need < frames then {s + need} else {})
            && h'.runs[s] == need && (need < frames ==> h'.runs[s + need] == frames - need)
            && (forall t :: t in h.runs && t != s ==> h'.runs[t] == h.runs[t])
  {
    var s := h.free[i];
    if need < h.runs[s] {
      CutApart(h.runs, s, need);
    }
  }

  /** Release keeps the tiling and moves exactly one live run to the free list. */
  lemma {:induction false} ReleaseInv(h: Heap, s: nat)
    requires Inv(h)
    ensures Inv(Release(h, s))
    ensures Release(h, s).runs == h.runs
    ensures Live(Release(h, s)) == Live(h) - {s}
    ensures s in Live(h) ==>
              SumSeq(h.runs, Release(h, s).free) == SumSeq(h.runs, h.free) + h.runs[s]
  {
    var h' := Release(h, s);
    if s in Live(h) {
      forall x ensures x in h'.free <==> x in h.free || x == s {
        if x in h.free {
          var k :| 0 <= k < |h.free| && h.free[k] == x;
          assert h'.free[k + 1] == x;
        }
        assert h'.free[0] == s;
      }
      assert Live(h') == Live(h) - {s};
      SumSetRemove(h.runs, Live(h), s);
      assert h'.free[1..] == h.free;
    }
  }

  // ---------------------------------------------------------------- consequences

  ghost predicate Owns(h: Heap, s: nat, f: nat) {
    s in h.runs && s <= f < s + h.runs[s]
  }

  lemma {:induction false} OwnerExists(h: Heap, f: nat) returns (s: nat)
    requires Partition(h) && h.base <= f < h.base + h.n
    ensures Owns(h, s, f)
    decreases f
  {
    if f == h.base {
      s := f;
    } else {
      s := OwnerExists(h, f - 1);
      var end := h.base + h.n;
      assert EndsAtRun(end, h.runs, s);
      if !Owns(h, s, f) {
        s := f;
      }
    }
  }

  /** Every frame of the heap lies in exactly one run. */
  lemma {:induction false} TilesExactlyOnce(h: Heap, f: nat)
    requires Partition(h) && h.base <= f < h.base + h.n
    ensures exists s :: Owns(h, s, f) && forall t :: Owns(h, t, f) ==> t == s
  {
    var s := OwnerExists(h, f);
    forall t | Owns(h, t, f)
      ensures t == s
    {
      assert s < t ==> EndsBefore(h.runs, s, t);
      assert t < s ==> EndsBefore(h.runs, t, s);
    }
  }

  /** There are never more runs than frames, so a list walk visits at most n nodes. */
  lemma {:induction false} RunCount(h: Heap)
    requires Partition(h)
    ensures |h.runs| <= h.n
    ensures FreeListOk(h) ==> |h.free| <= |h.runs|
  {
    IntervalSize(h.base, h.n);
    SubsetSize(h.runs.Keys, Interval(h.base, h.n));
    if FreeListOk(h) {
      DistinctSize(h.free);
      SubsetSize(Elements(h.free), h.runs.Keys);
    }
  }

  lemma {:induction false} DistinctSize(q: seq<nat>)
    requires Distinct(q)
    ensures |Elements(q)| == |q|
  {
    if q == [] {
    } else {
      var r := q[..|q| - 1];
      DistinctSize(r);
      assert Elements(q) == Elements(r) + {q[|q| - 1]};
    }
  }
}
