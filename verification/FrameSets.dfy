/** Finite sets of frame numbers. */
module FrameSets {

  /** The frames [lo, lo + n). */
  ghost function Interval(lo: nat, n: nat): set<nat> {
    if n == 0 then {} else Interval(lo, n - 1) + {lo + n - 1}
  }

  lemma {:induction false} IntervalSize(lo: nat, n: nat)
    ensures |Interval(lo, n)| == n
    ensures forall x: nat :: x in Interval(lo, n) <==> lo <= x < lo + n
  {
    if n == 0 {
    } else {
      IntervalSize(lo, n - 1);
    }
  }

  lemma SubsetSize(a: set<nat>, b: set<nat>)
    requires a <= b
    ensures |a| <= |b|
  {
    assert b == a + (b - a);
  }

  ghost predicate IsLowest(s: set<nat>, m: nat) {
    m in s && forall x :: x in s ==> m <= x
  }

  lemma {:induction false} LowestExists(s: set<nat>)
    requires s != {}
    ensures exists m :: IsLowest(s, m)
    decreases s
  {
    var x :| x in s;
    if s == {x} {
      assert IsLowest(s, x);
    } else {
      assert s == (s - {x}) + {x};
      LowestExists(s - {x});
      var y :| IsLowest(s - {x}, y);
      assert IsLowest(s, if x < y then x else y);
    }
  }

  /** The least element. */
  ghost function Lowest(s: set<nat>): (m: nat)
    requires s != {}
    ensures m in s && forall x :: x in s ==> m <= x
  {
    LowestExists(s);
    var m :| IsLowest(s, m);
    m
  }

  lemma LowestIs(s: set<nat>, m: nat)
    requires m in s && forall x :: x in s ==> m <= x
    ensures Lowest(s) == m
  {
  }
}
