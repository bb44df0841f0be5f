/**
 Following a step function from position to position: it comes to an end exactly when no position
 comes back, provided that it only steps from finitely many.
 */
module Orbits {
  import opened Bytes

  type Stepper = int -> Option<int>

  // The position after k steps, if there are that many.
  function At(step: Stepper, pos: int, k: nat): Option<int> {
    if k == 0 then Some(pos)
    else
      match At(step, pos, k - 1)
      case None => None
      case Some(p) => step(p)
  }

  ghost predicate ComesBack(step: Stepper, pos: int) {
    exists i: nat, j: nat :: i < j && At(step, pos, i).Some? && At(step, pos, i) == At(step, pos, j)
  }

  lemma {:induction false} AtAfterOne(step: Stepper, pos: int, k: nat)
    ensures At(step, pos, k + 1) == match step(pos) case Some(p) => At(step, p, k) case None => None
  {
    assert At(step, pos, 0) == Some(pos);
    if k > 0 {
      AtAfterOne(step, pos, k - 1);
    }
  }

  lemma {:induction false} AtBefore(step: Stepper, pos: int, i: nat, j: nat)
    requires i <= j && At(step, pos, j).Some?
    ensures At(step, pos, i).Some?
    ensures i < j ==> step(At(step, pos, i).value).Some?
    decreases j
  {
    if i < j - 1 {
      AtBefore(step, pos, i, j - 1);
    }
  }

  /* A position that comes back comes back for ever */

  lemma {:induction false} SameFuture(step: Stepper, pos: int, i: nat, j: nat, m: nat)
    requires At(step, pos, i) == At(step, pos, j)
    ensures At(step, pos, i + m) == At(step, pos, j + m)
  {
    if m > 0 {
      SameFuture(step, pos, i, j, m - 1);
    }
  }

  lemma {:induction false} GoesOn(step: Stepper, pos: int, i: nat, j: nat, n: nat)
    requires i < j && At(step, pos, i).Some? && At(step, pos, i) == At(step, pos, j)
    ensures At(step, pos, n).Some?
  {
    hide At;
    if n <= j {
      AtBefore(step, pos, n, j);
    } else {
      GoesOn(step, pos, i, j, n - (j - i));
      SameFuture(step, pos, i, j, n - j);
    }
  }

  /* Without coming back, positions run out */

  function Range(lo: int, n: nat): set<int> {
    if n == 0 then {} else Range(lo, n - 1) + {lo + n - 1}
  }

  lemma {:induction false} RangeSize(lo: int, n: nat)
    ensures |Range(lo, n)| == n
    ensures forall x :: x in Range(lo, n) <==> lo <= x < lo + n
  {
    if n > 0 {
      RangeSize(lo, n - 1);
    }
  }

  // The first n positions.
  function Visited(step: Stepper, pos: int, n: nat): set<int>
    requires At(step, pos, n).Some?
  {
    if n == 0 then {} else Visited(step, pos, n - 1) + {At(step, pos, n - 1).value}
  }

  lemma {:induction false} VisitedAt(step: Stepper, pos: int, n: nat, x: int) returns (k: nat)
    requires At(step, pos, n).Some? && x in Visited(step, pos, n)
    ensures k < n && At(step, pos, k) == Some(x)
  {
    hide At;
    AtBefore(step, pos, n - 1, n);
    if x == At(step, pos, n - 1).value {
      k := n - 1;
    } else {
      k := VisitedAt(step, pos, n - 1, x);
    }
  }

  lemma BackAgain(step: Stepper, pos: int, i: nat, j: nat)
    requires i < j && At(step, pos, i).Some? && At(step, pos, i) == At(step, pos, j)
    ensures ComesBack(step, pos)
  {
  }

  lemma {:induction false} VisitedSize(step: Stepper, pos: int, n: nat)
    requires At(step, pos, n).Some? && !ComesBack(step, pos)
    ensures |Visited(step, pos, n)| == n
  {
    hide At, ComesBack;
    if n > 0 {
      AtBefore(step, pos, n - 1, n);
      VisitedSize(step, pos, n - 1);
      var p := At(step, pos, n - 1).value;
      if p in Visited(step, pos, n - 1) {
        var k := VisitedAt(step, pos, n - 1, p);
        BackAgain(step, pos, k, n - 1);
      }
    }
  }

  lemma SubsetSize(a: set<int>, b: set<int>)
    requires a <= b
    ensures |a| <= |b|
  {
    assert a + (b - a) == b;
  }

  lemma RunsOut(step: Stepper, pos: int, lo: int, n: nat)
    requires forall p :: step(p).Some? ==> lo <= p < lo + n
    requires !ComesBack(step, pos)
    ensures At(step, pos, n + 1) == None
  {
    hide At, ComesBack, Visited;
    if At(step, pos, n + 1).Some? {
      VisitedSize(step, pos, n + 1);
      RangeSize(lo, n);
      forall x | x in Visited(step, pos, n + 1)
        ensures x in Range(lo, n)
      {
        var k := VisitedAt(step, pos, n + 1, x);
        AtBefore(step, pos, k, n + 1);
      }
      SubsetSize(Visited(step, pos, n + 1), Range(lo, n));
      assert false;
    }
  }

  // Where n positions have a step at all, no position comes back exactly if n + 1 steps are too many.
  lemma EndsExactly(step: Stepper, pos: int, lo: int, n: nat)
    requires forall p :: step(p).Some? ==> lo <= p < lo + n
    ensures ComesBack(step, pos) <==> At(step, pos, n + 1).Some?
    ensures ComesBack(step, pos) <==> forall k: nat :: At(step, pos, k).Some?
  {
    hide At;
    if ComesBack(step, pos) {
      var i: nat, j: nat :| i < j && At(step, pos, i).Some? && At(step, pos, i) == At(step, pos, j);
      forall k: nat ensures At(step, pos, k).Some? {
        GoesOn(step, pos, i, j, k);
      }
    } else {
      RunsOut(step, pos, lo, n);
    }
  }
}
