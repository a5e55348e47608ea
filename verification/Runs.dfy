/** Runs of a transition system, and induction over them. */
module Runs {

  /** The state after a list of steps. */
  function Fold<S, T>(next: (S, T) -> S, s: S, steps: seq<T>): S
    decreases |steps|
  {
    if steps == [] then s else Fold(next, next(s, steps[0]), steps[1..])
  }

  /** What every given step keeps, the run keeps. */
  lemma {:induction false} FoldKeeps<S(!new), T>(next: (S, T) -> S, inv: S -> bool, s: S, steps: seq<T>)
    requires inv(s) && forall a, t {:trigger next(a, t)} | t in steps && inv(a) :: inv(next(a, t))
    ensures inv(Fold(next, s, steps))
    decreases |steps|
  {
    if steps != [] {
      FoldKeeps(next, inv, next(s, steps[0]), steps[1..]);
    }
  }

  /** What relates a state to the next one, and composes, relates the two ends of a run. */
  lemma {:induction false} FoldRelates<S(!new), T>(
    next: (S, T) -> S, rel: (S, S) -> bool, s: S, steps: seq<T>)
    requires forall a :: rel(a, a)
    requires forall a, b, c {:trigger rel(a, b), rel(b, c)} :: rel(a, b) && rel(b, c) ==> rel(a, c)
    requires forall a, t {:trigger next(a, t)} | t in steps :: rel(a, next(a, t))
    ensures rel(s, Fold(next, s, steps))
    decreases |steps|
  {
    if steps != [] {
      var t := next(s, steps[0]);
      FoldRelates(next, rel, t, steps[1..]);
      assert rel(s, t) && rel(t, Fold(next, t, steps[1..]));
    }
  }

  /** A run of a run. */
  lemma {:induction false} FoldConcat<S, T>(next: (S, T) -> S, s: S, a: seq<T>, b: seq<T>)
    ensures Fold(next, s, a + b) == Fold(next, Fold(next, s, a), b)
    decreases |a|
  {
    if a == [] {
      assert a + b == b;
    } else {
      assert (a + b)[1..] == a[1..] + b;
      FoldConcat(next, next(s, a[0]), a[1..], b);
    }
  }

  /** The last step of a run. */
  lemma FoldSnoc<S, T>(next: (S, T) -> S, s: S, steps: seq<T>)
    requires steps != []
    ensures var n := |steps| - 1; Fold(next, s, steps) == next(Fold(next, s, steps[..n]), steps[n])
  {
    var n := |steps| - 1;
    assert steps == steps[..n] + [steps[n]] && [steps[n]][1..] == [];
    FoldConcat(next, s, steps[..n], [steps[n]]);
  }

  lemma FoldCons<S, T>(next: (S, T) -> S, s: S, steps: seq<T>, i: nat)
    requires 0 < i <= |steps|
    ensures Fold(next, s, steps[..i]) == Fold(next, next(s, steps[0]), steps[1..][..i - 1])
  {
    assert steps[..i][1..] == steps[1..][..i - 1] && steps[..i][0] == steps[0];
  }

  /**
    * What every step but a last one keeps holds up to the first such step: `k` is its position, or the length
    * of the run if there is none.
    */
  lemma {:induction false} FoldUntil<S(!new), T>(
    next: (S, T) -> S, holds: S -> bool, last: (S, T) -> bool, s: S, steps: seq<T>) returns (k: nat)
    requires holds(s)
    requires forall a, t {:trigger next(a, t)} | t in steps && holds(a) && !last(a, t) :: holds(next(a, t))
    ensures k <= |steps| && forall i | 0 <= i <= k :: holds(Fold(next, s, steps[..i]))
    ensures k < |steps| ==> last(Fold(next, s, steps[..k]), steps[k])
    decreases |steps|
  {
    if steps == [] || last(s, steps[0]) {
      k := 0;
    } else {
      k := FoldUntil(next, holds, last, next(s, steps[0]), steps[1..]);
      k := k + 1;
      forall i | 0 <= i <= k
        ensures holds(Fold(next, s, steps[..i]))
      {
        if i > 0 {
          FoldCons(next, s, steps, i);
        }
      }
      if k < |steps| {
        FoldCons(next, s, steps, k);
      }
    }
  }

  /** A condition that is final holds at the end if it held at the start or some step brought it about. */
  lemma {:induction false} FoldBecomes<S(!new), T>(
    next: (S, T) -> S, holds: S -> bool, cause: (S, T) -> bool, s: S, steps: seq<T>)
    requires forall a, t {:trigger next(a, t)} | t in steps :: holds(next(a, t)) <==> holds(a) || cause(a, t)
    ensures holds(Fold(next, s, steps)) <==>
            holds(s) || exists k | 0 <= k < |steps| :: cause(Fold(next, s, steps[..k]), steps[k])
    decreases |steps|
  {
    if steps != [] {
      var m := |steps| - 1;
      var before := steps[..m];
      FoldSnoc(next, s, steps);
      FoldBecomes(next, holds, cause, s, before);
      forall k | 0 <= k < m
        ensures cause(Fold(next, s, steps[..k]), steps[k]) == cause(Fold(next, s, before[..k]), before[k])
      {
        assert steps[..k] == before[..k];
      }
      assert steps[m] in steps && Fold(next, s, steps) == next(Fold(next, s, before), steps[m]);
    }
  }

  lemma FoldTwo<S, T>(next: (S, T) -> S, s: S, a: T, b: T)
    ensures Fold(next, s, [a, b]) == next(next(s, a), b)
  {
    assert [a, b][1..] == [b] && [b][1..] == [];
    assert Fold(next, next(s, a), [b]) == Fold(next, next(next(s, a), b), []);
  }

  lemma FoldThree<S, T>(next: (S, T) -> S, s: S, a: T, b: T, c: T)
    ensures Fold(next, s, [a, b, c]) == next(next(next(s, a), b), c)
  {
    assert [a, b, c][1..] == [b, c] && [b, c][1..] == [c] && [c][1..] == [];
    assert Fold(next, next(s, a), [b, c]) == Fold(next, next(next(s, a), b), [c]);
  }
}
