/**
 * Item-by-item processing, independent of what an item does: the deframers
 * are state machines that consume one input item at a time, and the facts
 * about running them over several items (splitting a run, running by
 * position or by slice, keeping an invariant) hold for any step function.
 */
module Folds {

  /** `f` applied to the items in turn, starting from `s`. */
  function Fold<T, I>(f: (T, I) -> T, s: T, items: seq<I>): T
    decreases |items|
  {
    if |items| == 0 then s else f(Fold(f, s, items[..|items| - 1]), items[|items| - 1])
  }

  /** `f` applied to `input[i..j]` in turn, indexing the input rather than slicing it. */
  function FoldFrom<T, I>(f: (T, I) -> T, s: T, input: seq<I>, i: nat, j: nat): T
    requires i <= j <= |input|
    decreases j
  {
    if j == i then s else f(FoldFrom(f, s, input, i, j - 1), input[j - 1])
  }

  /** Running over a concatenation is running over each part in turn. */
  lemma {:induction false} FoldAppend<T, I>(f: (T, I) -> T, s: T, a: seq<I>, b: seq<I>)
    ensures Fold(f, s, a + b) == Fold(f, Fold(f, s, a), b)
    decreases |b|
  {
    if |b| == 0 {
      assert a + b == a;
    } else {
      assert (a + b)[..|a + b| - 1] == a + b[..|b| - 1];
      FoldAppend(f, s, a, b[..|b| - 1]);
    }
  }

  /** Running by position over `i..j` is running over the slice. */
  lemma {:induction false} FoldFromSlice<T, I>(f: (T, I) -> T, s: T, input: seq<I>, i: nat, j: nat)
    requires i <= j <= |input|
    ensures FoldFrom(f, s, input, i, j) == Fold(f, s, input[i..j])
    decreases j
  {
    if j > i {
      FoldFromSlice(f, s, input, i, j - 1);
      var a := input[i..j];
      assert a[..|a| - 1] == input[i..j - 1];
    }
  }

  /** Running `i..k` then `k..j` is running `i..j`. */
  lemma {:induction false} FoldFromJoin<T, I>(f: (T, I) -> T, s: T, input: seq<I>, i: nat, k: nat, j: nat)
    requires i <= k <= j <= |input|
    ensures FoldFrom(f, FoldFrom(f, s, input, i, k), input, k, j) == FoldFrom(f, s, input, i, j)
    decreases j
  {
    if j > k {
      FoldFromJoin(f, s, input, i, k, j - 1);
    }
  }

  /** A property every step keeps holds after any run. */
  lemma {:induction false} FoldKeeps<T, I>(f: (T, I) -> T, p: T -> bool, s: T, items: seq<I>)
    requires p(s) && forall x, a :: p(x) ==> p(f(x, a))
    ensures p(Fold(f, s, items))
    decreases |items|
  {
    if |items| > 0 {
      FoldKeeps(f, p, s, items[..|items| - 1]);
    }
  }

  /** The same for a run by position. */
  lemma {:induction false} FoldFromKeeps<T, I>(f: (T, I) -> T, p: T -> bool, s: T, input: seq<I>, i: nat, j: nat)
    requires i <= j <= |input|
    requires p(s) && forall x, a :: p(x) ==> p(f(x, a))
    ensures p(FoldFrom(f, s, input, i, j))
    decreases j
  {
    if j > i {
      FoldFromKeeps(f, p, s, input, i, j - 1);
    }
  }

  // ---------------------------------------------------------------------
  // Sources: one output item per step, until the call ends
  // ---------------------------------------------------------------------

  /**
   * What one step of a source does with its output item: writes `o`, ends
   * the call returning the count so far, or ends it returning -1.
   */
  datatype Emission<O> = Emit(o: O) | Finish | Abort

  /**
   * Up to `n` steps of `f` from state `s`, the first writing output position
   * `pos`: the state reached, the items written, and the count returned
   * (-1 after an abort).
   */
  function Drive<T, O>(f: (T, int) -> (T, Emission<O>), s: T, pos: int, n: nat): (r: (T, seq<O>, int))
    ensures |r.1| <= n && -1 <= r.2 && (r.2 >= 0 ==> r.2 == |r.1|)
    decreases n
  {
    if n == 0 then (s, [], 0)
    else
      var (t, e) := f(s, pos);
      match e
      case Emit(o) =>
        var (u, out, k) := Drive(f, t, pos + 1, n - 1);
        (u, [o] + out, if k < 0 then -1 else k + 1)
      case Finish => (t, [], 0)
      case Abort => (t, [], -1)
  }

  /** A step that writes an item puts it in front of what the rest of the call writes. */
  lemma DriveEmit<T, O>(f: (T, int) -> (T, Emission<O>), s: T, pos: int, n: nat)
    requires n >= 1 && f(s, pos).1.Emit?
    ensures var (u, out, k) := Drive(f, f(s, pos).0, pos + 1, n - 1);
      Drive(f, s, pos, n) == (u, [f(s, pos).1.o] + out, if k < 0 then -1 else k + 1)
  {
  }

  /** Room for `m` + `n` items is room for `m` and then for `n`, when the first `m` steps all write. */
  lemma {:induction false} DriveJoin<T, O>(f: (T, int) -> (T, Emission<O>), s: T, pos: int, m: nat, n: nat)
    requires Drive(f, s, pos, m).2 == m
    ensures var r1 := Drive(f, s, pos, m);
      var r2 := Drive(f, r1.0, pos + m, n);
      Drive(f, s, pos, m + n) == (r2.0, r1.1 + r2.1, if r2.2 < 0 then -1 else m + r2.2)
    decreases m, 1
  {
    if m > 0 {
      DriveJoinStep(f, s, pos, m, n);
    } else {
      var (u, out2, k2) := Drive(f, s, pos, n);
      assert [] + out2 == out2;
    }
  }

  /** The step of DriveJoin: the join after the first item gives the join from it. */
  lemma {:induction false} DriveJoinStep<T, O>(f: (T, int) -> (T, Emission<O>), s: T, pos: int, m: nat, n: nat)
    requires m >= 1 && Drive(f, s, pos, m).2 == m
    ensures var r1 := Drive(f, s, pos, m);
      var r2 := Drive(f, r1.0, pos + m, n);
      Drive(f, s, pos, m + n) == (r2.0, r1.1 + r2.1, if r2.2 < 0 then -1 else m + r2.2)
    decreases m, 0
  {
    DriveWrites(f, s, pos, m);
    var t, o := f(s, pos).0, f(s, pos).1.o;
    DriveJoin(f, t, pos + 1, m - 1, n);
    var r1 := Drive(f, t, pos + 1, m - 1);
    var r2 := Drive(f, r1.0, pos + m, n);
    var whole := Drive(f, t, pos + 1, m - 1 + n);
    assert whole == (r2.0, r1.1 + r2.1, if r2.2 < 0 then -1 else m - 1 + r2.2);
    DriveEmitAt(f, s, pos, m, t, o, r1);
    DriveEmitAt(f, s, pos, m + n, t, o, whole);
    assert [o] + (r1.1 + r2.1) == [o] + r1.1 + r2.1;
  }

  /** A call that writes all its `m` items wrote the first and then `m` - 1 more. */
  lemma DriveWrites<T, O>(f: (T, int) -> (T, Emission<O>), s: T, pos: int, m: nat)
    requires m >= 1 && Drive(f, s, pos, m).2 == m
    ensures f(s, pos).1.Emit? && Drive(f, f(s, pos).0, pos + 1, m - 1).2 == m - 1
  {
  }

  /** DriveEmit, with the step and the rest of the call named. */
  lemma DriveEmitAt<T, O>(f: (T, int) -> (T, Emission<O>), s: T, pos: int, n: nat, t: T, o: O, r: (T, seq<O>, int))
    requires n >= 1 && f(s, pos) == (t, Emit(o)) && r == Drive(f, t, pos + 1, n - 1)
    ensures Drive(f, s, pos, n) == (r.0, [o] + r.1, if r.2 < 0 then -1 else r.2 + 1)
  {
    DriveEmit(f, s, pos, n);
  }

  /** A property every step keeps holds after any call. */
  lemma {:induction false} DriveKeeps<T, O>(f: (T, int) -> (T, Emission<O>), p: T -> bool, s: T, pos: int, n: nat)
    requires p(s) && forall x, i :: p(x) ==> p(f(x, i).0)
    ensures p(Drive(f, s, pos, n).0)
    decreases n
  {
    if n > 0 {
      DriveKeeps(f, p, f(s, pos).0, pos + 1, n - 1);
    }
  }
}
