/**
 Order-preserving selections over sequences: `Array.prototype.filter`, the
 positions it keeps, and removal of one position.  Everything is defined by
 recursion on the last element, so that positions never need re-indexing.
 */
module Seqs {

  /** The elements of `xs` that satisfy `p`, in their original order. */
  function Filter<T>(p: T -> bool, xs: seq<T>): (r: seq<T>)
    ensures |r| <= |xs|
    ensures forall x :: x in r ==> x in xs && p(x)
    decreases |xs|
  {
    if xs == [] then []
    else
      var init := Filter(p, xs[..|xs| - 1]);
      if p(xs[|xs| - 1]) then init + [xs[|xs| - 1]] else init
  }

  ghost predicate StrictlyIncreasing(idx: seq<nat>) {
    forall a, b :: 0 <= a < b < |idx| ==> idx[a] < idx[b]
  }

  /** The indices `i` of `xs` with `p(xs[i])`, ascending: exactly the positions `Filter` keeps. */
  function Positions<T>(p: T -> bool, xs: seq<T>): (idx: seq<nat>)
    ensures StrictlyIncreasing(idx)
    ensures forall k :: 0 <= k < |idx| ==> idx[k] < |xs| && p(xs[idx[k]])
    ensures forall i :: 0 <= i < |xs| && p(xs[i]) ==> i in idx
    decreases |xs|
  {
    if xs == [] then []
    else
      var init := Positions(p, xs[..|xs| - 1]);
      if p(xs[|xs| - 1]) then init + [|xs| - 1] else init
  }

  /** `r` is the subsequence of `xs` picked out by the ascending index list `idx`. */
  ghost predicate SubsequenceAt<T>(r: seq<T>, xs: seq<T>, idx: seq<nat>) {
    && |idx| == |r|
    && StrictlyIncreasing(idx)
    && forall k :: 0 <= k < |idx| ==> idx[k] < |xs| && r[k] == xs[idx[k]]
  }

  /** `xs` without position `i`; an index outside `xs` leaves it unchanged
      (the behaviour of both `filter((_, j) => j !== i)` and `splice(i, 1)` for `i >= 0`). */
  function RemoveAt<T>(xs: seq<T>, i: nat): (r: seq<T>)
    ensures i < |xs| ==> |r| == |xs| - 1
    ensures i < |xs| ==> forall k :: 0 <= k < i ==> r[k] == xs[k]
    ensures i < |xs| ==> forall k :: i <= k < |r| ==> r[k] == xs[k + 1]
    ensures |xs| <= i ==> r == xs
  {
    if i < |xs| then xs[..i] + xs[i + 1..] else xs
  }

  lemma FilterSnoc<T>(p: T -> bool, xs: seq<T>, x: T)
    ensures Filter(p, xs + [x]) == if p(x) then Filter(p, xs) + [x] else Filter(p, xs)
  {
    assert (xs + [x])[..|xs + [x]| - 1] == xs;
  }

  lemma PositionsSnoc<T>(p: T -> bool, xs: seq<T>, x: T)
    ensures Positions(p, xs + [x]) == if p(x) then Positions(p, xs) + [|xs|] else Positions(p, xs)
  {
    assert (xs + [x])[..|xs + [x]| - 1] == xs;
  }

  /** `Filter` keeps exactly the elements at `Positions`, in order. */
  lemma {:induction false} FilterAtPositions<T>(p: T -> bool, xs: seq<T>)
    ensures SubsequenceAt(Filter(p, xs), xs, Positions(p, xs))
    decreases |xs|
  {
    if xs != [] {
      var init := xs[..|xs| - 1];
      var x := xs[|xs| - 1];
      assert xs == init + [x];
      FilterAtPositions(p, init);
      FilterSnoc(p, init, x);
      PositionsSnoc(p, init, x);
    }
  }

  /** A filter whose predicate holds everywhere is the identity. */
  lemma {:induction false} FilterAll<T>(p: T -> bool, xs: seq<T>)
    requires forall i :: 0 <= i < |xs| ==> p(xs[i])
    ensures Filter(p, xs) == xs
    decreases |xs|
  {
    if xs != [] {
      var init, x := xs[..|xs| - 1], xs[|xs| - 1];
      assert xs == init + [x];
      FilterAll(p, init);
      FilterSnoc(p, init, x);
      assert p(x);
    }
  }

  /** Two successive filters are one filter by the conjunction. */
  lemma {:induction false} FilterFuse<T>(p: T -> bool, q: T -> bool, pq: T -> bool, xs: seq<T>)
    requires forall i :: 0 <= i < |xs| ==> pq(xs[i]) == (p(xs[i]) && q(xs[i]))
    ensures Filter(q, Filter(p, xs)) == Filter(pq, xs)
    decreases |xs|
  {
    if xs != [] {
      var init := xs[..|xs| - 1];
      var x := xs[|xs| - 1];
      assert xs == init + [x];
      FilterFuse(p, q, pq, init);
      FilterSnoc(p, init, x);
      FilterSnoc(pq, init, x);
      FilterSnoc(q, Filter(p, init), x);
    }
  }

  /** Positions depend only on the predicate's value at each index. */
  lemma {:induction false} PositionsCongruent<T, U>(p: T -> bool, xs: seq<T>, q: U -> bool, ys: seq<U>)
    requires |xs| == |ys|
    requires forall i :: 0 <= i < |xs| ==> p(xs[i]) == q(ys[i])
    ensures Positions(p, xs) == Positions(q, ys)
    decreases |xs|
  {
    if xs != [] {
      var n := |xs| - 1;
      PositionsCongruent(p, xs[..n], q, ys[..n]);
      PositionsSnoc(p, xs[..n], xs[n]);
      PositionsSnoc(q, ys[..n], ys[n]);
      assert xs == xs[..n] + [xs[n]];
      assert ys == ys[..n] + [ys[n]];
    }
  }

  lemma RemoveAtSnoc<T>(xs: seq<T>, x: T, j: nat)
    requires j < |xs|
    ensures RemoveAt(xs + [x], j) == RemoveAt(xs, j) + [x]
  {
    assert (xs + [x])[..j] == xs[..j];
    assert (xs + [x])[j + 1..] == xs[j + 1..] + [x];
  }

  lemma RemoveAtLast<T>(xs: seq<T>, x: T)
    ensures RemoveAt(xs + [x], |xs|) == xs
  {
    assert (xs + [x])[..|xs|] == xs;
  }

  /** Removing the stored element behind the `k`-th kept element removes exactly
      the `k`-th element of the filtered view. */
  lemma {:induction false} FilterRemoveAtPosition<T>(p: T -> bool, xs: seq<T>, k: nat)
    requires k < |Positions(p, xs)|
    ensures Filter(p, RemoveAt(xs, Positions(p, xs)[k])) == RemoveAt(Filter(p, xs), k)
    decreases |xs|
  {
    var n := |xs| - 1;
    var init, x := xs[..n], xs[n];
    assert xs == init + [x];
    PositionsSnoc(p, init, x);
    FilterSnoc(p, init, x);
    FilterAtPositions(p, init);
    var f := Filter(p, init);
    if k < |Positions(p, init)| {
      var j := Positions(p, init)[k];
      assert Positions(p, xs)[k] == j;
      FilterRemoveAtPosition(p, init, k);
      RemoveAtSnoc(init, x, j);
      FilterSnoc(p, RemoveAt(init, j), x);
      if p(x) {
        RemoveAtSnoc(f, x, k);
      }
    } else {
      assert p(x) && Positions(p, xs)[k] == n;
      RemoveAtLast(init, x);
      RemoveAtLast(f, x);
    }
  }

  /** The pointwise conjunction of two predicates. */
  function Both<T>(p: T -> bool, q: T -> bool): T -> bool {
    (x: T) => p(x) && q(x)
  }

  lemma BothHolds<T>(p: T -> bool, q: T -> bool, x: T)
    ensures Both(p, q)(x) == (p(x) && q(x))
  {
  }

  lemma FilterBoth<T>(p: T -> bool, q: T -> bool, xs: seq<T>)
    ensures Filter(q, Filter(p, xs)) == Filter(Both(p, q), xs)
  {
    FilterFuse(p, q, Both(p, q), xs);
  }

  /** Filtering distributes over concatenation. */
  lemma {:induction false} FilterAppend<T>(p: T -> bool, xs: seq<T>, ys: seq<T>)
    ensures Filter(p, xs + ys) == Filter(p, xs) + Filter(p, ys)
    decreases |ys|
  {
    if ys == [] {
      assert xs + ys == xs;
    } else {
      var init, y := ys[..|ys| - 1], ys[|ys| - 1];
      assert ys == init + [y];
      assert xs + ys == (xs + init) + [y];
      FilterAppend(p, xs, init);
      FilterSnoc(p, xs + init, y);
      FilterSnoc(p, init, y);
      var a, b := Filter(p, xs), Filter(p, init);
      if p(y) {
        calc {
          Filter(p, xs + ys);
          Filter(p, xs + init) + [y];
          (a + b) + [y];
          { assert (a + b) + [y] == a + (b + [y]); }
          a + Filter(p, ys);
        }
      } else {
        calc {
          Filter(p, xs + ys);
          Filter(p, xs + init);
          a + Filter(p, ys);
        }
      }
    }
  }

  /** When the predicate holds everywhere, the `k`-th kept position is `k`. */
  lemma {:induction false} PositionsAll<T>(p: T -> bool, xs: seq<T>)
    requires forall i :: 0 <= i < |xs| ==> p(xs[i])
    ensures |Positions(p, xs)| == |xs|
    ensures forall k :: 0 <= k < |xs| ==> Positions(p, xs)[k] == k
    decreases |xs|
  {
    if xs != [] {
      var init := xs[..|xs| - 1];
      PositionsAll(p, init);
      PositionsSnoc(p, init, xs[|xs| - 1]);
      assert xs == init + [xs[|xs| - 1]];
    }
  }
}
