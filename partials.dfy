/** The `(gc_sum, total_unique)` pairs a region worker hands back, how
    `calculate_mean_gc` folds them, and the final division. */
module Partials {

  /** One region's result: the sum of the GC fractions of its valid reads and
      how many valid reads there were. Sums are exact reals here. */
  datatype Partial = Partial(gcSum: real, count: nat)

  /** The accumulator before any region has reported. */
  const Empty := Partial(0.0, 0)

  /** One `+=` step of the fold, on both accumulators at once. */
  function Combine(acc: Partial, p: Partial): (r: Partial)
  {
    Partial(acc.gcSum + p.gcSum, acc.count + p.count)
  }

  /** The folded value of a list of partials taken in list order. */
  function Total(ps: seq<Partial>): (t: Partial)
  {
    if ps == [] then Empty
    else Combine(Total(ps[..|ps| - 1]), ps[|ps| - 1])
  }

  /** A partial whose sum is a sum of fractions in [0, 1] over `count` reads. */
  predicate Bounded(p: Partial) {
    0.0 <= p.gcSum <= p.count as real
  }

  lemma CombineCommutes(a: Partial, b: Partial)
    ensures Combine(a, b) == Combine(b, a)
  {
  }

  lemma CombineAssociates(a: Partial, b: Partial, c: Partial)
    ensures Combine(Combine(a, b), c) == Combine(a, Combine(b, c))
  {
  }

  /** Folding a concatenation combines the folds of the two parts. */
  lemma {:induction false} TotalAppend(a: seq<Partial>, b: seq<Partial>)
    ensures Total(a + b) == Combine(Total(a), Total(b))
    decreases |b|
  {
    if b == [] {
      assert a + b == a;
      assert Total(b) == Empty;
      var ta := Total(a);
      assert Combine(ta, Empty) == ta;
      assert Total(a + b) == ta;
    } else {
      var b', y := b[..|b| - 1], b[|b| - 1];
      assert (a + b)[..|a + b| - 1] == a + b';
      assert (a + b)[|a + b| - 1] == y;
      TotalAppend(a, b');
      var ta, tb', tab' := Total(a), Total(b'), Total(a + b');
      assert Total(a + b) == Combine(tab', y);
      assert Total(b) == Combine(tb', y);
      assert Combine(tab', y) == Combine(ta, Combine(tb', y));
    }
  }

  /** Where the last element of `a` sits in a permutation `b` of `a`, and
      what remains of both once it is taken out. */
  lemma MatchLast<T>(a: seq<T>, b: seq<T>) returns (j: nat)
    requires |a| > 0 && multiset(a) == multiset(b)
    ensures j < |b| && b[j] == a[|a| - 1]
    ensures b == b[..j] + [b[j]] + b[j + 1..]
    ensures multiset(a[..|a| - 1]) == multiset(b[..j] + b[j + 1..])
  {
    var x := a[|a| - 1];
    assert a == a[..|a| - 1] + [x];
    assert x in multiset(b);
    j :| 0 <= j < |b| && b[j] == x;
    var left, right := b[..j], b[j + 1..];
    assert b == left + [x] + right;
    calc {
      multiset(a[..|a| - 1]);
      multiset(a) - multiset{x};
      multiset(b) - multiset{x};
      multiset(left) + multiset(right);
      multiset(left + right);
    }
  }

  /** The arrival order does not matter: every permutation of the partials
      folds to the same sums. */
  lemma {:induction false} TotalPermutation(a: seq<Partial>, b: seq<Partial>)
    requires multiset(a) == multiset(b)
    ensures Total(a) == Total(b)
    decreases |a|
  {
    if a == [] {
      assert |b| == |multiset(b)| == 0;
    } else {
      var j := MatchLast(a, b);
      var x, a', left, right := a[|a| - 1], a[..|a| - 1], b[..j], b[j + 1..];
      TotalPermutation(a', left + right);
      TotalAppend(left, right);
      TotalAppend(left + [x], right);
      assert (left + [x])[..|left|] == left;
      var tl, tr, ta' := Total(left), Total(right), Total(a');
      assert Total(a) == Combine(ta', x);
      assert ta' == Combine(tl, tr);
      assert Total(left + [x]) == Combine(tl, x);
      assert Total(b) == Combine(Combine(tl, x), tr);
      assert Combine(Combine(tl, tr), x) == Combine(Combine(tl, x), tr);
    }
  }

  /** Folding partials that are each bounded gives a bounded total. */
  lemma {:induction false} TotalBounded(ps: seq<Partial>)
    requires forall k :: 0 <= k < |ps| ==> Bounded(ps[k])
    ensures Bounded(Total(ps))
    decreases |ps|
  {
    if ps != [] {
      TotalBounded(ps[..|ps| - 1]);
    }
  }

  /** `gc_sum / total_unique` in `calculate_mean_gc`: unguarded, so defined
      only for a positive count; a bounded total gives a mean in [0, 1]. */
  function Mean(t: Partial): (mean: real)
    requires t.count > 0
    ensures Bounded(t) ==> 0.0 <= mean <= 1.0
  {
    t.gcSum / t.count as real
  }

  /** `as_completed` yields every submitted future exactly once, in some
      order: the order is a permutation of the submission indices. */
  function Indices(n: nat): (ix: seq<nat>)
  {
    seq(n, k => k)
  }

  /** The elements of `xs` in the order given by `order`. */
  function Picked<T>(xs: seq<T>, order: seq<nat>): (ys: seq<T>)
    requires forall k :: 0 <= k < |order| ==> order[k] < |xs|
  {
    seq(|order|, k requires 0 <= k < |order| => xs[order[k]])
  }

  lemma PickedAppend<T>(xs: seq<T>, a: seq<nat>, b: seq<nat>)
    requires forall k :: 0 <= k < |a| ==> a[k] < |xs|
    requires forall k :: 0 <= k < |b| ==> b[k] < |xs|
    ensures Picked(xs, a + b) == Picked(xs, a) + Picked(xs, b)
  {
  }

  /** Taking the elements in two orders that are permutations of each other
      yields two permutations of each other. */
  lemma {:induction false} PickedPermutation<T>(xs: seq<T>, a: seq<nat>, b: seq<nat>)
    requires forall k :: 0 <= k < |a| ==> a[k] < |xs|
    requires multiset(a) == multiset(b)
    ensures forall k :: 0 <= k < |b| ==> b[k] < |xs|
    ensures multiset(Picked(xs, a)) == multiset(Picked(xs, b))
    decreases |a|
  {
    forall k | 0 <= k < |b| ensures b[k] < |xs| {
      assert b[k] in multiset(a);
    }
    if a == [] {
      assert |b| == |multiset(b)| == 0;
    } else {
      var j := MatchLast(a, b);
      var x, a', left, right := a[|a| - 1], a[..|a| - 1], b[..j], b[j + 1..];
      assert a == a' + [x];
      PickedPermutation(xs, a', left + right);
      PickedAppend(xs, a', [x]);
      PickedAppend(xs, left + [x], right);
      PickedAppend(xs, left, [x]);
      PickedAppend(xs, left, right);
      var pl, pr, px := Picked(xs, left), Picked(xs, right), Picked(xs, [x]);
      assert Picked(xs, a) == Picked(xs, a') + px;
      assert Picked(xs, b) == pl + px + pr;
      assert multiset(Picked(xs, a')) == multiset(pl + pr);
      assert multiset(Picked(xs, a)) == multiset(pl) + multiset(pr) + multiset(px);
    }
  }

  /** Any completion order folds to the same totals as submission order. */
  lemma CompletionOrderIrrelevant(ps: seq<Partial>, order: seq<nat>)
    requires multiset(order) == multiset(Indices(|ps|))
    ensures forall k :: 0 <= k < |order| ==> order[k] < |ps|
    ensures Total(Picked(ps, order)) == Total(ps)
  {
    var ix := Indices(|ps|);
    PickedPermutation(ps, ix, order);
    assert Picked(ps, ix) == ps;
    TotalPermutation(Picked(ps, order), ps);
  }
}
