/** The log-sum-exps of a row are spread over a power of two of lanes, which fold their own values
    and then exchange.  What every lane ends with is what one loop over all of them computes. */
module CombineLanes {
  import opened Arithmetic
  import opened Floats
  import opened OnlineSoftmax
  import opened Allreduce
  import opened Combine
  import opened Lanes

  /** Lane `t` of `w` folds the values at `t`, `t + w`, and so on. */
  function LaneFold(op: (Float, Float) -> Float, v: seq<Float>, w: nat, t: nat, rows: nat): Float
    requires 0 < rows && t < w && rows * w <= |v|
    decreases rows
  {
    Place(w, t, rows - 1);
    if rows == 1 then v[t] else op(LaneFold(op, v, w, t, rows - 1), v[(rows - 1) * w + t])
  }

  lemma Place(w: nat, t: nat, row: nat)
    requires t < w
    ensures 0 <= row * w && row * w + t < (row + 1) * w == row * w + w
  {
  }

  lemma {:induction false} ReduceSame(op: (Float, Float) -> Float, x: seq<Float>, a: nat, y: seq<Float>, b: nat, n: nat)
    requires 0 < n && a + n <= |x| && b + n <= |y|
    requires forall i :: a <= i < a + n ==> x[i] == y[b + (i - a)]
    ensures Reduce(op, x, a, n) == Reduce(op, y, b, n)
    decreases n
  {
    assert x[a + n - 1] == y[b + (n - 1)];
    if n > 1 {
      ReduceSame(op, x, a, y, b, n - 1);
    }
  }

  function LaneFolds(op: (Float, Float) -> Float, v: seq<Float>, w: nat, rows: nat): (y: seq<Float>)
    requires 0 < rows && rows * w <= |v|
    ensures |y| == w
  {
    seq(w, t requires 0 <= t < w => LaneFold(op, v, w, t, rows))
  }

  /** Folding lane by lane and then across the lanes folds all the values. */
  lemma {:induction false} LanesFoldAll(op: (Float, Float) -> Float, v: seq<Float>, w: nat, rows: nat)
    requires Associative(op) && Commutative(op) && 0 < w && 0 < rows && rows * w <= |v|
    ensures rows * w > 0 && Reduce(op, LaneFolds(op, v, w, rows), 0, w) == Reduce(op, v, 0, rows * w)
    decreases rows
  {
    hide Associative, Commutative, Reduce;
    Place(w, 0, rows - 1);
    var y := LaneFolds(op, v, w, rows);
    if rows == 1 {
      ReduceSame(op, y, 0, v, 0, w);
    } else {
      var last := (rows - 1) * w;
      LanesFoldAll(op, v, w, rows - 1);
      var x := LaneFolds(op, v, w, rows - 1) + v;
      forall t | 0 <= t < w
        ensures y[t] == op(x[t], x[w + last + t])
      {
        Place(w, t, rows - 1);
      }
      ReducePairs(op, x, y, 0, w + last, 0, w);
      ReduceSame(op, x, 0, LaneFolds(op, v, w, rows - 1), 0, w);
      ReduceSame(op, x, w + last, v, last, w);
      ReduceSplit(op, v, 0, last, w);
    }
  }

  // ---------------------------------------------------------------- the two folds

  lemma {:induction false} FoldMaxSnoc(acc: Float, s: seq<Float>, x: Float)
    ensures FoldMax(acc, s + [x]) == Max(FoldMax(acc, s), x)
    decreases |s|
  {
    hide Max;
    if s == [] {
      assert [x][1..] == [];
      assert s + [x] == [x];
    } else {
      assert (s + [x])[1..] == s[1..] + [x];
      FoldMaxSnoc(Max(acc, s[0]), s[1..], x);
    }
  }

  lemma {:induction false} FoldMaxReduces(l: seq<Float>, n: nat)
    requires 0 < n <= |l|
    ensures FoldMax(l[0], l[1..n]) == Reduce(Max, l, 0, n)
    decreases n
  {
    hide Max;
    if n > 1 {
      FoldMaxReduces(l, n - 1);
      FoldMaxSnoc(l[0], l[1..n - 1], l[n - 1]);
      assert l[1..n] == l[1..n - 1] + [l[n - 1]];
    } else {
      assert l[1..n] == [];
    }
  }

  /** The exponentials whose sum is taken. */
  function Exps(f: Fns, l: seq<Float>, max: Float): (e: seq<Float>)
    ensures |e| == |l|
  {
    seq(|l|, i requires 0 <= i < |l| => ExpF(f, Sub(l[i], max)))
  }

  lemma {:induction false} FoldExpSnoc(f: Fns, acc: Float, s: seq<Float>, x: Float, max: Float)
    ensures FoldExp(f, acc, s + [x], max) == Add(FoldExp(f, acc, s, max), ExpF(f, Sub(x, max)))
    decreases |s|
  {
    hide Add, ExpF, Sub;
    if s == [] {
      assert [x][1..] == [];
      assert s + [x] == [x];
    } else {
      assert (s + [x])[1..] == s[1..] + [x];
      FoldExpSnoc(f, Add(acc, ExpF(f, Sub(s[0], max))), s[1..], x, max);
    }
  }

  lemma {:induction false} FoldExpReduces(f: Fns, l: seq<Float>, max: Float, n: nat)
    requires 0 < n <= |l|
    ensures FoldExp(f, ExpF(f, Sub(l[0], max)), l[1..n], max) == Reduce(Add, Exps(f, l, max), 0, n)
    decreases n
  {
    hide Add, ExpF, Sub;
    if n > 1 {
      FoldExpReduces(f, l, max, n - 1);
      FoldExpSnoc(f, ExpF(f, Sub(l[0], max)), l[1..n - 1], l[n - 1], max);
      assert l[1..n] == l[1..n - 1] + [l[n - 1]];
    } else {
      assert l[1..n] == [];
    }
  }

  // ---------------------------------------------------------------- across the lanes

  /** The first lane of the aligned group of a lane. */
  function GroupOf(lane: nat, w: nat): nat
    requires w > 0
  {
    MulMonotone(0, lane / w, w);
    lane / w * w
  }

  /** The lanes of the group from lane `base` on hold the folds of `v`; what the other lanes hold
      does not matter. */
  ghost predicate GroupHolds(op: (Float, Float) -> Float, x: seq<Float>, base: nat, v: seq<Float>, w: nat, rows: nat) {
    && base + w <= |x| && 0 < rows && |v| == rows * w
    && forall i :: base <= i < base + w ==> x[i] == LaneFold(op, v, w, i - base, rows)
  }

  lemma GroupFolds(op: (Float, Float) -> Float, x: seq<Float>, base: nat, v: seq<Float>, w: nat, rows: nat)
    requires Associative(op) && Commutative(op) && GroupHolds(op, x, base, v, w, rows) && w > 0
    ensures v != [] && Reduce(op, x, base, w) == Reduce(op, v, 0, |v|)
  {
    hide Reduce, Associative, Commutative;
    LanesFoldAll(op, v, w, rows);
    ReduceSame(op, x, base, LaneFolds(op, v, w, rows), 0, w);
  }

  lemma GroupReduced(op: (Float, Float) -> Float, x: seq<Float>, k: nat, lane: nat, v: seq<Float>, rows: nat)
    requires Associative(op) && Commutative(op) && |x| % Pow2(k) == 0 && lane < |x|
    requires GroupHolds(op, x, GroupOf(lane, Pow2(k)), v, Pow2(k), rows)
    ensures v != [] && Run(op, x, k)[lane] == Reduce(op, v, 0, |v|)
  {
    hide Associative, Commutative, Reduce, Run, Pow2, GroupHolds;
    AllLanesReduced(op, x, k, lane);
    GroupFolds(op, x, GroupOf(lane, Pow2(k)), v, Pow2(k), rows);
  }

  /** Every lane of a row's group ends with the maximum that one loop over the row's slots finds. */
  lemma MaxOverSlots(x: seq<Float>, k: nat, lane: nat, l: seq<Float>, rows: nat)
    requires |x| % Pow2(k) == 0 && lane < |x| && GroupHolds(Max, x, GroupOf(lane, Pow2(k)), l, Pow2(k), rows)
    ensures l != [] && LseMax(l) == var m := Run(Max, x, k)[lane]; if m == NegInf then Fin(0.0) else m
  {
    hide Associative, Commutative, Reduce, Run, Max, GroupHolds, Pow2, GroupOf;
    MaxLaws();
    GroupReduced(Max, x, k, lane, l, rows);
    FoldMaxReduces(l, |l|);
    assert l[1..|l|] == l[1..];
  }

  /** And with the sum of the exponentials that one loop adds up. */
  lemma SumOverSlots(f: Fns, x: seq<Float>, k: nat, lane: nat, l: seq<Float>, max: Float, rows: nat)
    requires |x| % Pow2(k) == 0 && lane < |x|
    requires GroupHolds(Add, x, GroupOf(lane, Pow2(k)), Exps(f, l, max), Pow2(k), rows)
    ensures l != [] && Run(Add, x, k)[lane] == LseSum(f, l, max)
  {
    hide Associative, Commutative, Reduce, Run, Add, ExpF, Sub, Exps, GroupHolds, Pow2, GroupOf;
    AddLaws();
    GroupReduced(Add, x, k, lane, Exps(f, l, max), rows);
    FoldExpReduces(f, l, max, |l|);
    assert l[1..|l|] == l[1..];
  }
}
