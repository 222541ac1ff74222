/** The online softmax of one query row: key columns are taken in block by block, with a
    running maximum, a running sum and a running output that are rescaled as the maximum
    grows.  It is proved to agree with a softmax that knows nothing of blocks or maxima. */
module OnlineSoftmax {
  import opened Floats

  /** Scores, values and mask of an attention head; rows are queries and columns are keys.
      `scaleLog2` is the product of the softmax scale and `log2e`, as the kernels get it. */
  datatype Problem = Problem(
    f: Fns,
    scale: real,
    scaleLog2: real,
    score: (int, int) -> real,
    value: (int, int) -> real,
    visible: (int, int) -> bool)

  ghost predicate WellPosed(p: Problem) {
    Lawful(p.f) && p.scale > 0.0 && p.scaleLog2 > 0.0 && p.scaleLog2 == Times(p.scale, p.f.log2e)
  }

  // ---------------------------------------------------------------- the direct softmax

  function Weight(p: Problem, row: int, col: int): real {
    if p.visible(row, col) then p.f.exp2(Times(p.score(row, col), p.scaleLog2)) else 0.0
  }

  /** The weight is the exponential of the scaled score: base two and `log2e` are an optimisation. */
  lemma WeightIsExp(p: Problem, row: int, col: int)
    requires WellPosed(p) && p.visible(row, col)
    ensures Weight(p, row, col) == p.f.Exp(Times(p.score(row, col), p.scale))
  {
    Associate(p.score(row, col), p.scale, p.f.log2e, p.scaleLog2);
  }

  /** The softmax denominator over the columns from `lo` up to `hi`. */
  ghost function Mass(p: Problem, row: int, lo: int, hi: int): real
    decreases hi - lo
  {
    if lo >= hi then 0.0 else Weight(p, row, lo) + Mass(p, row, lo + 1, hi)
  }

  /** The softmax numerator for output column `d`. */
  ghost function Weighted(p: Problem, row: int, d: int, lo: int, hi: int): real
    decreases hi - lo
  {
    if lo >= hi then 0.0 else Times(Weight(p, row, lo), p.value(lo, d)) + Weighted(p, row, d, lo + 1, hi)
  }

  ghost predicate AnyVisible(p: Problem, row: int, lo: int, hi: int) {
    exists col :: lo <= col < hi && p.visible(row, col)
  }

  /** The output of the softmax over `[lo, hi)`; zero when every column is masked. */
  ghost function SoftmaxOut(p: Problem, row: int, d: int, lo: int, hi: int): real {
    if Mass(p, row, lo, hi) == 0.0 then 0.0 else Weighted(p, row, d, lo, hi) / Mass(p, row, lo, hi)
  }

  /** Its log-sum-exp; what stands for the empty sum depends on who reads it. */
  ghost function SoftmaxLse(p: Problem, row: int, lo: int, hi: int, empty: Float): Float {
    if Mass(p, row, lo, hi) == 0.0 then empty else Fin(p.f.ln(Mass(p, row, lo, hi)))
  }

  lemma {:induction false} MassSplit(p: Problem, row: int, lo: int, mid: int, hi: int)
    requires lo <= mid <= hi
    ensures Mass(p, row, lo, hi) == Mass(p, row, lo, mid) + Mass(p, row, mid, hi)
    decreases mid - lo
  {
    if lo < mid {
      MassSplit(p, row, lo + 1, mid, hi);
    }
  }

  lemma {:induction false} WeightedSplit(p: Problem, row: int, d: int, lo: int, mid: int, hi: int)
    requires lo <= mid <= hi
    ensures Weighted(p, row, d, lo, hi) == Weighted(p, row, d, lo, mid) + Weighted(p, row, d, mid, hi)
    decreases mid - lo
  {
    if lo < mid {
      WeightedSplit(p, row, d, lo + 1, mid, hi);
    }
  }

  /** A masked stretch of columns contributes nothing. */
  lemma {:induction false} NothingVisible(p: Problem, row: int, d: int, lo: int, hi: int)
    requires !AnyVisible(p, row, lo, hi)
    ensures Mass(p, row, lo, hi) == 0.0 && Weighted(p, row, d, lo, hi) == 0.0
    decreases hi - lo
  {
    if lo < hi {
      assert !p.visible(row, lo);
      NothingVisible(p, row, d, lo + 1, hi);
    }
  }

  lemma {:induction false} MassNonNegative(p: Problem, row: int, lo: int, hi: int)
    requires Lawful(p.f)
    ensures Mass(p, row, lo, hi) >= 0.0
    decreases hi - lo
  {
    if lo < hi {
      MassNonNegative(p, row, lo + 1, hi);
    }
  }

  /** The denominator is zero exactly when every column is masked. */
  lemma {:induction false} MassPositive(p: Problem, row: int, lo: int, hi: int)
    requires Lawful(p.f)
    ensures Mass(p, row, lo, hi) > 0.0 <==> AnyVisible(p, row, lo, hi)
    ensures Mass(p, row, lo, hi) >= 0.0
    decreases hi - lo
  {
    if lo < hi {
      MassPositive(p, row, lo + 1, hi);
      if AnyVisible(p, row, lo, hi) && !p.visible(row, lo) {
        var col :| lo <= col < hi && p.visible(row, col);
        assert lo + 1 <= col;
      }
    }
  }

  /** Masked columns on either side of a range do not count. */
  lemma SkipMasked(p: Problem, row: int, d: int, lo: int, lo1: int, hi1: int, hi: int)
    requires lo <= lo1 <= hi1 <= hi
    requires !AnyVisible(p, row, lo, lo1) && !AnyVisible(p, row, hi1, hi)
    ensures Mass(p, row, lo, hi) == Mass(p, row, lo1, hi1)
    ensures Weighted(p, row, d, lo, hi) == Weighted(p, row, d, lo1, hi1)
  {
    MassSplit(p, row, lo, lo1, hi);
    MassSplit(p, row, lo1, hi1, hi);
    WeightedSplit(p, row, d, lo, lo1, hi);
    WeightedSplit(p, row, d, lo1, hi1, hi);
    NothingVisible(p, row, d, lo, lo1);
    NothingVisible(p, row, d, hi1, hi);
  }

  /** Two ranges with the same visible columns have the same softmax. */
  lemma SameColumns(p: Problem, row: int, d: int, lo: int, hi: int, lo1: int, hi1: int)
    requires forall col :: p.visible(row, col) ==> (lo <= col < hi <==> lo1 <= col < hi1)
    ensures Mass(p, row, lo, hi) == Mass(p, row, lo1, hi1)
    ensures Weighted(p, row, d, lo, hi) == Weighted(p, row, d, lo1, hi1)
  {
    if AnyVisible(p, row, lo, hi) {
      var lo2, hi2 := if lo <= lo1 then lo1 else lo, if hi <= hi1 then hi else hi1;
      var col :| lo <= col < hi && p.visible(row, col);
      assert lo2 <= col < hi2;
      SkipMasked(p, row, d, lo, lo2, hi2, hi);
      SkipMasked(p, row, d, lo1, lo2, hi2, hi1);
    } else {
      NothingVisible(p, row, d, lo, hi);
      NothingVisible(p, row, d, lo1, hi1);
    }
  }

  // ---------------------------------------------------------------- the steps of the kernel

  function FoldMax(acc: Float, s: seq<Float>): Float
    decreases |s|
  {
    if s == [] then acc else FoldMax(Max(acc, s[0]), s[1..])
  }

  function FoldSum(acc: Float, s: seq<Float>): Float
    decreases |s|
  {
    if s == [] then acc else FoldSum(Add(acc, s[0]), s[1..])
  }

  /** The scaled maximum that is subtracted; zero instead of minus infinity. */
  function MaxScaled(max: Float, scaleLog2: real): Float {
    if max == NegInf then Fin(0.0) else Mul(max, Fin(scaleLog2))
  }

  function ScaleExponent(x: Float, max: Float, scaleLog2: real): Float {
    Sub(Mul(x, Fin(scaleLog2)), MaxScaled(max, scaleLog2))
  }

  function ScaleExp(f: Fns, x: Float, max: Float, scaleLog2: real): Float {
    Exp2(f, ScaleExponent(x, max, scaleLog2))
  }

  function RescaleExponent(prev: Float, cur: Float, checkInf: bool, scaleLog2: real): Float {
    var safe := if checkInf && cur == NegInf then Fin(0.0) else cur;
    Mul(Sub(prev, safe), Fin(scaleLog2))
  }

  /** The factor by which the running sum and output are rescaled. */
  function RescaleFactor(f: Fns, prev: Float, cur: Float, checkInf: bool, scaleLog2: real): Float {
    Exp2(f, RescaleExponent(prev, cur, checkInf, scaleLog2))
  }

  function ScaleExpRow(f: Fns, s: seq<Float>, max: Float, scaleLog2: real): (probs: seq<Float>)
    ensures |probs| == |s|
    ensures forall k :: 0 <= k < |s| ==> probs[k] == ScaleExp(f, s[k], max, scaleLog2)
  {
    seq(|s|, k requires 0 <= k < |s| => ScaleExp(f, s[k], max, scaleLog2))
  }

  /** One output entry of the second product: `acc` plus the probabilities times a column of values. */
  function FoldDot(acc: Float, probs: seq<Float>, value: (int, int) -> real, col: int, d: int): Float
    decreases |probs|
  {
    if probs == [] then acc
    else FoldDot(Add(acc, Mul(probs[0], Fin(value(col, d)))), probs[1..], value, col + 1, d)
  }

  /** A row of masked scores, starting at column `col`. */
  ghost predicate ScoresOf(p: Problem, row: int, col: int, s: seq<Float>) {
    forall k :: 0 <= k < |s| ==>
      s[k] == if p.visible(row, col + k) then Fin(p.score(row, col + k)) else NegInf
  }

  // ---------------------------------------------------------------- what the state stands for

  /** The largest visible score of `[lo, hi)` is `m`. */
  ghost predicate IsTop(p: Problem, row: int, lo: int, hi: int, m: real) {
    && (exists col :: lo <= col < hi && p.visible(row, col) && p.score(row, col) == m)
    && (forall col :: lo <= col < hi && p.visible(row, col) ==> p.score(row, col) <= m)
  }

  ghost predicate MaxOf(p: Problem, row: int, lo: int, hi: int, max: Float) {
    if AnyVisible(p, row, lo, hi) then max.Fin? && IsTop(p, row, lo, hi, max.r) else max == NegInf
  }

  /** The factor by which stored sums are smaller than the direct ones. */
  function Unit(p: Problem, max: Float): real {
    if max.Fin? then p.f.exp2(-Times(max.r, p.scaleLog2)) else 1.0
  }

  /** The running state stands for the softmax over `[lo, hi)`. */
  ghost predicate SumOf(p: Problem, row: int, lo: int, hi: int, max: Float, sum: Float) {
    sum == Fin(Times(Mass(p, row, lo, hi), Unit(p, max)))
  }

  ghost predicate OutOf(p: Problem, row: int, lo: int, hi: int, max: Float, d: int, o: Float) {
    o == Fin(Times(Weighted(p, row, d, lo, hi), Unit(p, max)))
  }

  // ---------------------------------------------------------------- the maximum

  /** Folding the scores of `[col, col + |s|)` into the maximum of `[lo, col)`, in column order;
      `acc` may also be the maximum of any other set of columns, given as an upper range. */
  lemma {:induction false} FoldMaxExact(p: Problem, row: int, lo: int, col: int, s: seq<Float>, hi: int, hi1: int,
                                        acc: Float)
    requires ScoresOf(p, row, col, s) && lo <= col && col + |s| <= hi <= hi1
    requires MaxOfTwo(p, row, lo, col, hi, hi1, acc)
    ensures MaxOfTwo(p, row, lo, col + |s|, hi, hi1, FoldMax(acc, s))
    decreases |s|
  {
    if s != [] {
      MaxStep(p, row, lo, col, hi, hi1, acc, s[0]);
      FoldMaxExact(p, row, lo, col + 1, s[1..], hi, hi1, Max(acc, s[0]));
    }
  }

  /** `max` is the largest visible score of `[lo, mid)` and `[hi, hi1)` together. */
  ghost predicate MaxOfTwo(p: Problem, row: int, lo: int, mid: int, hi: int, hi1: int, max: Float) {
    if AnyVisible(p, row, lo, mid) || AnyVisible(p, row, hi, hi1) then
      && max.Fin?
      && (exists col :: (lo <= col < mid || hi <= col < hi1) && p.visible(row, col) && p.score(row, col) == max.r)
      && (forall col :: (lo <= col < mid || hi <= col < hi1) && p.visible(row, col) ==> p.score(row, col) <= max.r)
    else max == NegInf
  }

  lemma MaxStep(p: Problem, row: int, lo: int, mid: int, hi: int, hi1: int, acc: Float, x: Float)
    requires MaxOfTwo(p, row, lo, mid, hi, hi1, acc) && lo <= mid < hi <= hi1
    requires x == if p.visible(row, mid) then Fin(p.score(row, mid)) else NegInf
    ensures MaxOfTwo(p, row, lo, mid + 1, hi, hi1, Max(acc, x))
  {
  }

  /** The maximum after a block: of the block alone, or of the block and all later columns. */
  lemma MaxAfterBlock(p: Problem, row: int, lo: int, mid: int, hi: int, s: seq<Float>, prev: Float)
    requires ScoresOf(p, row, lo, s) && mid == lo + |s| && mid <= hi && MaxOf(p, row, mid, hi, prev)
    ensures MaxOf(p, row, lo, hi, FoldMax(prev, s))
  {
    assert !AnyVisible(p, row, lo, lo);
    FoldMaxExact(p, row, lo, lo, s, mid, hi, prev);
    assert AnyVisible(p, row, lo, hi) <==> AnyVisible(p, row, lo, mid) || AnyVisible(p, row, mid, hi);
  }

  // ---------------------------------------------------------------- exponents

  lemma TopBound(p: Problem, row: int, lo: int, hi: int, max: Float, col: int)
    requires MaxOf(p, row, lo, hi, max) && lo <= col < hi && p.visible(row, col)
    ensures max.Fin? && p.score(row, col) <= max.r
  {
    assert AnyVisible(p, row, lo, hi);
  }

  lemma TopKind(p: Problem, row: int, lo: int, hi: int, max: Float)
    requires MaxOf(p, row, lo, hi, max)
    ensures if AnyVisible(p, row, lo, hi) then max.Fin? else max == NegInf
  {
  }

  /** The maximum does not go down when columns are added. */
  lemma TopGrows(p: Problem, row: int, lo: int, mid: int, hi: int, prev: Float, cur: Float)
    requires lo <= mid && MaxOf(p, row, mid, hi, prev) && MaxOf(p, row, lo, hi, cur) && AnyVisible(p, row, mid, hi)
    ensures AnyVisible(p, row, lo, hi) && prev.Fin? && cur.Fin? && prev.r <= cur.r
  {
    var col :| mid <= col < hi && p.visible(row, col) && p.score(row, col) == prev.r;
    assert AnyVisible(p, row, lo, hi);
  }

  lemma ScaleExponentFin(x: real, max: real, c: real)
    ensures ScaleExponent(Fin(x), Fin(max), c) == Fin(Times(x, c) - Times(max, c))
  {
    hide Times;
  }

  lemma ScaleExponentMasked(max: Float, c: real)
    requires c > 0.0 && (max.Fin? || max.NegInf?)
    ensures ScaleExponent(NegInf, max, c) == NegInf
  {
    MulNegInf(c);
    hide Times, Sign;
  }

  lemma RescaleExponentFin(prev: real, cur: real, checkInf: bool, c: real)
    ensures RescaleExponent(Fin(prev), Fin(cur), checkInf, c) == Fin(Times(prev - cur, c))
  {
    hide Times;
  }

  lemma RescaleExponentNone(cur: Float, checkInf: bool, c: real)
    requires c > 0.0 && (cur.Fin? || cur.NegInf?)
    ensures RescaleExponent(NegInf, cur, checkInf, c) == if checkInf || cur.Fin? then NegInf else NaN
  {
    MulNegInf(c);
    hide Times, Sign;
  }

  // ---------------------------------------------------------------- probabilities and sums

  /** Each entry becomes its softmax weight, in units of the maximum. */
  lemma ProbExact(p: Problem, row: int, col: int, x: Float, lo: int, hi: int, max: Float)
    requires WellPosed(p) && lo <= col < hi && MaxOf(p, row, lo, hi, max)
    requires x == if p.visible(row, col) then Fin(p.score(row, col)) else NegInf
    ensures ScaleExp(p.f, x, max, p.scaleLog2) == Fin(Times(Weight(p, row, col), Unit(p, max)))
  {
    hide Lawful, MaxOf, AnyVisible, ScaleExponent, Times;
    var c := p.scaleLog2;
    TopKind(p, row, lo, hi, max);
    if p.visible(row, col) {
      TopBound(p, row, lo, hi, max, col);
      ScaleExponentFin(x.r, max.r, c);
      ExpAdd(p.f, Times(x.r, c), -Times(max.r, c), Times(x.r, c) - Times(max.r, c));
    } else {
      ScaleExponentMasked(max, c);
      TimesZero(Unit(p, max));
    }
  }

  /** No exponent is positive, so a weight is at most one in units of the maximum. */
  lemma ProbBounded(p: Problem, row: int, col: int, x: Float, lo: int, hi: int, max: Float)
    requires WellPosed(p) && lo <= col < hi && MaxOf(p, row, lo, hi, max)
    requires x == if p.visible(row, col) then Fin(p.score(row, col)) else NegInf
    ensures NotPositive(ScaleExponent(x, max, p.scaleLog2))
    ensures AtMostOne(ScaleExp(p.f, x, max, p.scaleLog2))
  {
    hide Lawful, MaxOf, AnyVisible, ScaleExponent, Times;
    var c := p.scaleLog2;
    TopKind(p, row, lo, hi, max);
    if p.visible(row, col) {
      TopBound(p, row, lo, hi, max, col);
      ScaleExponentFin(x.r, max.r, c);
      TimesMonotone(x.r, max.r, c);
      ExpAtMostOne(p.f, Times(x.r, c) - Times(max.r, c));
    } else {
      ScaleExponentMasked(max, c);
    }
  }

  /** A row of probabilities in units of `u`. */
  ghost predicate ProbsOf(p: Problem, row: int, col: int, probs: seq<Float>, u: real) {
    forall k :: 0 <= k < |probs| ==> probs[k] == Fin(Times(Weight(p, row, col + k), u))
  }

  lemma ProbsTail(p: Problem, row: int, col: int, probs: seq<Float>, u: real)
    requires ProbsOf(p, row, col, probs, u) && probs != []
    ensures ProbsOf(p, row, col + 1, probs[1..], u) && probs[0] == Fin(Times(Weight(p, row, col), u))
  {
    hide Times, Weight;
    assert probs[0] == Fin(Times(Weight(p, row, col + 0), u));
    forall k | 0 <= k < |probs[1..]|
      ensures probs[1..][k] == Fin(Times(Weight(p, row, col + 1 + k), u))
    {
      assert probs[1 + k] == Fin(Times(Weight(p, row, col + (1 + k)), u));
    }
  }

  lemma {:induction false} FoldSumExact(p: Problem, row: int, col: int, probs: seq<Float>, u: real, a: real)
    requires ProbsOf(p, row, col, probs, u)
    ensures FoldSum(Fin(a), probs) == Fin(a + Times(Mass(p, row, col, col + |probs|), u))
    decreases |probs|
  {
    hide Times, Weight, ProbsOf;
    if probs == [] {
      TimesZero(u);
    } else {
      ProbsTail(p, row, col, probs, u);
      var hi := col + |probs|;
      var w, rest := Weight(p, row, col), Mass(p, row, col + 1, hi);
      FoldSumExact(p, row, col + 1, probs[1..], u, a + Times(w, u));
      assert col + 1 + |probs[1..]| == hi;
      Distribute(w, rest, w + rest, u);
    }
  }

  lemma {:induction false} FoldDotExact(p: Problem, row: int, col: int, d: int, probs: seq<Float>, u: real, a: real)
    requires ProbsOf(p, row, col, probs, u)
    ensures FoldDot(Fin(a), probs, p.value, col, d) == Fin(a + Times(Weighted(p, row, d, col, col + |probs|), u))
    decreases |probs|
  {
    hide Times, Weight, ProbsOf;
    if probs == [] {
      TimesZero(u);
    } else {
      ProbsTail(p, row, col, probs, u);
      var hi := col + |probs|;
      var w, v, rest := Weight(p, row, col), p.value(col, d), Weighted(p, row, d, col + 1, hi);
      TimesReorder(w, u, v);
      FoldDotExact(p, row, col + 1, d, probs[1..], u, a + Times(Times(w, v), u));
      assert col + 1 + |probs[1..]| == hi;
      Distribute(Times(w, v), rest, Times(w, v) + rest, u);
    }
  }

  lemma TimesReorder(w: real, u: real, v: real)
    ensures Times(Times(w, u), v) == Times(Times(w, v), u)
  {
  }

  // ---------------------------------------------------------------- rescaling

  /** If the caller asked for the check of minus infinity, or some column seen so far is visible,
      the rescaling exponent is not positive and the factor is between zero and one.  Otherwise
      infinity is subtracted from infinity. */
  lemma RescaleDefined(p: Problem, row: int, lo: int, mid: int, hi: int, prev: Float, cur: Float, checkInf: bool)
    requires WellPosed(p) && lo <= mid <= hi && MaxOf(p, row, mid, hi, prev) && MaxOf(p, row, lo, hi, cur)
    ensures
      var exponent := RescaleExponent(prev, cur, checkInf, p.scaleLog2);
      var factor := RescaleFactor(p.f, prev, cur, checkInf, p.scaleLog2);
      if checkInf || AnyVisible(p, row, lo, hi) then NotPositive(exponent) && AtMostOne(factor)
      else exponent == NaN && factor == NaN
  {
    hide Lawful, MaxOf, AnyVisible, RescaleExponent, Times;
    var c := p.scaleLog2;
    TopKind(p, row, mid, hi, prev);
    TopKind(p, row, lo, hi, cur);
    if AnyVisible(p, row, mid, hi) {
      TopGrows(p, row, lo, mid, hi, prev, cur);
      RescaleExponentFin(prev.r, cur.r, checkInf, c);
      TimesMonotone(prev.r - cur.r, 0.0, c);
      TimesZero(c);
      ExpAtMostOne(p.f, Times(prev.r - cur.r, c));
    } else {
      RescaleExponentNone(cur, checkInf, c);
    }
  }

  /** Rescaling takes what is stored in units of the old maximum to units of the new one. */
  lemma RescaleExact(p: Problem, row: int, lo: int, mid: int, hi: int, prev: Float, cur: Float, checkInf: bool, x: real)
    requires WellPosed(p) && lo <= mid <= hi && MaxOf(p, row, mid, hi, prev) && MaxOf(p, row, lo, hi, cur)
    requires checkInf || AnyVisible(p, row, lo, hi)
    requires !AnyVisible(p, row, mid, hi) ==> x == 0.0
    ensures Mul(Fin(Times(x, Unit(p, prev))), RescaleFactor(p.f, prev, cur, checkInf, p.scaleLog2))
      == Fin(Times(x, Unit(p, cur)))
  {
    hide Lawful, MaxOf, AnyVisible, RescaleExponent, Times;
    var c := p.scaleLog2;
    TopKind(p, row, mid, hi, prev);
    TopKind(p, row, lo, hi, cur);
    if AnyVisible(p, row, mid, hi) {
      TopGrows(p, row, lo, mid, hi, prev, cur);
      var a, b := prev.r, cur.r;
      RescaleExponentFin(a, b, checkInf, c);
      Distribute(a - b, b, a, c);
      ExpAdd(p.f, -Times(a, c), Times(a - b, c), -Times(b, c));
      TimesAssociate(x, Unit(p, prev), p.f.exp2(Times(a - b, c)));
    } else {
      RescaleExponentNone(cur, checkInf, c);
      TimesZero(Unit(p, prev));
      TimesZero(Unit(p, cur));
      TimesZero(0.0);
    }
  }

  // ---------------------------------------------------------------- one block

  function NextMax(first: bool, prev: Float, s: seq<Float>): Float
    requires s != []
  {
    if first then FoldMax(s[0], s[1..]) else FoldMax(prev, s)
  }

  function NextSum(first: bool, sum: Float, factor: Float, probs: seq<Float>): Float
    requires probs != []
  {
    if first then FoldSum(probs[0], probs[1..]) else FoldSum(Mul(sum, factor), probs)
  }

  /** The running output after the rescaling, before the block's values are added. */
  function Rescaled(first: bool, o: Float, factor: Float): Float {
    if first then o else Mul(o, factor)
  }

  /** The state of a row, as stored, stands for the softmax over `[lo, hi)`. */
  ghost predicate RowHolds(p: Problem, row: int, lo: int, hi: int, max: Float, sum: Float, o: seq<Float>) {
    && MaxOf(p, row, lo, hi, max) && SumOf(p, row, lo, hi, max, sum)
    && forall d :: 0 <= d < |o| ==> OutOf(p, row, lo, hi, max, d, o[d])
  }

  /** Before the first block the output is zero; the maximum and the sum are not yet set. */
  ghost predicate RowReady(p: Problem, row: int, first: bool, mid: int, hi: int, max: Float, sum: Float,
                           o: seq<Float>) {
    if first then mid == hi && (forall d :: 0 <= d < |o| ==> o[d] == Fin(0.0))
    else mid <= hi && RowHolds(p, row, mid, hi, max, sum, o)
  }

  lemma FirstMax(x: Float, s: seq<Float>)
    requires !x.NaN?
    ensures FoldMax(NegInf, [x] + s) == FoldMax(x, s)
  {
  }

  lemma FirstSum(x: Float, s: seq<Float>)
    requires x.Fin?
    ensures FoldSum(Fin(0.0), [x] + s) == FoldSum(x, s)
  {
  }

  lemma NextMaxExact(p: Problem, row: int, first: bool, lo: int, hi: int, s: seq<Float>, max: Float, sum: Float,
                     o: seq<Float>)
    requires ScoresOf(p, row, lo, s) && s != [] && RowReady(p, row, first, lo + |s|, hi, max, sum, o)
    ensures MaxOf(p, row, lo, hi, NextMax(first, max, s))
  {
    var mid := lo + |s|;
    if first {
      assert s == [s[0]] + s[1..];
      FirstMax(s[0], s[1..]);
      assert MaxOf(p, row, mid, hi, NegInf);
      MaxAfterBlock(p, row, lo, mid, hi, s, NegInf);
    } else {
      MaxAfterBlock(p, row, lo, mid, hi, s, max);
    }
  }

  lemma ProbsExact(p: Problem, row: int, lo: int, hi: int, s: seq<Float>, max: Float)
    requires WellPosed(p) && ScoresOf(p, row, lo, s) && lo + |s| <= hi && MaxOf(p, row, lo, hi, max)
    ensures ProbsOf(p, row, lo, ScaleExpRow(p.f, s, max, p.scaleLog2), Unit(p, max))
    ensures forall x :: x in ScaleExpRow(p.f, s, max, p.scaleLog2) ==> AtMostOne(x)
  {
    hide Lawful, WellPosed, MaxOf, Weight, ScaleExp, Unit, Times, AtMostOne;
    forall k | 0 <= k < |s|
      ensures ScaleExp(p.f, s[k], max, p.scaleLog2) == Fin(Times(Weight(p, row, lo + k), Unit(p, max)))
      ensures AtMostOne(ScaleExp(p.f, s[k], max, p.scaleLog2))
    {
      ProbExact(p, row, lo + k, s[k], lo, hi, max);
      ProbBounded(p, row, lo + k, s[k], lo, hi, max);
    }
  }

  lemma NextSumExact(p: Problem, row: int, first: bool, checkInf: bool, lo: int, hi: int, probs: seq<Float>,
                     max: Float, max1: Float, sum: Float, o: seq<Float>)
    requires WellPosed(p) && probs != [] && RowReady(p, row, first, lo + |probs|, hi, max, sum, o)
    requires MaxOf(p, row, lo, hi, max1) && ProbsOf(p, row, lo, probs, Unit(p, max1))
    requires first || checkInf || AnyVisible(p, row, lo, hi)
    ensures SumOf(p, row, lo, hi, max1,
                  NextSum(first, sum, RescaleFactor(p.f, max, max1, checkInf, p.scaleLog2), probs))
  {
    hide Lawful, Mass, ScaleExp, RescaleFactor, MaxOf, ProbsOf, AnyVisible, FoldSum, Unit, Times;
    var mid := lo + |probs|;
    var u := Unit(p, max1);
    var later := Mass(p, row, mid, hi);
    MassSplit(p, row, lo, mid, hi);
    NothingIfHidden(p, row, 0, mid, hi);
    if first {
      NoRange(p, row, 0, mid);
      assert probs == [probs[0]] + probs[1..];
      ProbsTail(p, row, lo, probs, u);
      FirstSum(probs[0], probs[1..]);
      FoldSumExact(p, row, lo, probs, u, 0.0);
    } else {
      RescaleExact(p, row, lo, mid, hi, max, max1, checkInf, later);
      FoldSumExact(p, row, lo, probs, u, Times(later, u));
      Distribute(Mass(p, row, lo, mid), later, Mass(p, row, lo, hi), u);
    }
  }

  lemma NoRange(p: Problem, row: int, d: int, lo: int)
    ensures Mass(p, row, lo, lo) == 0.0 && Weighted(p, row, d, lo, lo) == 0.0
  {
  }

  lemma NothingIfHidden(p: Problem, row: int, d: int, lo: int, hi: int)
    ensures !AnyVisible(p, row, lo, hi) ==> Mass(p, row, lo, hi) == 0.0 && Weighted(p, row, d, lo, hi) == 0.0
  {
    if !AnyVisible(p, row, lo, hi) {
      NothingVisible(p, row, d, lo, hi);
    }
  }

  lemma NextOutExact(p: Problem, row: int, first: bool, checkInf: bool, lo: int, hi: int, probs: seq<Float>,
                     max: Float, max1: Float, sum: Float, o: seq<Float>, d: int)
    requires WellPosed(p) && RowReady(p, row, first, lo + |probs|, hi, max, sum, o) && 0 <= d < |o|
    requires MaxOf(p, row, lo, hi, max1) && ProbsOf(p, row, lo, probs, Unit(p, max1))
    requires first || checkInf || AnyVisible(p, row, lo, hi)
    ensures var factor := RescaleFactor(p.f, max, max1, checkInf, p.scaleLog2);
      OutOf(p, row, lo, hi, max1, d, FoldDot(Rescaled(first, o[d], factor), probs, p.value, lo, d))
  {
    hide Lawful, Mass, Weighted, ScaleExp, RescaleFactor, MaxOf, ProbsOf, AnyVisible, FoldDot, Unit, SumOf, Times;
    var mid := lo + |probs|;
    var u := Unit(p, max1);
    var later := Weighted(p, row, d, mid, hi);
    WeightedSplit(p, row, d, lo, mid, hi);
    NothingIfHidden(p, row, d, mid, hi);
    if first {
      NoRange(p, row, d, mid);
      FoldDotExact(p, row, lo, d, probs, u, 0.0);
    } else {
      assert OutOf(p, row, mid, hi, max, d, o[d]);
      RescaleExact(p, row, lo, mid, hi, max, max1, checkInf, later);
      FoldDotExact(p, row, lo, d, probs, u, Times(later, u));
      Distribute(Weighted(p, row, d, lo, mid), later, Weighted(p, row, d, lo, hi), u);
    }
  }

  /** One block, all at once: whatever the state stood for before, it now stands for one block
      more.  Neither a probability nor the factor that rescales exceeds one. */
  lemma BlockExact(p: Problem, row: int, first: bool, checkInf: bool, lo: int, hi: int, s: seq<Float>,
                   max: Float, sum: Float, o: seq<Float>,
                   max1: Float, probs: seq<Float>, sum1: Float, o1: seq<Float>)
    requires WellPosed(p) && ScoresOf(p, row, lo, s) && s != []
    requires RowReady(p, row, first, lo + |s|, hi, max, sum, o)
    requires first || checkInf || AnyVisible(p, row, lo, hi)
    requires max1 == NextMax(first, max, s) && probs == ScaleExpRow(p.f, s, max1, p.scaleLog2)
    requires
      var factor := RescaleFactor(p.f, max, max1, checkInf, p.scaleLog2);
      && sum1 == NextSum(first, sum, factor, probs)
      && |o1| == |o|
      && forall d :: 0 <= d < |o| ==> o1[d] == FoldDot(Rescaled(first, o[d], factor), probs, p.value, lo, d)
    ensures RowHolds(p, row, lo, hi, max1, sum1, o1)
    ensures forall x :: x in probs ==> AtMostOne(x)
    ensures !first ==> AtMostOne(RescaleFactor(p.f, max, max1, checkInf, p.scaleLog2))
  {
    hide Lawful, WellPosed, ScoresOf, NextMax, NextSum, MaxOf, SumOf, OutOf, AnyVisible, RescaleFactor, ScaleExp,
         FoldDot, Rescaled;
    NextMaxExact(p, row, first, lo, hi, s, max, sum, o);
    ProbsExact(p, row, lo, hi, s, max1);
    NextSumExact(p, row, first, checkInf, lo, hi, probs, max, max1, sum, o);
    forall d | 0 <= d < |o|
      ensures OutOf(p, row, lo, hi, max1, d, o1[d])
    {
      NextOutExact(p, row, first, checkInf, lo, hi, probs, max, max1, sum, o, d);
    }
    if !first {
      RescaleDefined(p, row, lo, lo + |s|, hi, max, max1, checkInf);
    }
  }

  // ---------------------------------------------------------------- the end of a row

  predicate NoSum(sum: Float) {
    sum == Fin(0.0) || sum.NaN?
  }

  function InvSum(sum: Float): Float {
    if NoSum(sum) then Fin(1.0) else Recip(sum)
  }

  /** What is written for a row with no visible column. */
  function EmptyLse(split: bool): Float {
    if split then NegInf else PosInf
  }

  function LseOf(f: Fns, max: Float, sum: Float, scale: real, split: bool): Float {
    if NoSum(sum) then EmptyLse(split) else Add(Mul(max, Fin(scale)), Log(f, sum))
  }

  /** Units cancel. */
  lemma DivideUnits(w: real, m: real, u: real)
    requires m > 0.0 && u > 0.0
    ensures Times(m, u) > 0.0 && Times(Times(w, u), 1.0 / Times(m, u)) == w / m
  {
    TimesPositive(m, u);
    var q, y := w / m, Times(m, u);
    assert w == Times(q, m);
    TimesAssociate(q, m, u);
    hide Times;
    Cancel(q, y);
  }

  lemma Cancel(q: real, y: real)
    requires y > 0.0
    ensures Times(Times(q, y), 1.0 / y) == q
  {
  }

  /** Normalisation turns the running state into the direct softmax and its log-sum-exp. */
  lemma NormalizeExact(p: Problem, row: int, lo: int, hi: int, max: Float, sum: Float, o: seq<Float>, split: bool)
    requires WellPosed(p) && RowHolds(p, row, lo, hi, max, sum, o)
    ensures forall d :: 0 <= d < |o| ==> Mul(o[d], InvSum(sum)) == Fin(SoftmaxOut(p, row, d, lo, hi))
    ensures LseOf(p.f, max, sum, p.scale, split) == SoftmaxLse(p, row, lo, hi, EmptyLse(split))
  {
    hide Lawful, MaxOf, AnyVisible, Mass, Weighted, Times;
    var m, u := Mass(p, row, lo, hi), Unit(p, max);
    MassPositive(p, row, lo, hi);
    TopKind(p, row, lo, hi, max);
    if AnyVisible(p, row, lo, hi) {
      ExpPositive(p.f, -Times(max.r, p.scaleLog2));
      forall d | 0 <= d < |o|
        ensures Mul(o[d], InvSum(sum)) == Fin(SoftmaxOut(p, row, d, lo, hi))
      {
        assert OutOf(p, row, lo, hi, max, d, o[d]);
        DivideUnits(Weighted(p, row, d, lo, hi), m, u);
      }
      LseExact(p, m, u, max.r);
    } else {
      TimesZero(u);
      forall d | 0 <= d < |o|
        ensures Mul(o[d], InvSum(sum)) == Fin(0.0)
      {
        assert OutOf(p, row, lo, hi, max, d, o[d]);
        NothingVisible(p, row, d, lo, hi);
        TimesZero(1.0);
      }
    }
  }

  lemma LseExact(p: Problem, mass: real, u: real, max: real)
    requires WellPosed(p) && mass > 0.0 && u == p.f.exp2(-Times(max, p.scaleLog2))
    ensures Times(mass, u) > 0.0 && Times(max, p.scale) + p.f.ln(Times(mass, u)) == p.f.ln(mass)
  {
    hide Lawful, Times;
    var y, a, e := Times(mass, u), Times(max, p.scale), Times(max, p.scaleLog2);
    ExpInverse(p.f, -e, e);
    TimesPositive(mass, u);
    var b := p.f.ln(y);
    ExpLn(p.f, y);
    ExpOfSum(p.f, b, a, a + b);
    Associate(max, p.scale, p.f.log2e, p.scaleLog2);
    TimesAssociate(mass, u, p.f.exp2(e));
    TimesOne(mass);
    LnUnique(p.f, a + b, mass);
  }

  lemma Associate(max: real, scale: real, log2e: real, scaleLog2: real)
    requires scaleLog2 == Times(scale, log2e)
    ensures Times(Times(max, scale), log2e) == Times(max, scaleLog2)
  {
  }
}
