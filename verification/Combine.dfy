/** Merging the results of several key ranges: each range comes with its normalised output and its
    log-sum-exp, and the merge weights the outputs by the exponentials of the log-sum-exps. */
module Combine {
  import opened Arithmetic
  import opened Floats
  import opened OnlineSoftmax

  // ---------------------------------------------------------------- the arithmetic of the merge

  /** The largest log-sum-exp; zero when all ranges were empty. */
  function LseMax(l: seq<Float>): Float
    requires l != []
  {
    var m := FoldMax(l[0], l[1..]);
    if m == NegInf then Fin(0.0) else m
  }

  function FoldExp(f: Fns, acc: Float, l: seq<Float>, max: Float): Float
    decreases |l|
  {
    if l == [] then acc else FoldExp(f, Add(acc, ExpF(f, Sub(l[0], max))), l[1..], max)
  }

  function LseSum(f: Fns, l: seq<Float>, max: Float): Float
    requires l != []
  {
    FoldExp(f, ExpF(f, Sub(l[0], max)), l[1..], max)
  }

  /** Plus infinity stands for "no visible key at all". */
  function LogSum(f: Fns, sum: Float, max: Float): Float {
    if NoSum(sum) then PosInf else Add(Log(f, sum), max)
  }

  function Scale(f: Fns, lse: Float, logSum: Float): Float {
    ExpF(f, Sub(lse, logSum))
  }

  function FoldScaled(f: Fns, acc: Float, l: seq<Float>, o: seq<Float>, logSum: Float): Float
    requires |l| == |o|
    decreases |l|
  {
    if l == [] then acc else FoldScaled(f, Add(acc, Mul(Scale(f, l[0], logSum), o[0])), l[1..], o[1..], logSum)
  }

  // ---------------------------------------------------------------- what the parts stand for

  /** Where part `i` of a row begins, if `parts` parts are `width` columns wide and further parts
      are empty. */
  function Cut(i: int, parts: nat, width: nat): int {
    (if i <= parts then i else parts) * width
  }

  /** The log-sum-exps of the parts from number `i` on. */
  ghost predicate LsesOf(p: Problem, row: int, i: int, parts: nat, width: nat, l: seq<Float>) {
    forall j :: 0 <= j < |l| ==>
      l[j] == SoftmaxLse(p, row, Cut(i + j, parts, width), Cut(i + j + 1, parts, width), NegInf)
  }

  ghost predicate OutsOf(p: Problem, row: int, d: int, i: int, parts: nat, width: nat, o: seq<Float>) {
    forall j :: 0 <= j < |o| ==>
      o[j] == Fin(SoftmaxOut(p, row, d, Cut(i + j, parts, width), Cut(i + j + 1, parts, width)))
  }

  lemma CutOrder(i: int, j: int, parts: nat, width: nat)
    requires i <= j
    ensures Cut(i, parts, width) <= Cut(j, parts, width)
  {
  }

  lemma LsesTail(p: Problem, row: int, i: int, parts: nat, width: nat, l: seq<Float>)
    requires LsesOf(p, row, i, parts, width, l) && l != []
    ensures LsesOf(p, row, i + 1, parts, width, l[1..])
    ensures l[0] == SoftmaxLse(p, row, Cut(i, parts, width), Cut(i + 1, parts, width), NegInf)
  {
  }

  lemma OutsTail(p: Problem, row: int, d: int, i: int, parts: nat, width: nat, o: seq<Float>)
    requires OutsOf(p, row, d, i, parts, width, o) && o != []
    ensures OutsOf(p, row, d, i + 1, parts, width, o[1..])
    ensures o[0] == Fin(SoftmaxOut(p, row, d, Cut(i, parts, width), Cut(i + 1, parts, width)))
  {
  }

  // ---------------------------------------------------------------- the maximum

  /** The maximum of log-sum-exps is one of them, and bounds them all. */
  lemma {:induction false} FoldMaxBound(acc: Float, l: seq<Float>)
    requires acc.Fin? || acc.NegInf?
    requires forall x :: x in l ==> x.Fin? || x.NegInf?
    ensures var m := FoldMax(acc, l);
      && (m == acc || m in l)
      && Below(acc, m) && forall x :: x in l ==> Below(x, m)
    decreases |l|
  {
    if l != [] {
      var rest := l[1..];
      assert forall x :: x in rest ==> x in l;
      FoldMaxBound(Max(acc, l[0]), rest);
      forall x | x in l
        ensures Below(x, FoldMax(acc, l))
      {
        InTail(l, x);
      }
    }
  }

  lemma InTail(l: seq<Float>, x: Float)
    requires l != []
    ensures x in l <==> x == l[0] || x in l[1..]
  {
    assert l == [l[0]] + l[1..];
  }

  predicate Below(a: Float, b: Float) {
    a == NegInf || (a.Fin? && b.Fin? && a.r <= b.r)
  }

  /** What is subtracted is a number, and no exponent that follows is positive. */
  lemma LseMaxBounds(p: Problem, row: int, i: int, parts: nat, width: nat, l: seq<Float>)
    requires LsesOf(p, row, i, parts, width, l) && l != []
    ensures LseMax(l).Fin?
    ensures forall x :: x in l ==> NotPositive(Sub(x, LseMax(l)))
  {
    LseKinds(p, row, i, parts, width, l);
    hide LsesOf, FoldMax, Sub, Below, NotPositive;
    InTail(l, l[0]);
    forall x | x in l[1..]
      ensures x in l
    {
      InTail(l, x);
    }
    FoldMaxBound(l[0], l[1..]);
    forall x | x in l
      ensures NotPositive(Sub(x, LseMax(l)))
    {
      InTail(l, x);
      SubMax(x, FoldMax(l[0], l[1..]));
    }
  }

  lemma SubMax(x: Float, m: Float)
    requires Below(x, m) && (m.Fin? || m.NegInf?)
    ensures NotPositive(Sub(x, if m == NegInf then Fin(0.0) else m))
  {
  }

  lemma LseKinds(p: Problem, row: int, i: int, parts: nat, width: nat, l: seq<Float>)
    requires LsesOf(p, row, i, parts, width, l)
    ensures forall x :: x in l ==> x.Fin? || x.NegInf?
  {
    hide Mass, Cut;
  }

  // ---------------------------------------------------------------- the sum

  lemma MassNotNegative(p: Problem, row: int, lo: int, hi: int)
    requires WellPosed(p)
    ensures Mass(p, row, lo, hi) >= 0.0
  {
    MassNonNegative(p, row, lo, hi);
  }

  /** The exponential of a shifted log-sum-exp is the mass in units of the shift. */
  lemma TermExact(p: Problem, row: int, lo: int, hi: int, max: real, e: real)
    requires WellPosed(p) && e == p.f.Exp(-max)
    ensures ExpF(p.f, Sub(SoftmaxLse(p, row, lo, hi, NegInf), Fin(max))) == Fin(Times(Mass(p, row, lo, hi), e))
  {
    hide Lawful, Times;
    var m := Mass(p, row, lo, hi);
    MassNotNegative(p, row, lo, hi);
    if m == 0.0 {
      TimesZero(e);
    } else {
      ExpLn(p.f, m);
      ExpOfSum(p.f, p.f.ln(m), -max, p.f.ln(m) + -max);
    }
  }

  lemma {:induction false} FoldExpExact(p: Problem, row: int, i: int, parts: nat, width: nat, l: seq<Float>,
                                        max: real, e: real, a: real)
    requires WellPosed(p) && e == p.f.Exp(-max) && LsesOf(p, row, i, parts, width, l)
    ensures FoldExp(p.f, Fin(a), l, Fin(max))
      == Fin(a + Times(Mass(p, row, Cut(i, parts, width), Cut(i + |l|, parts, width)), e))
    decreases |l|
  {
    hide WellPosed, Mass, SoftmaxLse, ExpF, Sub, Cut, LsesOf, Times;
    var lo, hi := Cut(i, parts, width), Cut(i + |l|, parts, width);
    if l == [] {
      NoMassBetween(p, row, lo);
      TimesZero(e);
    } else {
      LsesTail(p, row, i, parts, width, l);
      var mid := Cut(i + 1, parts, width);
      var w, rest := Mass(p, row, lo, mid), Mass(p, row, mid, hi);
      TermExact(p, row, lo, mid, max, e);
      FoldExpExact(p, row, i + 1, parts, width, l[1..], max, e, a + Times(w, e));
      assert i + 1 + |l[1..]| == i + |l|;
      CutOrder(i, i + 1, parts, width);
      CutOrder(i + 1, i + |l|, parts, width);
      MassSplit(p, row, lo, mid, hi);
      Distribute(w, rest, w + rest, e);
    }
  }

  lemma NoMassBetween(p: Problem, row: int, lo: int)
    ensures Mass(p, row, lo, lo) == 0.0
  {
  }

  /** The merged log-sum-exp is that of all parts together, with plus infinity for no visible key. */
  lemma LogSumExact(p: Problem, row: int, parts: nat, width: nat, l: seq<Float>)
    requires WellPosed(p) && LsesOf(p, row, 0, parts, width, l) && |l| >= parts && l != []
    ensures LogSum(p.f, LseSum(p.f, l, LseMax(l)), LseMax(l)) == SoftmaxLse(p, row, 0, parts * width, PosInf)
  {
    hide Lawful, WellPosed, LsesOf, Mass, Cut, LseMax, LseSum, FoldExp, Times;
    var hi := parts * width;
    LseMaxBounds(p, row, 0, parts, width, l);
    var max, mass := LseMax(l).r, Mass(p, row, 0, hi);
    var e := p.f.Exp(-max);
    FirstTerm(p, row, parts, width, l, max);
    FoldExpExact(p, row, 0, parts, width, l, max, e, 0.0);
    CutEnds(parts, width, |l|);
    MassNotNegative(p, row, 0, hi);
    if mass > 0.0 {
      LogOfSum(p, mass, e, max);
    } else {
      TimesZero(e);
    }
  }

  lemma CutEnds(parts: nat, width: nat, i: nat)
    requires i >= parts
    ensures Cut(0, parts, width) == 0 && Cut(i, parts, width) == parts * width
  {
  }

  lemma FirstTerm(p: Problem, row: int, parts: nat, width: nat, l: seq<Float>, max: real)
    requires WellPosed(p) && LsesOf(p, row, 0, parts, width, l) && l != []
    ensures LseSum(p.f, l, Fin(max)) == FoldExp(p.f, Fin(0.0), l, Fin(max))
  {
    hide WellPosed, LsesOf, SoftmaxLse, Cut, Sub, Times;
    LsesTail(p, row, 0, parts, width, l);
    TermExact(p, row, Cut(0, parts, width), Cut(1, parts, width), max, p.f.Exp(-max));
  }

  /** Shifting back and forth cancels. */
  lemma ExpShift(p: Problem, x: real, e: real)
    requires WellPosed(p) && e == p.f.Exp(-x)
    ensures e > 0.0 && Times(e, p.f.Exp(x)) == 1.0
  {
    hide Lawful, Times;
    ExpPositive(p.f, Times(-x, p.f.log2e));
    ExpOfSum(p.f, -x, x, 0.0);
    TimesZero(p.f.log2e);
    ExpZero(p.f, Times(0.0, p.f.log2e));
  }

  lemma LogOfSum(p: Problem, mass: real, e: real, max: real)
    requires WellPosed(p) && mass > 0.0 && e == p.f.Exp(-max)
    ensures Times(mass, e) > 0.0 && p.f.ln(Times(mass, e)) + max == p.f.ln(mass)
  {
    hide Lawful, Times;
    var y := Times(mass, e);
    ExpShift(p, max, e);
    TimesPositive(mass, e);
    var x := p.f.ln(y);
    ExpLn(p.f, y);
    ExpOfSum(p.f, x, max, x + max);
    TimesAssociate(mass, e, p.f.Exp(max));
    TimesOne(mass);
    LnUnique(p.f, x + max, mass);
  }

  // ---------------------------------------------------------------- the output

  lemma InverseOf(p: Problem, mass: real)
    requires WellPosed(p) && mass > 0.0
    ensures p.f.Exp(-p.f.ln(mass)) == 1.0 / mass
  {
    hide Lawful, Times;
    var logSum := p.f.ln(mass);
    var e := p.f.Exp(-logSum);
    ExpShift(p, logSum, e);
    ExpLn(p.f, mass);
    Reciprocal(e, mass);
  }

  lemma Reciprocal(e: real, mass: real)
    requires mass > 0.0 && Times(e, mass) == 1.0
    ensures e == 1.0 / mass
  {
    assert e == (e * mass) / mass;
  }

  lemma NoMass(p: Problem, row: int, d: int, lo: int, hi: int)
    requires WellPosed(p) && Mass(p, row, lo, hi) == 0.0
    ensures Weighted(p, row, d, lo, hi) == 0.0
  {
    MassPositive(p, row, lo, hi);
    NothingVisible(p, row, d, lo, hi);
  }

  lemma ScaleExact(p: Problem, row: int, lo: int, hi: int, mass: real)
    requires WellPosed(p) && mass > 0.0
    ensures Scale(p.f, SoftmaxLse(p, row, lo, hi, NegInf), Fin(p.f.ln(mass)))
      == Fin(Times(Mass(p, row, lo, hi), 1.0 / mass))
  {
    hide WellPosed, Mass, SoftmaxLse, Times;
    InverseOf(p, mass);
    TermExact(p, row, lo, hi, p.f.ln(mass), 1.0 / mass);
  }

  /** One weighted part: its share of the numerator. */
  lemma ShareExact(p: Problem, row: int, d: int, lo: int, hi: int, mass: real)
    requires WellPosed(p) && mass > 0.0
    ensures
      Mul(Scale(p.f, SoftmaxLse(p, row, lo, hi, NegInf), Fin(p.f.ln(mass))), Fin(SoftmaxOut(p, row, d, lo, hi)))
      == Fin(Times(Weighted(p, row, d, lo, hi), 1.0 / mass))
  {
    hide WellPosed, Mass, Weighted, SoftmaxLse, Scale, Times;
    ScaleExact(p, row, lo, hi, mass);
    var m, w, k := Mass(p, row, lo, hi), Weighted(p, row, d, lo, hi), 1.0 / mass;
    if m == 0.0 {
      NoMass(p, row, d, lo, hi);
      TimesZero(k);
      TimesZero(0.0);
    } else {
      ShareOf(m, w, k);
    }
  }

  lemma ShareOf(m: real, w: real, k: real)
    requires m != 0.0
    ensures Times(Times(m, k), w / m) == Times(w, k)
  {
    var q := w / m;
    assert w == Times(m, q);
    TimesReorder(m, k, q);
  }

  lemma {:induction false} FoldScaledExact(p: Problem, row: int, d: int, i: int, parts: nat, width: nat,
                                           l: seq<Float>, o: seq<Float>, mass: real, a: real)
    requires WellPosed(p) && mass > 0.0 && |l| == |o|
    requires LsesOf(p, row, i, parts, width, l) && OutsOf(p, row, d, i, parts, width, o)
    ensures FoldScaled(p.f, Fin(a), l, o, Fin(p.f.ln(mass)))
      == Fin(a + Times(Weighted(p, row, d, Cut(i, parts, width), Cut(i + |l|, parts, width)), 1.0 / mass))
    decreases |l|
  {
    hide WellPosed, Weighted, SoftmaxLse, SoftmaxOut, Cut, LsesOf, OutsOf, Scale, Mul, Times;
    var lo, hi, k := Cut(i, parts, width), Cut(i + |l|, parts, width), 1.0 / mass;
    if l == [] {
      NoWeightBetween(p, row, d, lo);
      TimesZero(k);
    } else {
      LsesTail(p, row, i, parts, width, l);
      OutsTail(p, row, d, i, parts, width, o);
      var mid := Cut(i + 1, parts, width);
      ShareExact(p, row, d, lo, mid, mass);
      var w, rest := Weighted(p, row, d, lo, mid), Weighted(p, row, d, mid, hi);
      FoldScaledExact(p, row, d, i + 1, parts, width, l[1..], o[1..], mass, a + Times(w, k));
      assert i + 1 + |l[1..]| == i + |l|;
      CutOrder(i, i + 1, parts, width);
      CutOrder(i + 1, i + |l|, parts, width);
      WeightedSplit(p, row, d, lo, mid, hi);
      Distribute(w, rest, w + rest, k);
    }
  }

  lemma NoWeightBetween(p: Problem, row: int, d: int, lo: int)
    ensures Weighted(p, row, d, lo, lo) == 0.0
  {
  }

  /** Without any visible key every weight is zero. */
  lemma {:induction false} FoldScaledEmpty(p: Problem, row: int, d: int, i: int, parts: nat, width: nat,
                                           l: seq<Float>, o: seq<Float>)
    requires WellPosed(p) && |l| == |o|
    requires LsesOf(p, row, i, parts, width, l) && OutsOf(p, row, d, i, parts, width, o)
    ensures FoldScaled(p.f, Fin(0.0), l, o, PosInf) == Fin(0.0)
    decreases |l|
  {
    hide WellPosed, LsesOf, OutsOf, SoftmaxOut, Mass, Cut, Times;
    if l != [] {
      LsesTail(p, row, i, parts, width, l);
      OutsTail(p, row, d, i, parts, width, o);
      assert Scale(p.f, l[0], PosInf) == Fin(0.0);
      TimesZero(o[0].r);
      FoldScaledEmpty(p, row, d, i + 1, parts, width, l[1..], o[1..]);
    }
  }

  /** The merged output is the softmax over all parts together, whatever parts are empty. */
  lemma CombineExact(p: Problem, row: int, d: int, parts: nat, width: nat, l: seq<Float>, o: seq<Float>, logSum: Float)
    requires WellPosed(p) && |l| == |o| == parts
    requires LsesOf(p, row, 0, parts, width, l) && OutsOf(p, row, d, 0, parts, width, o)
    requires logSum == SoftmaxLse(p, row, 0, parts * width, PosInf)
    ensures FoldScaled(p.f, Fin(0.0), l, o, logSum) == Fin(SoftmaxOut(p, row, d, 0, parts * width))
  {
    hide Lawful, WellPosed, Mass, Weighted, LsesOf, OutsOf, Cut, FoldScaled, Times;
    var hi := parts * width;
    var mass := Mass(p, row, 0, hi);
    MassNotNegative(p, row, 0, hi);
    CutEnds(parts, width, |l|);
    if mass == 0.0 {
      FoldScaledEmpty(p, row, d, 0, parts, width, l, o);
    } else {
      FoldScaledExact(p, row, d, 0, parts, width, l, o, mass, 0.0);
      Quotient(Weighted(p, row, d, 0, hi), mass);
    }
  }

  lemma Quotient(w: real, m: real)
    requires m > 0.0
    ensures Times(w, 1.0 / m) == w / m
  {
  }

  // ---------------------------------------------------------------- no overflow in the weights

  /** Logarithms grow with their arguments. */
  lemma LnMonotone(p: Problem, a: real, b: real)
    requires WellPosed(p) && 0.0 < a <= b
    ensures p.f.ln(a) <= p.f.ln(b)
  {
    hide Lawful, Times;
    var x, y := p.f.ln(a), p.f.ln(b);
    if x > y {
      ExpLn(p.f, a);
      ExpLn(p.f, b);
      PositiveFactor(p.scale, p.f.log2e);
      TimesMonotone(y, x, p.f.log2e);
      ExpMonotone(p.f, Times(y, p.f.log2e), Times(x, p.f.log2e));
    }
  }

  lemma PositiveFactor(a: real, b: real)
    requires a > 0.0 && Times(a, b) > 0.0
    ensures b > 0.0
  {
  }

  lemma PartOfMass(p: Problem, row: int, j: int, parts: nat, width: nat)
    requires WellPosed(p) && 0 <= j
    ensures 0.0 <= Mass(p, row, Cut(j, parts, width), Cut(j + 1, parts, width)) <= Mass(p, row, 0, parts * width)
  {
    hide WellPosed, Mass, Cut;
    var lo, hi := Cut(j, parts, width), Cut(j + 1, parts, width);
    CutEnds(parts, width, parts);
    CutOrder(0, j, parts, width);
    CutOrder(j, j + 1, parts, width);
    CutLast(j + 1, parts, width);
    MassSplit(p, row, 0, lo, parts * width);
    MassSplit(p, row, lo, hi, parts * width);
    MassNotNegative(p, row, 0, lo);
    MassNotNegative(p, row, lo, hi);
    MassNotNegative(p, row, hi, parts * width);
  }

  lemma CutLast(i: int, parts: nat, width: nat)
    ensures Cut(i, parts, width) <= parts * width
  {
    MulMonotone(if i <= parts then i else parts, parts, width);
  }

  /** The exponents of the weights are not positive either, so every weight is between zero and one. */
  lemma ScalesBounded(p: Problem, row: int, parts: nat, width: nat, l: seq<Float>, logSum: Float, j: nat)
    requires WellPosed(p) && LsesOf(p, row, 0, parts, width, l) && j < |l|
    requires logSum == SoftmaxLse(p, row, 0, parts * width, PosInf)
    ensures NotPositive(Sub(l[j], logSum)) && AtMostOne(Scale(p.f, l[j], logSum))
  {
    hide WellPosed, Lawful, Mass, Cut, Times;
    var lo, hi := Cut(j, parts, width), Cut(j + 1, parts, width);
    assert l[j] == SoftmaxLse(p, row, Cut(0 + j, parts, width), Cut(0 + j + 1, parts, width), NegInf);
    PartOfMass(p, row, j, parts, width);
    var part, mass := Mass(p, row, lo, hi), Mass(p, row, 0, parts * width);
    if mass > 0.0 {
      ScaleExact(p, row, lo, hi, mass);
      PartBelow(part, mass);
      if part > 0.0 {
        LnMonotone(p, part, mass);
      }
    }
  }

  lemma PartBelow(part: real, mass: real)
    requires 0.0 <= part <= mass && mass > 0.0
    ensures 0.0 <= Times(part, 1.0 / mass) <= 1.0
  {
    Quotient(part, mass);
    assert part / mass <= 1.0;
  }
}
