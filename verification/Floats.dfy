/** Numbers as the attention kernels see them: reals, the two infinities and NaN, without
    rounding; and the exponential and logarithm that the kernels call. */
module Floats {

  datatype Float = NaN | NegInf | Fin(r: real) | PosInf

  /** The product, as a function symbol of its own: what the exponential is applied to is
      then compared by name, not by arithmetic. */
  function Times(a: real, b: real): real {
    a * b
  }

  function Sign(a: Float): int {
    match a
    case NaN => 0
    case NegInf => -1
    case PosInf => 1
    case Fin(r) => if r > 0.0 then 1 else if r < 0.0 then -1 else 0
  }

  function Inf(sign: int): Float {
    if sign > 0 then PosInf else if sign < 0 then NegInf else NaN
  }

  function Neg(a: Float): Float {
    match a
    case NaN => NaN
    case NegInf => PosInf
    case PosInf => NegInf
    case Fin(r) => Fin(-r)
  }

  function Add(a: Float, b: Float): Float {
    if a.NaN? || b.NaN? then NaN
    else if a.Fin? && b.Fin? then Fin(a.r + b.r)
    else if a.Fin? then b
    else if b.Fin? then a
    else if a == b then a
    else NaN
  }

  function Sub(a: Float, b: Float): Float {
    Add(a, Neg(b))
  }

  /** Infinity times zero is NaN. */
  function Mul(a: Float, b: Float): Float {
    if a.NaN? || b.NaN? then NaN
    else if a.Fin? && b.Fin? then Fin(Times(a.r, b.r))
    else Inf(Sign(a) * Sign(b))
  }

  /** `1.f / a` for a non-zero `a`. */
  function Recip(a: Float): Float {
    match a
    case NaN => NaN
    case NegInf => Fin(0.0)
    case PosInf => Fin(0.0)
    case Fin(r) => if r == 0.0 then NaN else Fin(1.0 / r)
  }

  /** The larger of two; a NaN is ignored. */
  function Max(a: Float, b: Float): Float {
    if a.NaN? then b
    else if b.NaN? then a
    else if a.PosInf? || b.PosInf? then PosInf
    else if a.NegInf? then b
    else if b.NegInf? then a
    else if a.r > b.r then a else b
  }

  // ---------------------------------------------------------------- exp and log

  /** The base-two exponential, the natural logarithm, and the constant `M_LOG2E`. */
  datatype Fns = Fns(exp2: real -> real, ln: real -> real, log2e: real) {
    function Exp(x: real): real {
      exp2(Times(x, log2e))
    }
  }

  /** Marks the points at which the laws below are used. */
  ghost predicate Use(a: real, b: real) {
    true
  }

  /** The laws of exponentials and logarithms that the kernels rely on. */
  ghost predicate Lawful(f: Fns) {
    && (forall a, b {:trigger Use(a, b)} :: f.exp2(a + b) == Times(f.exp2(a), f.exp2(b)))
    && (forall a :: f.exp2(a) > 0.0)
    && (forall a, b {:trigger Use(a, b)} :: a <= b ==> f.exp2(a) <= f.exp2(b))
    && (forall y :: y > 0.0 ==> f.Exp(f.ln(y)) == y)
    && (forall x :: f.ln(f.Exp(x)) == x)
  }

  lemma ExpAdd(f: Fns, a: real, b: real, c: real)
    requires Lawful(f) && c == a + b
    ensures f.exp2(c) == Times(f.exp2(a), f.exp2(b))
  {
    hide Times;
    assert Use(a, b);
    assert f.exp2(c) == f.exp2(a + b);
  }

  lemma ExpZero(f: Fns, z: real)
    requires Lawful(f) && z == 0.0
    ensures f.exp2(z) == 1.0
  {
    hide Times;
    ExpAdd(f, z, z, z);
    SelfSquare(f.exp2(z));
  }

  lemma SelfSquare(x: real)
    requires x > 0.0 && x == Times(x, x)
    ensures x == 1.0
  {
    assert x * (x - 1.0) == 0.0;
  }

  lemma ExpInverse(f: Fns, a: real, b: real)
    requires Lawful(f) && b == -a
    ensures Times(f.exp2(a), f.exp2(b)) == 1.0 && f.exp2(a) > 0.0 && f.exp2(b) > 0.0
  {
    hide Times;
    var z := a + b;
    ExpAdd(f, a, b, z);
    ExpZero(f, z);
  }

  lemma ExpMonotone(f: Fns, a: real, b: real)
    requires Lawful(f) && a <= b
    ensures f.exp2(a) <= f.exp2(b)
  {
    hide Times;
    assert Use(a, b);
  }

  lemma ExpPositive(f: Fns, a: real)
    requires Lawful(f)
    ensures f.exp2(a) > 0.0
  {
    hide Times;
  }

  /** An exponent that is not positive gives a number between zero and one. */
  lemma ExpAtMostOne(f: Fns, a: real)
    requires Lawful(f) && a <= 0.0
    ensures 0.0 < f.exp2(a) <= 1.0
  {
    hide Lawful;
    var z := 0.0;
    ExpPositive(f, a);
    ExpMonotone(f, a, z);
    ExpZero(f, z);
  }

  lemma ExpOfSum(f: Fns, a: real, b: real, c: real)
    requires Lawful(f) && c == a + b
    ensures f.Exp(c) == Times(f.Exp(a), f.Exp(b))
  {
    hide Times, Lawful;
    Distribute(a, b, c, f.log2e);
    ExpAdd(f, Times(a, f.log2e), Times(b, f.log2e), Times(c, f.log2e));
  }

  lemma ExpLn(f: Fns, y: real)
    requires Lawful(f) && y > 0.0
    ensures f.Exp(f.ln(y)) == y
  {
    hide Times;
  }

  /** The logarithm is the only number with that exponential. */
  lemma LnUnique(f: Fns, x: real, y: real)
    requires Lawful(f) && f.Exp(x) == y
    ensures x == f.ln(y)
  {
    hide Times;
  }

  // ---------------------------------------------------------------- products

  lemma Distribute(a: real, b: real, c: real, d: real)
    requires c == a + b
    ensures Times(c, d) == Times(a, d) + Times(b, d)
  {
  }

  lemma TimesZero(a: real)
    ensures Times(0.0, a) == 0.0 == Times(a, 0.0)
  {
  }

  lemma TimesOne(a: real)
    ensures Times(1.0, a) == a == Times(a, 1.0)
  {
  }

  lemma TimesSwap(a: real, b: real)
    ensures Times(a, b) == Times(b, a)
  {
  }

  lemma TimesAssociate(a: real, b: real, c: real)
    ensures Times(Times(a, b), c) == Times(a, Times(b, c))
  {
  }

  lemma TimesPositive(a: real, b: real)
    requires a > 0.0 && b > 0.0
    ensures Times(a, b) > 0.0
  {
  }

  lemma TimesMonotone(a: real, b: real, c: real)
    requires a <= b && c >= 0.0
    ensures Times(a, c) <= Times(b, c)
  {
  }

  /** Minus infinity stays minus infinity under a positive scale. */
  lemma MulNegInf(c: real)
    requires c > 0.0
    ensures Mul(NegInf, Fin(c)) == NegInf
  {
  }

  /** A factor that cannot overflow. */
  predicate AtMostOne(a: Float) {
    a.Fin? && 0.0 <= a.r <= 1.0
  }

  /** An exponent whose exponential is at most one. */
  predicate NotPositive(a: Float) {
    a.NegInf? || (a.Fin? && a.r <= 0.0)
  }

  // ---------------------------------------------------------------- the functions of the device

  function Exp2(f: Fns, a: Float): Float {
    match a
    case NaN => NaN
    case NegInf => Fin(0.0)
    case PosInf => PosInf
    case Fin(r) => Fin(f.exp2(r))
  }

  function ExpF(f: Fns, a: Float): Float {
    match a
    case NaN => NaN
    case NegInf => Fin(0.0)
    case PosInf => PosInf
    case Fin(r) => Fin(f.Exp(r))
  }

  function Log(f: Fns, a: Float): Float {
    match a
    case NaN => NaN
    case NegInf => NaN
    case PosInf => PosInf
    case Fin(r) => if r > 0.0 then Fin(f.ln(r)) else if r == 0.0 then NegInf else NaN
  }
}
