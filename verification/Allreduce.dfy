/** The butterfly reduction across the lanes of a warp. */
module Allreduce {
  import opened Arithmetic

  function Pow2(k: nat): (n: nat)
    ensures n > 0
  {
    if k == 0 then 1 else 2 * Pow2(k - 1)
  }

  /** The lane number with the bit of value `offset` flipped. */
  function Flip(lane: nat, offset: nat): int
    requires offset > 0
  {
    if lane / offset % 2 == 0 then lane + offset else lane - offset
  }

  /** Flipping stays within the aligned group of twice the offset, and is its own inverse. */
  lemma FlipInGroup(lane: nat, offset: nat)
    requires offset > 0
    ensures
      var base := lane / (2 * offset) * (2 * offset);
      && base <= lane < base + 2 * offset && 0 <= base
      && Flip(lane, offset) == (if lane < base + offset then lane + offset else lane - offset)
      && base <= Flip(lane, offset) < base + 2 * offset
  {
    var n := 2 * offset;
    var q := lane / n;
    DivBounds(lane, n);
    assert q * n == 2 * q * offset;
    if lane < q * n + offset {
      DivUnique(lane, offset, 2 * q);
    } else {
      assert (2 * q + 1) * offset == 2 * q * offset + offset;
      DivUnique(lane, offset, 2 * q + 1);
    }
  }

  /** One exchange: every lane combines its value with that of the lane across. */
  function Exchange<T>(op: (T, T) -> T, x: seq<T>, offset: nat): (y: seq<T>)
    requires offset > 0 && |x| % (2 * offset) == 0
    ensures |y| == |x|
  {
    seq(|x|, l requires 0 <= l < |x| => FlipInRange(l, offset, |x|); op(x[l], x[Flip(l, offset)]))
  }

  lemma FlipInRange(lane: nat, offset: nat, width: nat)
    requires offset > 0 && width % (2 * offset) == 0 && lane < width
    ensures 0 <= Flip(lane, offset) < width
  {
    var n := 2 * offset;
    FlipInGroup(lane, offset);
    DivBounds(width, n);
    DivLess(lane, width / n, n);
    MulMonotone(lane / n + 1, width / n, n);
    assert (lane / n + 1) * n == lane / n * n + n;
  }

  /** All lanes at once: exchanges across half the group, then within the halves. */
  function Run<T>(op: (T, T) -> T, x: seq<T>, k: nat): (y: seq<T>)
    requires |x| % Pow2(k) == 0
    ensures |y| == |x|
    decreases k
  {
    if k == 0 then x
    else
      HalfDivides(|x|, Pow2(k - 1));
      Run(op, Exchange(op, x, Pow2(k - 1)), k - 1)
  }

  lemma HalfDivides(width: nat, half: nat)
    requires half > 0 && width % (2 * half) == 0
    ensures width % half == 0
  {
    DivBounds(width, 2 * half);
    var q := width / (2 * half);
    assert q * (2 * half) == 2 * q * half;
    DivUnique(width, half, 2 * q);
  }

  // ---------------------------------------------------------------- the reduction it computes

  ghost predicate Associative<T(!new)>(op: (T, T) -> T) {
    forall a, b, c :: op(op(a, b), c) == op(a, op(b, c))
  }

  ghost predicate Commutative<T(!new)>(op: (T, T) -> T) {
    forall a, b :: op(a, b) == op(b, a)
  }

  /** The values of `n` lanes from `lo` on, combined from left to right. */
  function Reduce<T>(op: (T, T) -> T, x: seq<T>, lo: nat, n: nat): T
    requires 0 < n && lo + n <= |x|
    decreases n
  {
    if n == 1 then x[lo] else op(Reduce(op, x, lo, n - 1), x[lo + n - 1])
  }

  lemma {:induction false} ReduceSplit<T(!new)>(op: (T, T) -> T, x: seq<T>, lo: nat, k: nat, m: nat)
    requires Associative(op) && 0 < k && 0 < m && lo + k + m <= |x|
    ensures Reduce(op, x, lo, k + m) == op(Reduce(op, x, lo, k), Reduce(op, x, lo + k, m))
    decreases m
  {
    if m > 1 {
      ReduceSplit(op, x, lo, k, m - 1);
    }
  }

  lemma Interchange<T(!new)>(op: (T, T) -> T, a: T, b: T, c: T, d: T)
    requires Associative(op) && Commutative(op)
    ensures op(op(a, b), op(c, d)) == op(op(a, c), op(b, d))
  {
    calc {
      op(op(a, b), op(c, d));
      op(a, op(b, op(c, d)));
      op(a, op(op(b, c), d));
      { assert op(b, c) == op(c, b); }
      op(a, op(op(c, b), d));
      op(a, op(c, op(b, d)));
      op(op(a, c), op(b, d));
    }
  }

  /** Combining two stretches lane by lane first makes no difference. */
  lemma {:induction false} ReducePairs<T(!new)>(op: (T, T) -> T, x: seq<T>, y: seq<T>, a: nat, b: nat, c: nat, n: nat)
    requires Associative(op) && Commutative(op)
    requires 0 < n && a + n <= |x| && b + n <= |x| && c + n <= |y|
    requires forall l :: c <= l < c + n ==> y[l] == op(x[a + (l - c)], x[b + (l - c)])
    ensures Reduce(op, y, c, n) == op(Reduce(op, x, a, n), Reduce(op, x, b, n))
    decreases n
  {
    assert y[c + (n - 1)] == op(x[a + (n - 1)], x[b + (n - 1)]);
    if n > 1 {
      ReducePairs(op, x, y, a, b, c, n - 1);
      Interchange(op, Reduce(op, x, a, n - 1), Reduce(op, x, b, n - 1), x[a + (n - 1)], x[b + (n - 1)]);
    }
  }

  lemma GroupFits(lane: nat, n: nat, width: nat)
    requires n > 0 && width % n == 0 && lane < width
    ensures 0 <= lane / n * n <= lane < lane / n * n + n <= width
  {
    DivBounds(lane, n);
    DivBounds(width, n);
    DivLess(lane, width / n, n);
    MulMonotone(lane / n + 1, width / n, n);
    assert (lane / n + 1) * n == lane / n * n + n;
  }

  /** After an exchange either half of a group holds, lane by lane, what both halves held. */
  lemma ExchangedHalf<T(!new)>(op: (T, T) -> T, x: seq<T>, half: nat, base: nat, sub: nat)
    requires Associative(op) && Commutative(op)
    requires half > 0 && |x| % (2 * half) == 0 && base + 2 * half <= |x|
    requires base % (2 * half) == 0 && (sub == base || sub == base + half)
    ensures Reduce(op, Exchange(op, x, half), sub, half) == Reduce(op, x, base, 2 * half)
  {
    hide Associative, Commutative, Exchange, Reduce;
    var y := Exchange(op, x, half);
    forall l | sub <= l < sub + half
      ensures y[l] == op(x[base + (l - sub)], x[base + half + (l - sub)])
    {
      ExchangedLane(op, x, half, base, sub, l);
    }
    ReducePairs(op, x, y, base, base + half, sub, half);
    ReduceSplit(op, x, base, half, half);
    assert half + half == 2 * half;
  }

  lemma MultipleOf(q: nat, n: nat)
    requires n > 0
    ensures (q * n) % n == 0
  {
    DivUnique(q * n, n, q);
  }

  lemma ExchangedLane<T(!new)>(op: (T, T) -> T, x: seq<T>, half: nat, base: nat, sub: nat, l: nat)
    requires Commutative(op) && half > 0 && |x| % (2 * half) == 0 && base + 2 * half <= |x|
    requires base % (2 * half) == 0 && (sub == base || sub == base + half) && sub <= l < sub + half
    ensures Exchange(op, x, half)[l] == op(x[base + (l - sub)], x[base + half + (l - sub)])
  {
    hide Flip;
    SameGroup(l, half, base);
    FlipInGroup(l, half);
    var across := Flip(l, half);
    assert Exchange(op, x, half)[l] == op(x[l], x[across]) == op(x[across], x[l]);
  }

  lemma HalfOf(lane: nat, half: nat, base: nat, sub: nat)
    requires half > 0 && base == lane / (2 * half) * (2 * half) && sub == lane / half * half
    ensures sub == base || sub == base + half
  {
    var q := lane / (2 * half);
    DivBounds(lane, 2 * half);
    assert q * (2 * half) == 2 * q * half;
    if lane < base + half {
      DivUnique(lane, half, 2 * q);
    } else {
      assert (2 * q + 1) * half == 2 * q * half + half;
      DivUnique(lane, half, 2 * q + 1);
    }
  }

  lemma SameGroup(l: nat, half: nat, base: nat)
    requires half > 0 && base % (2 * half) == 0 && base <= l < base + 2 * half
    ensures l / (2 * half) * (2 * half) == base
  {
    DivBounds(base, 2 * half);
    DivUnique(l, 2 * half, base / (2 * half));
  }

  /** Every lane ends with the reduction over all lanes of its aligned group. */
  lemma {:induction false} AllLanesReduced<T(!new)>(op: (T, T) -> T, x: seq<T>, k: nat, lane: nat)
    requires Associative(op) && Commutative(op) && |x| % Pow2(k) == 0 && lane < |x|
    ensures 0 <= lane / Pow2(k) * Pow2(k) && lane / Pow2(k) * Pow2(k) + Pow2(k) <= |x|
    ensures Run(op, x, k)[lane] == Reduce(op, x, lane / Pow2(k) * Pow2(k), Pow2(k))
    decreases k
  {
    hide Associative, Commutative, Exchange;
    GroupFits(lane, Pow2(k), |x|);
    if k > 0 {
      var half := Pow2(k - 1);
      HalfDivides(|x|, half);
      GroupFits(lane, half, |x|);
      AllLanesReduced(op, Exchange(op, x, half), k - 1, lane);
      MultipleOf(lane / (2 * half), 2 * half);
      HalfOf(lane, half, lane / (2 * half) * (2 * half), lane / half * half);
      ExchangedHalf(op, x, half, lane / (2 * half) * (2 * half), lane / half * half);
    }
  }
}
