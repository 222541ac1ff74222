/** How many splits the split kernel is launched with. */
module SplitHeuristic {
  import opened Common
  import opened Arithmetic
  import opened Tiling
  import opened SplitKV
  import opened PagedAddress

  predicate Eligible(numNBlocks: nat, splits: nat)
    requires splits > 0
  {
    splits == 1 || CeilDiv(numNBlocks, splits) != CeilDiv(numNBlocks, splits - 1)
  }

  function CeilReal(x: real): int {
    if x == x.Floor as real then x.Floor else x.Floor + 1
  }

  /** The share of the last wave that is busy; no number when there is no work at all. */
  function Efficiency(work: nat, numSms: nat, splits: nat): Option<real>
    requires numSms > 0
  {
    var waves := (work * splits) as real / numSms as real;
    if CeilReal(waves) == 0 then None else Some(waves / CeilReal(waves) as real)
  }

  /** `best` is the highest efficiency of an eligible number of splits up to `max`. */
  ghost predicate IsBest(work: nat, numSms: nat, numNBlocks: nat, max: nat, best: real)
    requires numSms > 0
  {
    && (forall s :: 1 <= s <= max && Eligible(numNBlocks, s) && Efficiency(work, numSms, s).Some? ==>
          Efficiency(work, numSms, s).value <= best)
    && (exists s :: 1 <= s <= max && Eligible(numNBlocks, s) && Efficiency(work, numSms, s) == Some(best))
  }

  predicate GoodEnough(work: nat, numSms: nat, numNBlocks: nat, best: real, s: nat)
    requires numSms > 0 && s > 0
  {
    Eligible(numNBlocks, s) && Efficiency(work, numSms, s).Some? && Efficiency(work, numSms, s).value >= 0.85 * best
  }

  predicate FillsDevice(work: nat, numSms: nat) {
    work as real >= 0.8 * numSms as real
  }

  function MaxSplits(maxSplits: nat, numSms: nat, numNBlocks: nat): nat {
    var m := if maxSplits <= numSms then maxSplits else numSms;
    if m <= numNBlocks then m else numNBlocks
  }

  lemma PositiveWork(work: nat, numSms: nat, s: nat)
    requires numSms > 0 && s > 0
    ensures work > 0 ==> Efficiency(work, numSms, s).Some? && Efficiency(work, numSms, s).value > 0.0
    ensures work == 0 ==> Efficiency(work, numSms, s).None?
  {
  }

  /** One split if that fills the device, or if there is nothing to do; otherwise the smallest
      eligible number of splits whose efficiency is at least 85% of the best. */
  ghost predicate Chosen(work: nat, numSms: nat, numNBlocks: nat, maxSplits: nat, splits: nat) {
    var max := MaxSplits(maxSplits, numSms, numNBlocks);
    if FillsDevice(work, numSms) || work == 0 || max == 0 then splits == 1
    else
      && 1 <= splits <= max
      && exists best ::
           && IsBest(work, numSms, numNBlocks, max, best) && GoodEnough(work, numSms, numNBlocks, best, splits)
           && forall s :: 1 <= s < splits ==> !GoodEnough(work, numSms, numNBlocks, best, s)
  }

  /** There is only one such number. */
  lemma ChosenUnique(work: nat, numSms: nat, numNBlocks: nat, maxSplits: nat, a: nat, b: nat)
    requires Chosen(work, numSms, numNBlocks, maxSplits, a) && Chosen(work, numSms, numNBlocks, maxSplits, b)
    ensures a == b && a >= 1 && Eligible(numNBlocks, a)
  {
    hide Efficiency;
  }

  // ---------------------------------------------------------------- the choice in whole numbers

  /** The number of waves in which `work * splits` thread blocks run on `numSms` multiprocessors. */
  function Waves(work: nat, numSms: nat, splits: nat): nat
    requires numSms > 0
  {
    CeilDiv(work * splits, numSms)
  }

  /** It is the least number that is enough. */
  lemma WavesLeast(work: nat, numSms: nat, splits: nat, w: nat)
    requires numSms > 0
    ensures w * numSms >= work * splits <==> w >= Waves(work, numSms, splits)
  {
    var n, least := work * splits, Waves(work, numSms, splits);
    CeilDivBounds(n, numSms);
    if w >= least {
      MulMonotone(least, w, numSms);
    } else {
      MulMonotone(w, least - 1, numSms);
      Less(least, numSms);
    }
  }

  lemma Less(a: int, d: int)
    ensures (a - 1) * d == a * d - d
  {
  }

  /** The efficiency is the work over what the waves have room for; it is full exactly if the last
      wave is. */
  lemma EfficiencyExact(work: nat, numSms: nat, splits: nat)
    requires work > 0 && numSms > 0 && splits > 0
    ensures
      var w := Waves(work, numSms, splits);
      && w > 0 && Efficiency(work, numSms, splits).Some?
      && var e := Efficiency(work, numSms, splits).value;
         && e * (w * numSms) as real == (work * splits) as real
         && 0.0 < e <= 1.0 && (e == 1.0 <==> work * splits % numSms == 0)
  {
    var n, w := work * splits, Waves(work, numSms, splits);
    Positive(work, splits);
    CeilDivBounds(n, numSms);
    Less(w, numSms);
    var x := n as real / numSms as real;
    Quotient(n, numSms, w);
    CeilRealIs(x, w);
    Share(n, numSms, w, x, x / w as real);
    FullWave(n, numSms, w);
  }

  lemma Positive(a: nat, b: nat)
    requires a > 0 && b > 0
    ensures a * b > 0
  {
  }

  /** Between two multiples, so is the quotient. */
  lemma Quotient(n: nat, d: nat, w: nat)
    requires d > 0 && n > 0 && n <= w * d < n + d
    ensures w > 0 && (w - 1) as real < n as real / d as real <= w as real
  {
    var x, r, q := n as real / d as real, d as real, w as real;
    SomeWaves(n, d, w);
    WholeNumbers(w, d);
    ScaledBack(n as real, r);
    QuotientBounds(x, q, r, n as real, (w * d) as real);
  }

  lemma QuotientBounds(x: real, q: real, r: real, n: real, p: real)
    requires r > 0.0 && x * r == n && q * r == p && n <= p < n + r
    ensures q - 1.0 < x <= q
  {
    LessReal(q, r);
    Divided(x, q, r);
    Divided(q - 1.0, x, r);
  }

  lemma SomeWaves(n: nat, d: nat, w: nat)
    requires 0 < n <= w * d
    ensures w > 0
  {
  }

  lemma ScaledBack(n: real, r: real)
    requires r > 0.0
    ensures n / r * r == n
  {
  }

  lemma LessReal(q: real, r: real)
    ensures (q - 1.0) * r == q * r - r
  {
  }

  lemma Divided(a: real, b: real, r: real)
    requires r > 0.0
    ensures a * r <= b * r <==> a <= b
    ensures a * r < b * r <==> a < b
  {
    if a < b {
      assert (b - a) * r > 0.0;
    } else {
      assert (a - b) * r >= 0.0;
    }
  }

  lemma CeilRealIs(x: real, w: nat)
    requires w > 0 && (w - 1) as real < x <= w as real
    ensures CeilReal(x) == w
  {
  }

  lemma Share(n: nat, d: nat, w: nat, x: real, e: real)
    requires d > 0 && n > 0 && w > 0 && x == n as real / d as real && e == x / w as real && x <= w as real
    ensures e * (w * d) as real == n as real && 0.0 < e <= 1.0 && (e == 1.0 <==> w * d == n)
  {
    ScaledBack(n as real, d as real);
    ScaledBack(x, w as real);
    WholeNumbers(w, d);
    ShareReal(n as real, x, e, w as real, d as real);
  }

  lemma ShareReal(n: real, x: real, e: real, q: real, r: real)
    requires n > 0.0 && q > 0.0 && r > 0.0 && x * r == n && e * q == x && x <= q
    ensures e * (q * r) == n && 0.0 < e <= 1.0 && (e == 1.0 <==> q * r == n)
  {
    Associated(e, q, r);
    Divided(0.0, x, r);
    Divided(0.0, e, q);
    Divided(e, 1.0, q);
    Divided(1.0, e, q);
    Divided(q, x, r);
  }

  lemma Associated(a: real, b: real, c: real)
    ensures a * (b * c) == a * b * c
  {
  }

  lemma FullWave(n: nat, d: nat, w: nat)
    requires d > 0 && n <= w * d < n + d
    ensures w * d == n <==> n % d == 0
  {
    DivBounds(n, d);
    if n % d == 0 {
      DivUnique(n + d - 1, d, n / d);
      assert (n / d) * d == n;
      if n / d < w {
        MulMonotone(n / d + 1, w, d);
      }
      if w < n / d {
        MulMonotone(w, n / d, d);
      }
    } else {
      if w * d == n {
        DivUnique(n, d, w);
      }
    }
  }

  /** A number of splits that comes into question. */
  ghost predicate Candidate(numSms: nat, numNBlocks: nat, maxSplits: nat, s: nat) {
    1 <= s <= maxSplits && s <= numSms && s <= numNBlocks && Eligible(numNBlocks, s)
  }

  /** `s` has at least 85% of the efficiency of `t`. */
  predicate Reaches(work: nat, numSms: nat, s: nat, t: nat)
    requires numSms > 0
  {
    20 * s * Waves(work, numSms, t) >= 17 * t * Waves(work, numSms, s)
  }

  ghost predicate ReachesAll(work: nat, numSms: nat, numNBlocks: nat, maxSplits: nat, s: nat)
    requires numSms > 0
  {
    forall t: nat :: Candidate(numSms, numNBlocks, maxSplits, t) ==> Reaches(work, numSms, s, t)
  }

  /** One split if at least four fifths of the multiprocessors have work without more, or if there
      is nothing to split; otherwise the smallest candidate with at least 85% of the efficiency of
      every other. */
  ghost predicate Picked(work: nat, numSms: nat, numNBlocks: nat, maxSplits: nat, splits: nat) {
    if numSms == 0 || 5 * work >= 4 * numSms || work == 0 || numNBlocks == 0 || maxSplits == 0 then splits == 1
    else
      && Candidate(numSms, numNBlocks, maxSplits, splits) && ReachesAll(work, numSms, numNBlocks, maxSplits, splits)
      && forall s: nat :: s < splits && Candidate(numSms, numNBlocks, maxSplits, s) ==>
           !ReachesAll(work, numSms, numNBlocks, maxSplits, s)
  }

  lemma PickedUnique(work: nat, numSms: nat, numNBlocks: nat, maxSplits: nat, a: nat, b: nat)
    requires Picked(work, numSms, numNBlocks, maxSplits, a) && Picked(work, numSms, numNBlocks, maxSplits, b)
    ensures a == b
  {
    hide Candidate, ReachesAll;
  }

  /** Comparing efficiencies is comparing products. */
  lemma ReachesExact(work: nat, numSms: nat, s: nat, t: nat)
    requires work > 0 && numSms > 0 && s > 0 && t > 0
    ensures Efficiency(work, numSms, s).Some? && Efficiency(work, numSms, t).Some?
    ensures Efficiency(work, numSms, s).value >= 0.85 * Efficiency(work, numSms, t).value
       <==> Reaches(work, numSms, s, t)
  {
    EfficiencyExact(work, numSms, s);
    EfficiencyExact(work, numSms, t);
    hide Efficiency, Waves;
    var es, et := Efficiency(work, numSms, s).value, Efficiency(work, numSms, t).value;
    var ws, wt := Waves(work, numSms, s), Waves(work, numSms, t);
    PerUnit(work, numSms, s, ws, es);
    PerUnit(work, numSms, t, wt, et);
    var unit := work as real / numSms as real;
    Compare(es, et, ws as real, wt as real, s as real, t as real, unit);
    WholeNumbers(s, wt);
    WholeNumbers(t, ws);
  }

  lemma WholeNumbers(a: nat, b: nat)
    ensures (a * b) as real == a as real * b as real
  {
  }

  lemma PerUnit(work: nat, numSms: nat, s: nat, w: nat, e: real)
    requires work > 0 && numSms > 0 && e * (w * numSms) as real == (work * s) as real
    ensures e * w as real == s as real * (work as real / numSms as real)
    ensures work as real / numSms as real > 0.0
  {
    var r, u := numSms as real, work as real / numSms as real;
    assert u * r == work as real;
    WholeNumbers(w, numSms);
    WholeNumbers(work, s);
    Associated(e, w as real, r);
    Associated(s as real, u, r);
    assert e * w as real * r == s as real * u * r;
    Divided(e * w as real, s as real * u, r);
    Divided(s as real * u, e * w as real, r);
    Divided(0.0, u, r);
  }

  lemma Compare(es: real, et: real, ws: real, wt: real, s: real, t: real, unit: real)
    requires es * ws == s * unit && et * wt == t * unit && ws > 0.0 && wt > 0.0 && unit > 0.0
    ensures es >= 0.85 * et <==> 20.0 * (s * wt) >= 17.0 * (t * ws)
  {
    var k := ws * wt;
    assert k > 0.0;
    assert es * k == s * wt * unit by {
      assert es * (ws * wt) == es * ws * wt;
      assert s * unit * wt == s * wt * unit;
    }
    assert et * k == t * ws * unit by {
      assert et * (ws * wt) == et * wt * ws;
      assert t * unit * ws == t * ws * unit;
    }
    Divided(0.85 * et, es, k);
    Divided(0.85 * (t * ws), s * wt, unit);
    assert 0.85 * et * k == 0.85 * (et * k);
    assert 0.85 * (t * ws) * unit == 0.85 * (t * ws * unit);
  }

  /** The choice by efficiencies is the choice in whole numbers. */
  lemma ChosenIsPicked(work: nat, numSms: nat, numNBlocks: nat, maxSplits: nat, splits: nat)
    requires Chosen(work, numSms, numNBlocks, maxSplits, splits)
    ensures Picked(work, numSms, numNBlocks, maxSplits, splits)
  {
    FillsExact(work, numSms);
    var max := MaxSplits(maxSplits, numSms, numNBlocks);
    CandidateInRange(numSms, numNBlocks, maxSplits);
    if !FillsDevice(work, numSms) && work > 0 && max > 0 {
      var best :| IsBest(work, numSms, numNBlocks, max, best) && GoodEnough(work, numSms, numNBlocks, best, splits)
                  && forall s :: 1 <= s < splits ==> !GoodEnough(work, numSms, numNBlocks, best, s);
      forall s: nat | Candidate(numSms, numNBlocks, maxSplits, s)
        ensures GoodEnough(work, numSms, numNBlocks, best, s)
          <==> ReachesAll(work, numSms, numNBlocks, maxSplits, s)
      {
        GoodIsReaching(work, numSms, numNBlocks, maxSplits, best, s);
      }
      hide IsBest, GoodEnough, ReachesAll, Candidate, MaxSplits;
      GoodIsCandidate(work, numSms, numNBlocks, maxSplits, best, splits);
    }
  }

  lemma FillsExact(work: nat, numSms: nat)
    ensures FillsDevice(work, numSms) <==> 5 * work >= 4 * numSms
  {
  }

  lemma CandidateInRange(numSms: nat, numNBlocks: nat, maxSplits: nat)
    ensures forall s: nat :: Candidate(numSms, numNBlocks, maxSplits, s) ==>
      1 <= s <= MaxSplits(maxSplits, numSms, numNBlocks)
    ensures MaxSplits(maxSplits, numSms, numNBlocks) == 0 <==> numSms == 0 || numNBlocks == 0 || maxSplits == 0
  {
  }

  lemma GoodIsCandidate(work: nat, numSms: nat, numNBlocks: nat, maxSplits: nat, best: real, s: nat)
    requires numSms > 0 && 1 <= s <= MaxSplits(maxSplits, numSms, numNBlocks)
    requires GoodEnough(work, numSms, numNBlocks, best, s)
    ensures Candidate(numSms, numNBlocks, maxSplits, s)
  {
  }

  lemma GoodIsReaching(work: nat, numSms: nat, numNBlocks: nat, maxSplits: nat, best: real, s: nat)
    requires work > 0 && numSms > 0 && Candidate(numSms, numNBlocks, maxSplits, s)
    requires IsBest(work, numSms, numNBlocks, MaxSplits(maxSplits, numSms, numNBlocks), best)
    ensures GoodEnough(work, numSms, numNBlocks, best, s)
      <==> ReachesAll(work, numSms, numNBlocks, maxSplits, s)
  {
    hide Reaches, Eligible, Efficiency;
    var max := MaxSplits(maxSplits, numSms, numNBlocks);
    var top :| 1 <= top <= max && Eligible(numNBlocks, top) && Efficiency(work, numSms, top) == Some(best);
    assert Candidate(numSms, numNBlocks, maxSplits, top);
    ReachesExact(work, numSms, s, top);
    forall t: nat | Candidate(numSms, numNBlocks, maxSplits, t)
      ensures GoodEnough(work, numSms, numNBlocks, best, s) ==> Reaches(work, numSms, s, t)
    {
      ReachesExact(work, numSms, s, t);
    }
  }

  // ---------------------------------------------------------------- the search

  /** Always an eligible count within the limits; unless the device is full anyway, the smallest
      one whose efficiency is at least 85% of the best. */
  method NumSplitsHeuristic(work: nat, numSms: nat, numNBlocks: nat, maxSplits: nat) returns (splits: nat)
    ensures Chosen(work, numSms, numNBlocks, maxSplits, splits)
    ensures Picked(work, numSms, numNBlocks, maxSplits, splits)
  {
    if FillsDevice(work, numSms) {
      ChosenIsPicked(work, numSms, numNBlocks, maxSplits, 1);
      return 1;
    }
    hide Efficiency, Eligible, MaxSplits, Picked;
    var max := MaxSplits(maxSplits, numSms, numNBlocks);
    var maxEfficiency := 0.0;
    var efficiency: seq<Option<real>> := [];
    for s := 1 to max + 1
      invariant |efficiency| == s - 1
      invariant forall k :: 1 <= k < s && Eligible(numNBlocks, k) ==> efficiency[k - 1] == Efficiency(work, numSms, k)
      invariant forall k :: 1 <= k < s && Eligible(numNBlocks, k) && Efficiency(work, numSms, k).Some? ==>
        Efficiency(work, numSms, k).value <= maxEfficiency
      invariant maxEfficiency == 0.0 || IsBest(work, numSms, numNBlocks, s - 1, maxEfficiency)
      invariant maxEfficiency >= 0.0
    {
      if !Eligible(numNBlocks, s) {
        efficiency := efficiency + [Some(0.0)];
      } else {
        var eff := Efficiency(work, numSms, s);
        if eff.Some? && eff.value > maxEfficiency {
          maxEfficiency := eff.value;
        }
        efficiency := efficiency + [eff];
      }
    }
    FirstEligible(numNBlocks);
    PositiveWork(work, numSms, 1);
    assert work > 0 && max > 0 ==> IsBest(work, numSms, numNBlocks, max, maxEfficiency);
    for s := 1 to max + 1
      invariant forall k :: 1 <= k < s ==> !GoodEnough(work, numSms, numNBlocks, maxEfficiency, k)
    {
      if !Eligible(numNBlocks, s) {
        continue;
      }
      if efficiency[s - 1].Some? && efficiency[s - 1].value >= 0.85 * maxEfficiency {
        NoWork(work, numSms, s);
        ChosenIsPicked(work, numSms, numNBlocks, maxSplits, s);
        return s;
      }
    }
    if work > 0 && max > 0 {
      BestIsGoodEnough(work, numSms, numNBlocks, max, maxEfficiency);
    }
    ChosenIsPicked(work, numSms, numNBlocks, maxSplits, 1);
    return 1;
  }

  lemma FirstEligible(numNBlocks: nat)
    ensures Eligible(numNBlocks, 1)
  {
  }

  lemma NoWork(work: nat, numSms: nat, s: nat)
    requires numSms > 0 && s > 0 && Efficiency(work, numSms, s).Some?
    ensures work > 0
  {
  }

  lemma BestIsGoodEnough(work: nat, numSms: nat, numNBlocks: nat, max: nat, best: real)
    requires numSms > 0 && IsBest(work, numSms, numNBlocks, max, best) && best >= 0.0
    ensures exists s :: 1 <= s <= max && GoodEnough(work, numSms, numNBlocks, best, s)
  {
    var s :| 1 <= s <= max && Eligible(numNBlocks, s) && Efficiency(work, numSms, s) == Some(best);
    assert GoodEnough(work, numSms, numNBlocks, best, s);
  }

  // ---------------------------------------------------------------- what eligibility means

  /** An eligible count is one that the kernel's rounding gives back. */
  lemma EligibleExact(n: nat, splits: nat)
    requires 1 <= splits <= n
    ensures CeilDiv(n, splits) > 0
    ensures Eligible(n, splits) <==> CeilDiv(n, CeilDiv(n, splits)) == splits
  {
    var b := CeilDiv(n, splits);
    PerSplitPositive(n, splits);
    LastStarts(n, splits);
    CeilDivBounds(n, splits);
    CeilDivBounds(n, b);
    assert splits * b == b * splits;
    if (splits - 1) * b < n {
      assert splits * b == (splits - 1) * b + b;
      CeilDivUnique(n, b, splits);
    } else {
      assert splits * b == (splits - 1) * b + b;
      DivLess(n + b - 1, splits, b);
    }
  }

  lemma PerSplitPositive(n: nat, splits: nat)
    requires 1 <= splits <= n
    ensures CeilDiv(n, splits) > 0
  {
  }

  /** A count is eligible exactly if the last split starts before the last block. */
  lemma LastStarts(n: nat, splits: nat)
    requires 1 <= splits <= n
    ensures Eligible(n, splits) <==> (splits - 1) * CeilDiv(n, splits) < n
  {
    var b := CeilDiv(n, splits);
    CeilDivBounds(n, splits);
    if splits > 1 {
      var b1 := CeilDiv(n, splits - 1);
      CeilDivBounds(n, splits - 1);
      assert b1 * splits == b1 * (splits - 1) + b1;
      assert (b1 + 1) * splits == b1 * splits + splits;
      DivLess(n + splits - 1, b1 + 1, splits);
      if (splits - 1) * b >= n {
        assert (b + 1) * (splits - 1) == (splits - 1) * b + (splits - 1);
        DivLess(n + splits - 2, b + 1, splits - 1);
      }
    }
  }

  /** Without a mask, no split of the kernel is idle exactly if the count is eligible. */
  lemma NoIdleSplit(s: Shape, m: int, splits: nat)
    requires Launched(s) && !s.causal && !s.local && 1 <= splits <= CeilDiv(s.seqlenK, s.blockN)
    ensures Eligible(CeilDiv(s.seqlenK, s.blockN), splits)
      <==> forall idx :: 0 <= idx < splits ==> SplitMin(s, m, idx, splits) < SplitMax(s, m, idx, splits)
  {
    var n := CeilDiv(s.seqlenK, s.blockN);
    var b := CeilDiv(n, splits);
    PerSplitPositive(n, splits);
    LastStarts(n, splits);
    assert TruncDiv(s.seqlenK + s.blockN - 1, s.blockN) == n;
    assert BlocksPerSplit(s, splits) == b;
    if Eligible(n, splits) {
      forall idx | 0 <= idx < splits
        ensures SplitMin(s, m, idx, splits) < SplitMax(s, m, idx, splits)
      {
        MulMonotone(idx, splits - 1, b);
        assert (idx + 1) * b == idx * b + b;
      }
    } else {
      assert !(SplitMin(s, m, splits - 1, splits) < SplitMax(s, m, splits - 1, splits));
    }
  }

  // ---------------------------------------------------------------- the caller

  datatype SplitError = TooManySplits

  function BlockN(headSize: nat): nat {
    if headSize <= 64 then 256 else if headSize <= 128 then 128 else 64
  }

  /** The width that the heuristic assumes is that of the kernel that is launched. */
  lemma SameWidth(headSize: nat)
    ensures BlockN(headSize) == KernelTraits(headSize).blockN
  {
  }

  /** The heuristic is asked about twice the multiprocessors, and the check against 128 never fails. */
  method ComputeNumSplits(batchSize: nat, numHeads: nat, headSize: nat, maxSeqlenK: nat, maxSeqlenQ: nat,
                          multiprocessors: nat)
      returns (r: Result<nat, SplitError>)
    ensures r.Ok? && 1 <= r.value <= 128
    ensures KernelTraits(headSize).blockN > 0
    ensures Picked(batchSize * numHeads * CeilDiv(maxSeqlenQ, 64), 2 * multiprocessors,
                   CeilDiv(maxSeqlenK, KernelTraits(headSize).blockN), 128, r.value)
  {
    hide IsBest, GoodEnough, FillsDevice, Picked, KernelTraits;
    SameWidth(headSize);
    var blockN := BlockN(headSize);
    var numNBlocks := (maxSeqlenK + blockN - 1) / blockN;
    var numMBlocks := (maxSeqlenQ + 64 - 1) / 64;
    var splits := NumSplitsHeuristic(batchSize * numHeads * numMBlocks, multiprocessors * 2, numNBlocks, 128);
    if splits > 128 {
      return Err(TooManySplits);
    }
    return Ok(splits);
  }

  /** Without a mask, every split of the longest sequence then has a block of keys to work on. */
  lemma PickedNoIdle(work: nat, multiprocessors: nat, headSize: nat, s: Shape, m: int, splits: nat)
    requires Launched(s) && !s.causal && !s.local && s.seqlenK > 0 && s.blockN == KernelTraits(headSize).blockN
    requires Picked(work, 2 * multiprocessors, CeilDiv(s.seqlenK, s.blockN), 128, splits)
    ensures splits > 0 && forall idx :: 0 <= idx < splits ==> SplitMin(s, m, idx, splits) < SplitMax(s, m, idx, splits)
  {
    hide KernelTraits, SplitMin, SplitMax, ReachesAll;
    CeilDivBounds(s.seqlenK, s.blockN);
    FirstEligible(CeilDiv(s.seqlenK, s.blockN));
    NoIdleSplit(s, m, splits);
  }
}
