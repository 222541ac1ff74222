/** The split kernel: several thread blocks share the keys of one tile of queries, and a second
    kernel merges what they found. */
module SplitKV {
  import opened Arithmetic
  import opened Floats
  import opened PlainAttention
  import opened OnlineSoftmax
  import opened SoftmaxKernel
  import opened Tiling
  import opened FlashKernel
  import opened Combine

  // ---------------------------------------------------------------- the ranges of the splits

  function BlocksPerSplit(s: Shape, splits: nat): int
    requires s.blockN > 0 && splits > 0
  {
    TruncDiv(TruncDiv(s.seqlenK + s.blockN - 1, s.blockN) + splits - 1, splits)
  }

  function SplitMin(s: Shape, m: int, idx: int, splits: nat): int
    requires s.blockN > 0 && splits > 0
  {
    var first := idx * BlocksPerSplit(s, splits);
    if !s.local then first else MaxInt(first, WindowStart(s, m))
  }

  function SplitMax(s: Shape, m: int, idx: int, splits: nat): int
    requires s.blockN > 0 && splits > 0
  {
    var last := MinInt(CeilDivC(s.seqlenK, s.blockN), (idx + 1) * BlocksPerSplit(s, splits));
    if s.causal || s.local then MinInt(last, WindowEnd(s, m)) else last
  }

  predicate InSplit(s: Shape, m: int, idx: int, splits: nat, n: int)
    requires s.blockN > 0 && splits > 0
  {
    SplitMin(s, m, idx, splits) <= n < SplitMax(s, m, idx, splits)
  }

  lemma PerSplitBounds(s: Shape, splits: nat)
    requires Launched(s) && splits > 0
    ensures BlocksPerSplit(s, splits) >= 0
    ensures CeilDivC(s.seqlenK, s.blockN) <= splits * BlocksPerSplit(s, splits)
  {
  }

  lemma PositiveFactor(a: int, b: int)
    requires a * b > 0 && b >= 0
    ensures b > 0
  {
  }

  /** The ranges of the splits are disjoint, and together they are the range of the unsplit kernel. */
  lemma SplitsPartition(s: Shape, m: int, splits: nat, n: int)
    requires Launched(s) && splits > 0
    ensures BlockMin(s, m) <= n < BlockMax(s, m) <==> exists idx :: 0 <= idx < splits && InSplit(s, m, idx, splits, n)
    ensures forall i, j :: 0 <= i < splits && 0 <= j < splits ==>
      InSplit(s, m, i, splits, n) && InSplit(s, m, j, splits, n) ==> i == j
  {
    hide InSplit, BlockMin, BlockMax, BlocksPerSplit;
    var per := BlocksPerSplit(s, splits);
    if BlockMin(s, m) <= n < BlockMax(s, m) {
      var idx := SplitOf(s, m, splits, n);
    }
    forall idx | 0 <= idx < splits && InSplit(s, m, idx, splits, n)
      ensures BlockMin(s, m) <= n < BlockMax(s, m) && per > 0 && idx == n / per
    {
      SplitInside(s, m, splits, n, idx, per);
    }
  }

  lemma SplitOf(s: Shape, m: int, splits: nat, n: int) returns (idx: nat)
    requires Launched(s) && splits > 0 && BlockMin(s, m) <= n < BlockMax(s, m)
    ensures idx < splits && InSplit(s, m, idx, splits, n)
  {
    hide BlocksPerSplit, WindowStart, WindowEnd, CeilDivC;
    PerSplitBounds(s, splits);
    idx := ShareOf(n, splits, BlocksPerSplit(s, splits));
  }

  lemma ShareOf(n: nat, splits: nat, per: nat) returns (idx: nat)
    requires n < splits * per
    ensures idx < splits && idx * per <= n < (idx + 1) * per
  {
    PositiveFactor(splits, per);
    idx := n / per;
    DivBounds(n, per);
    DivLess(n, splits, per);
    NextMultiple(idx, per);
  }

  lemma SplitInside(s: Shape, m: int, splits: nat, n: int, idx: int, per: int)
    requires Launched(s) && splits > 0 && per == BlocksPerSplit(s, splits)
    requires 0 <= idx < splits && InSplit(s, m, idx, splits, n)
    ensures BlockMin(s, m) <= n < BlockMax(s, m) && per > 0 && idx == n / per
  {
    hide BlocksPerSplit, WindowStart, WindowEnd, CeilDivC;
    PerSplitBounds(s, splits);
    MulMonotone(0, idx, per);
    NextMultiple(idx, per);
    DivUnique(n, per, idx);
  }

  /** The columns of the splits, before any of them is skipped. */
  function SplitWidth(s: Shape, splits: nat): int
    requires s.blockN > 0 && splits > 0
  {
    BlocksPerSplit(s, splits) * s.blockN
  }

  /** Where a split's range differs from its share, it ends with the range of the unsplit kernel. */
  lemma SplitEnds(s: Shape, m: int, idx: int, splits: nat)
    requires s.blockN > 0 && splits > 0 && 0 <= idx
    ensures
      var first, a := idx * BlocksPerSplit(s, splits), SplitMin(s, m, idx, splits);
      first <= a && (a == first || a <= BlockMin(s, m))
    ensures
      var last, b := (idx + 1) * BlocksPerSplit(s, splits), SplitMax(s, m, idx, splits);
      b <= last && (b == last || b == BlockMax(s, m))
  {
    hide BlocksPerSplit, WindowStart, WindowEnd, CeilDivC;
  }

  lemma Associate(a: int, b: int, c: int)
    ensures a * (b * c) == a * b * c
  {
  }

  /** Block ranges as column ranges: where they differ, the column is out of both or in both. */
  lemma RangeColumns(first: int, last: int, a: int, b: int, blockMin: int, blockMax: int, N: nat, col: int)
    requires first <= a && (a == first || a <= blockMin)
    requires b <= last && (b == last || b == blockMax)
    requires blockMin * N <= col < blockMax * N
    ensures a * N <= col < b * N <==> first * N <= col < last * N
  {
    MulMonotone(first, a, N);
    MulMonotone(b, last, N);
    if a <= blockMin {
      MulMonotone(a, blockMin, N);
    }
  }

  /** Of the columns in its share a split skips only masked ones. */
  lemma SplitColumns(s: Shape, m: int, idx: int, splits: nat, row: int, col: int)
    requires Launched(s) && splits > 0 && 0 <= idx < splits && InTile(s, m, row) && Visible(s, row, col)
    ensures SplitMin(s, m, idx, splits) * s.blockN <= col < SplitMax(s, m, idx, splits) * s.blockN
      <==> idx * SplitWidth(s, splits) <= col < (idx + 1) * SplitWidth(s, splits)
  {
    hide Visible, InTile, BlocksPerSplit, SplitMin, SplitMax, BlockMin, BlockMax;
    var per, N := BlocksPerSplit(s, splits), s.blockN;
    Associate(idx, per, N);
    Associate(idx + 1, per, N);
    SplitEnds(s, m, idx, splits);
    VisibleVisited(s, m, row, col);
    RangeColumns(idx * per, (idx + 1) * per, SplitMin(s, m, idx, splits), SplitMax(s, m, idx, splits),
                 BlockMin(s, m), BlockMax(s, m), N, col);
  }

  lemma VisibleVisited(s: Shape, m: int, row: int, col: int)
    requires Launched(s) && InTile(s, m, row) && Visible(s, row, col)
    ensures BlockMin(s, m) * s.blockN <= col < BlockMax(s, m) * s.blockN
  {
    hide Visible, InTile, BlockMin, BlockMax;
    if !(BlockMin(s, m) * s.blockN <= col < BlockMax(s, m) * s.blockN) {
      SkippedBlocksHidden(s, m, row, col);
    }
  }

  /** All splits together reach the last key. */
  lemma SplitsReach(s: Shape, splits: nat)
    requires Launched(s) && splits > 0
    ensures SplitWidth(s, splits) >= 0 && s.seqlenK <= splits * SplitWidth(s, splits)
  {
    var per, N := BlocksPerSplit(s, splits), s.blockN;
    PerSplitBounds(s, splits);
    CeilDivCBounds(s.seqlenK, N);
    MulMonotone(CeilDivC(s.seqlenK, N), splits * per, N);
    MulMonotone(0, per, N);
    assert splits * (per * N) == (splits * per) * N;
  }

  // ---------------------------------------------------------------- one split of one tile

  /** A split's result for a row is the softmax over its share of the columns. */
  lemma SplitRow(s: Shape, p: Problem, m: int, idx: int, splits: nat, row: int, d: int, empty: Float)
    requires Launched(s) && p.visible == ((r, c) => Visible(s, r, c)) && InTile(s, m, row)
    requires splits > 0 && 0 <= idx < splits
    ensures
      var lo, hi := SplitMin(s, m, idx, splits) * s.blockN, SplitMax(s, m, idx, splits) * s.blockN;
      var from, to := idx * SplitWidth(s, splits), (idx + 1) * SplitWidth(s, splits);
      && SoftmaxOut(p, row, d, from, to) == SoftmaxOut(p, row, d, lo, hi)
      && SoftmaxLse(p, row, from, to, empty) == SoftmaxLse(p, row, lo, hi, empty)
  {
    hide SplitMin, SplitMax, SplitWidth, Visible, Mass, Weighted;
    forall col | p.visible(row, col)
      ensures SplitMin(s, m, idx, splits) * s.blockN <= col < SplitMax(s, m, idx, splits) * s.blockN
        <==> idx * SplitWidth(s, splits) <= col < (idx + 1) * SplitWidth(s, splits)
    {
      SplitColumns(s, m, idx, splits, row, col);
    }
    SameColumns(p, row, d, SplitMin(s, m, idx, splits) * s.blockN, SplitMax(s, m, idx, splits) * s.blockN,
                idx * SplitWidth(s, splits), (idx + 1) * SplitWidth(s, splits));
  }

  method ComputeSplitTile(s: Shape, p: Problem, m: nat, idx: nat, splits: nat, headDim: nat)
      returns (tileO: array2<Float>, tileLse: array<Float>)
    requires WellPosed(p) && p.visible == ((row, col) => Visible(s, row, col)) && Launched(s)
    requires s.even && s.causal ==> Aligned(s.blockM, s.blockN)
    requires idx < splits
    ensures fresh(tileO) && tileO.Length0 == s.blockM && tileO.Length1 == headDim
    ensures fresh(tileLse) && tileLse.Length == s.blockM
    ensures TileHolds(p, m * s.blockM, idx * SplitWidth(s, splits), (idx + 1) * SplitWidth(s, splits), splits > 1,
                      tileO, tileLse)
  {
    hide WellPosed, Visible, Aligned, SplitMin, SplitMax, SplitWidth, BlockMax, SoftmaxOut, SoftmaxLse;
    var nMin, nMax := SplitMin(s, m, idx, splits), SplitMax(s, m, idx, splits);
    SplitRange(s, m, idx, splits);
    if nMin >= nMax {
      tileO, tileLse := ZeroTile(s.blockM, headDim, splits > 1);
    } else {
      SplitInRange(s, p, m, nMin, nMax);
      tileO, tileLse := RowBlock(s, p, m, nMin, nMax, s.causal || s.local || !s.even, splits > 1, headDim);
    }
    BlockStartM(s, m);
    forall i, d | 0 <= i < s.blockM && 0 <= d < headDim
      ensures tileO[i, d]
        == Fin(SoftmaxOut(p, m * s.blockM + i, d, idx * SplitWidth(s, splits), (idx + 1) * SplitWidth(s, splits)))
    {
      SplitRow(s, p, m, idx, splits, m * s.blockM + i, d, EmptyLse(splits > 1));
      if nMin >= nMax {
        NoColumns(p, m * s.blockM + i, d, nMin, nMax, s.blockN, EmptyLse(splits > 1));
      }
    }
    forall i | 0 <= i < s.blockM
      ensures tileLse[i]
        == SoftmaxLse(p, m * s.blockM + i, idx * SplitWidth(s, splits), (idx + 1) * SplitWidth(s, splits),
                      EmptyLse(splits > 1))
    {
      SplitRow(s, p, m, idx, splits, m * s.blockM + i, 0, EmptyLse(splits > 1));
      if nMin >= nMax {
        NoColumns(p, m * s.blockM + i, 0, nMin, nMax, s.blockN, EmptyLse(splits > 1));
      }
    }
  }

  lemma SplitInRange(s: Shape, p: Problem, m: int, nMin: int, nMax: int)
    requires s.blockN > 0 && 0 <= nMin < nMax <= BlockMax(s, m) && p.visible == ((row, col) => Visible(s, row, col))
    ensures BlockRange(s, p, m, nMin, nMax) && FirstBlock(nMin, nMax) == nMin
  {
  }

  lemma SplitRange(s: Shape, m: int, idx: nat, splits: nat)
    requires Launched(s) && idx < splits
    ensures 0 <= SplitMin(s, m, idx, splits) && SplitMax(s, m, idx, splits) <= BlockMax(s, m)
  {
    PerSplitBounds(s, splits);
    MulMonotone(0, idx, BlocksPerSplit(s, splits));
  }

  lemma NoColumns(p: Problem, row: int, d: int, nMin: int, nMax: int, N: nat, empty: Float)
    requires nMin >= nMax
    ensures SoftmaxOut(p, row, d, nMin * N, nMax * N) == 0.0
    ensures SoftmaxLse(p, row, nMin * N, nMax * N, empty) == empty
  {
  }

  // ---------------------------------------------------------------- the combine kernel

  /** The log-sum-exps of a row; the slots beyond the last split read as minus infinity. */
  function LsesAt(lseAccum: array2<Float>, row: nat, slots: nat): (l: seq<Float>)
    requires row < lseAccum.Length1
    reads lseAccum
    ensures |l| == slots
    ensures forall i :: 0 <= i < slots ==> l[i] == if i < lseAccum.Length0 then lseAccum[i, row] else NegInf
  {
    seq(slots, i requires 0 <= i reads lseAccum => if i < lseAccum.Length0 then lseAccum[i, row] else NegInf)
  }

  function OutsAt(oAccum: array3<Float>, row: nat, d: nat): (o: seq<Float>)
    requires row < oAccum.Length1 && d < oAccum.Length2
    reads oAccum
    ensures |o| == oAccum.Length0
    ensures forall i :: 0 <= i < oAccum.Length0 ==> o[i] == oAccum[i, row, d]
  {
    seq(oAccum.Length0, i requires 0 <= i < oAccum.Length0 reads oAccum => oAccum[i, row, d])
  }

  method MaxLse(lse: seq<Float>) returns (max: Float)
    requires lse != []
    ensures max == LseMax(lse)
  {
    max := lse[0];
    for l := 1 to |lse|
      invariant FoldMax(max, lse[l..]) == FoldMax(lse[0], lse[1..])
    {
      assert lse[l..][0] == lse[l] && lse[l..][1..] == lse[l + 1..];
      max := Max(max, lse[l]);
    }
    max := if max == NegInf then Fin(0.0) else max;
  }

  method SumLse(f: Fns, lse: seq<Float>, max: Float) returns (sum: Float)
    requires lse != []
    ensures sum == LseSum(f, lse, max)
  {
    hide Add, ExpF, Sub;
    sum := ExpF(f, Sub(lse[0], max));
    for l := 1 to |lse|
      invariant FoldExp(f, sum, lse[l..], max) == LseSum(f, lse, max)
    {
      assert lse[l..][0] == lse[l] && lse[l..][1..] == lse[l + 1..];
      sum := Add(sum, ExpF(f, Sub(lse[l], max)));
    }
  }

  method Accumulate(f: Fns, scales: array<Float>, ghost lse: seq<Float>, ghost logSum: Float,
                    oAccum: array3<Float>, row: nat, d: nat) returns (o: Float)
    requires row < oAccum.Length1 && d < oAccum.Length2 && scales.Length == |lse| == oAccum.Length0
    requires forall i :: 0 <= i < |lse| ==> scales[i] == Scale(f, lse[i], logSum)
    ensures o == FoldScaled(f, Fin(0.0), lse, OutsAt(oAccum, row, d), logSum)
  {
    hide Add, Mul, Scale;
    o := Fin(0.0);
    ghost var os := OutsAt(oAccum, row, d);
    assert lse[0..] == lse && os[0..] == os;
    for split := 0 to oAccum.Length0
      invariant FoldScaled(f, o, lse[split..], os[split..], logSum) == FoldScaled(f, Fin(0.0), lse, os, logSum)
    {
      assert lse[split..][0] == lse[split] && lse[split..][1..] == lse[split + 1..];
      assert os[split..][0] == os[split] && os[split..][1..] == os[split + 1..];
      o := Add(o, Mul(scales[split], oAccum[split, row, d]));
    }
  }

  /** Merges the splits of one row. */
  method CombineRow(f: Fns, lseAccum: array2<Float>, oAccum: array3<Float>, slots: nat, row: nat, out: array2<Float>,
                    lse: array<Float>)
    requires 0 < lseAccum.Length0 == oAccum.Length0 <= slots
    requires lseAccum.Length1 == oAccum.Length1 == out.Length0 == lse.Length && oAccum.Length2 == out.Length1
    requires row < lse.Length && out != lseAccum
    modifies out, lse
    ensures
      var l := LsesAt(lseAccum, row, slots);
      && lse[row] == LogSum(f, LseSum(f, l, LseMax(l)), LseMax(l))
      && forall d :: 0 <= d < out.Length1 ==>
        out[row, d] == FoldScaled(f, Fin(0.0), l[..oAccum.Length0], OutsAt(oAccum, row, d), lse[row])
    ensures forall r :: 0 <= r < lse.Length && r != row ==> lse[r] == old(lse[r])
    ensures forall r, d :: 0 <= r < lse.Length && r != row && 0 <= d < out.Length1 ==> out[r, d] == old(out[r, d])
  {
    hide LogSum, LseSum, LseMax, FoldScaled, Scale;
    var l := LsesAt(lseAccum, row, slots);
    var max := MaxLse(l);
    var sum := SumLse(f, l, max);
    var logSum := LogSum(f, sum, max);
    lse[row] := logSum;
    var scales := new Float[oAccum.Length0](i requires 0 <= i < |l| => Scale(f, l[i], logSum));
    for d := 0 to out.Length1
      modifies out
      invariant forall k :: 0 <= k < d ==>
        out[row, k] == FoldScaled(f, Fin(0.0), l[..oAccum.Length0], OutsAt(oAccum, row, k), logSum)
      invariant forall r, k :: 0 <= r < lse.Length && r != row && 0 <= k < out.Length1 ==> out[r, k] == old(out[r, k])
    {
      out[row, d] := Accumulate(f, scales, l[..oAccum.Length0], logSum, oAccum, row, d);
    }
  }

  // ---------------------------------------------------------------- both kernels together

  /** Split `idx` has written row `row`. */
  ghost predicate PartDone(p: Problem, width: int, lseAccum: array2<Float>, oAccum: array3<Float>, idx: nat, row: nat)
    requires idx < lseAccum.Length0 == oAccum.Length0 && row < lseAccum.Length1 == oAccum.Length1
    reads lseAccum, oAccum
  {
    && lseAccum[idx, row] == SoftmaxLse(p, row, idx * width, (idx + 1) * width, NegInf)
    && forall d :: 0 <= d < oAccum.Length2 ==>
      oAccum[idx, row, d] == Fin(SoftmaxOut(p, row, d, idx * width, (idx + 1) * width))
  }

  method WriteSplit(idx: nat, base: nat, tileO: array2<Float>, tileLse: array<Float>, oAccum: array3<Float>,
                    lseAccum: array2<Float>)
    requires tileO.Length0 == tileLse.Length && tileO.Length1 == oAccum.Length2
    requires idx < lseAccum.Length0 == oAccum.Length0 && lseAccum.Length1 == oAccum.Length1
    requires tileO != lseAccum
    modifies oAccum, lseAccum
    ensures forall i, row :: 0 <= i < lseAccum.Length0 && 0 <= row < lseAccum.Length1 ==>
      lseAccum[i, row] == if i == idx && base <= row < base + tileLse.Length then tileLse[row - base]
        else old(lseAccum[i, row])
    ensures forall i, row, d :: 0 <= i < oAccum.Length0 && 0 <= row < oAccum.Length1 && 0 <= d < oAccum.Length2 ==>
      oAccum[i, row, d] == if i == idx && base <= row < base + tileO.Length0 then tileO[row - base, d]
        else old(oAccum[i, row, d])
  {
    forall row, d | base <= row < base + tileO.Length0 && row < oAccum.Length1 && 0 <= d < oAccum.Length2 {
      oAccum[idx, row, d] := tileO[row - base, d];
    }
    forall row | base <= row < base + tileLse.Length && row < lseAccum.Length1 {
      lseAccum[idx, row] := tileLse[row - base];
    }
  }

  /** One split of every tile. */
  method ComputeSplit(s: Shape, p: Problem, idx: nat, splits: nat, oAccum: array3<Float>, lseAccum: array2<Float>)
    requires WellPosed(p) && p.visible == ((row, col) => Visible(s, row, col)) && Launched(s)
    requires s.even && s.causal ==> Aligned(s.blockM, s.blockN)
    requires idx < splits == lseAccum.Length0 == oAccum.Length0 && splits > 1
    requires lseAccum.Length1 == oAccum.Length1 == s.seqlenQ
    modifies oAccum, lseAccum
    ensures forall i, row :: 0 <= i < splits && 0 <= row < s.seqlenQ ==>
      i == idx || old(PartDone(p, SplitWidth(s, splits), lseAccum, oAccum, i, row)) ==>
        PartDone(p, SplitWidth(s, splits), lseAccum, oAccum, i, row)
  {
    hide WellPosed, Visible, Aligned, SplitWidth, SoftmaxLse, SoftmaxOut;
    var tiles := (s.seqlenQ + s.blockM - 1) / s.blockM;
    for m := 0 to tiles
      invariant forall i, row :: 0 <= i < splits && 0 <= row < s.seqlenQ ==>
        (i == idx && row < m * s.blockM) || old(PartDone(p, SplitWidth(s, splits), lseAccum, oAccum, i, row)) ==>
          PartDone(p, SplitWidth(s, splits), lseAccum, oAccum, i, row)
    {
      BlockStartM(s, m);
      var tileO, tileLse := ComputeSplitTile(s, p, m, idx, splits, oAccum.Length2);
      label computed:
      WriteSplit(idx, m * s.blockM, tileO, tileLse, oAccum, lseAccum);
      forall i, row | 0 <= i < splits && 0 <= row < s.seqlenQ &&
        ((i == idx && row < (m + 1) * s.blockM) || old(PartDone(p, SplitWidth(s, splits), lseAccum, oAccum, i, row)))
        ensures PartDone(p, SplitWidth(s, splits), lseAccum, oAccum, i, row)
      {
        if i == idx && InTile(s, m, row) {
          assert m * s.blockM + (row - m * s.blockM) == row;
        } else {
          assert old@computed(PartDone(p, SplitWidth(s, splits), lseAccum, oAccum, i, row));
        }
      }
    }
    DivBounds(s.seqlenQ + s.blockM - 1, s.blockM);
  }

  /** What the splits left behind for a row is what the merge needs; the unused slots stand for
      empty parts. */
  lemma LsesOfRow(p: Problem, width: nat, lseAccum: array2<Float>, oAccum: array3<Float>, slots: nat, row: nat)
    requires lseAccum.Length0 == oAccum.Length0 <= slots && row < lseAccum.Length1 == oAccum.Length1
    requires forall idx :: 0 <= idx < lseAccum.Length0 ==> PartDone(p, width, lseAccum, oAccum, idx, row)
    ensures LsesOf(p, row, 0, lseAccum.Length0, width, LsesAt(lseAccum, row, slots))
  {
    var parts := lseAccum.Length0;
    var l := LsesAt(lseAccum, row, slots);
    forall j | 0 <= j < slots
      ensures l[j] == SoftmaxLse(p, row, Cut(0 + j, parts, width), Cut(0 + j + 1, parts, width), NegInf)
    {
      if j < parts {
        assert PartDone(p, width, lseAccum, oAccum, j, row);
      }
    }
  }

  lemma OutsOfRow(p: Problem, width: nat, lseAccum: array2<Float>, oAccum: array3<Float>, row: nat, d: nat)
    requires lseAccum.Length0 == oAccum.Length0 && row < lseAccum.Length1 == oAccum.Length1 && d < oAccum.Length2
    requires forall idx :: 0 <= idx < lseAccum.Length0 ==> PartDone(p, width, lseAccum, oAccum, idx, row)
    ensures OutsOf(p, row, d, 0, lseAccum.Length0, width, OutsAt(oAccum, row, d))
  {
    hide SoftmaxOut;
    var parts := lseAccum.Length0;
    var o := OutsAt(oAccum, row, d);
    forall j | 0 <= j < parts
      ensures o[j] == Fin(SoftmaxOut(p, row, d, Cut(0 + j, parts, width), Cut(0 + j + 1, parts, width)))
    {
      assert PartDone(p, width, lseAccum, oAccum, j, row);
    }
  }

  lemma FirstLses(p: Problem, row: int, parts: nat, width: nat, l: seq<Float>, n: nat)
    requires LsesOf(p, row, 0, parts, width, l) && n <= |l|
    ensures LsesOf(p, row, 0, parts, width, l[..n])
  {
  }

  /** The shares of all splits hold every key. */
  lemma AllSplits(s: Shape, p: Problem, splits: nat, row: int, d: int)
    requires Launched(s) && splits > 0 && p.visible == ((r, c) => Visible(s, r, c))
    ensures SoftmaxOut(p, row, d, 0, splits * SplitWidth(s, splits)) == SoftmaxOut(p, row, d, 0, s.seqlenK)
    ensures SoftmaxLse(p, row, 0, splits * SplitWidth(s, splits), PosInf) == SoftmaxLse(p, row, 0, s.seqlenK, PosInf)
  {
    SplitsReach(s, splits);
    SameColumns(p, row, d, 0, splits * SplitWidth(s, splits), 0, s.seqlenK);
  }

  /** The merge of a row whose splits are all done. */
  lemma MergedRow(s: Shape, p: Problem, splits: nat, slots: nat, lseAccum: array2<Float>, oAccum: array3<Float>,
                  row: nat, out: seq<Float>, lse: Float)
    requires WellPosed(p) && p.visible == ((r, c) => Visible(s, r, c)) && Launched(s)
    requires 0 < splits == lseAccum.Length0 == oAccum.Length0 <= slots
    requires row < lseAccum.Length1 == oAccum.Length1 && |out| == oAccum.Length2
    requires forall idx :: 0 <= idx < splits ==> PartDone(p, SplitWidth(s, splits), lseAccum, oAccum, idx, row)
    requires
      var l := LsesAt(lseAccum, row, slots);
      && lse == LogSum(p.f, LseSum(p.f, l, LseMax(l)), LseMax(l))
      && forall d :: 0 <= d < |out| ==> out[d] == FoldScaled(p.f, Fin(0.0), l[..splits], OutsAt(oAccum, row, d), lse)
    ensures RowDone(p, s.seqlenK, row, out, lse, false)
  {
    hide WellPosed, Visible, PartDone, SplitWidth, LsesOf, OutsOf, LogSum, LseSum, LseMax, FoldScaled, SoftmaxOut,
         SoftmaxLse;
    SplitsReach(s, splits);
    var w: nat := SplitWidth(s, splits);
    var l := LsesAt(lseAccum, row, slots);
    LsesOfRow(p, w, lseAccum, oAccum, slots, row);
    LogSumExact(p, row, splits, w, l);
    AllSplits(s, p, splits, row, 0);
    FirstLses(p, row, splits, w, l, splits);
    forall d | 0 <= d < |out|
      ensures out[d] == Fin(SoftmaxOut(p, row, d, 0, s.seqlenK))
    {
      OutsOfRow(p, w, lseAccum, oAccum, row, d);
      CombineExact(p, row, d, splits, w, l[..splits], OutsAt(oAccum, row, d), lse);
      AllSplits(s, p, splits, row, d);
    }
  }

  /** The split kernels compute the same attention as the unsplit one. */
  method SplitForward(s: Shape, f: Fns, scale: real, score: (int, int) -> real, value: (int, int) -> real,
                      splits: nat, slots: nat, out: array2<Float>, lse: array<Float>)
    requires Lawful(f) && f.log2e > 0.0 && scale > 0.0 && Launched(s)
    requires s.even && s.causal ==> Aligned(s.blockM, s.blockN)
    requires 1 < splits <= slots
    requires out.Length0 == lse.Length == s.seqlenQ
    modifies out, lse
    ensures forall row :: 0 <= row < s.seqlenQ ==>
      Attends(f, scale, score, value, (r, c) => Visible(s, r, c), row, 0, s.seqlenK, RowOf(out, row), lse[row])
  {
    hide Lawful, Visible, Aligned, PartDone, RowDone, LogSum, LseSum, LseMax, FoldScaled, SplitWidth, Attends,
         WellPosed;
    var p := Attention(s, f, scale, score, value);
    AttentionGiven(s, f, scale, score, value, 0, [], PosInf);
    var oAccum := new Float[splits, s.seqlenQ, out.Length1];
    var lseAccum := new Float[splits, s.seqlenQ];
    for idx := 0 to splits
      modifies oAccum, lseAccum
      invariant forall i, row :: 0 <= i < idx && 0 <= row < s.seqlenQ ==>
        PartDone(p, SplitWidth(s, splits), lseAccum, oAccum, i, row)
    {
      ComputeSplit(s, p, idx, splits, oAccum, lseAccum);
    }
    for row := 0 to s.seqlenQ
      modifies out, lse
      invariant forall r :: 0 <= r < row ==> RowDone(p, s.seqlenK, r, RowOf(out, r), lse[r], false)
    {
      label before:
      CombineRow(f, lseAccum, oAccum, slots, row, out, lse);
      MergedRow(s, p, splits, slots, lseAccum, oAccum, row, RowOf(out, row), lse[row]);
      assert forall r :: 0 <= r < row ==> RowOf(out, r) == old@before(RowOf(out, r));
    }
    forall row | 0 <= row < s.seqlenQ
      ensures Attends(f, scale, score, value, (r, c) => Visible(s, r, c), row, 0, s.seqlenK, RowOf(out, row), lse[row])
    {
      AttentionGiven(s, f, scale, score, value, row, RowOf(out, row), lse[row]);
    }
  }

  /** With a single split the same kernel writes its result itself; this is how paged keys are
      read when no split pays off. */
  method SingleSplitForward(s: Shape, f: Fns, scale: real, score: (int, int) -> real, value: (int, int) -> real,
                            out: array2<Float>, lse: array<Float>)
    requires Lawful(f) && f.log2e > 0.0 && scale > 0.0 && Launched(s)
    requires s.even && s.causal ==> Aligned(s.blockM, s.blockN)
    requires out.Length0 == lse.Length == s.seqlenQ
    modifies out, lse
    ensures forall row :: 0 <= row < s.seqlenQ ==>
      Attends(f, scale, score, value, (r, c) => Visible(s, r, c), row, 0, s.seqlenK, RowOf(out, row), lse[row])
  {
    hide Lawful, Visible, Aligned, RowDone, SplitWidth, TileHolds, Attends, WellPosed;
    var p := Attention(s, f, scale, score, value);
    AttentionGiven(s, f, scale, score, value, 0, [], PosInf);
    var tiles := (s.seqlenQ + s.blockM - 1) / s.blockM;
    for m := 0 to tiles
      invariant forall row :: 0 <= row < s.seqlenQ && row < m * s.blockM ==>
        RowDone(p, s.seqlenK, row, RowOf(out, row), lse[row], false)
    {
      BlockStartM(s, m);
      var tileO, tileLse := ComputeSplitTile(s, p, m, 0, 1, out.Length1);
      label computed:
      WriteTile(m * s.blockM, s.seqlenQ, tileO, tileLse, out, lse);
      forall row | 0 <= row < s.seqlenQ && row < (m + 1) * s.blockM
        ensures RowDone(p, s.seqlenK, row, RowOf(out, row), lse[row], false)
      {
        if row < m * s.blockM {
          assert RowOf(out, row) == old@computed(RowOf(out, row));
        } else {
          SingleRow(s, p, m, row, tileO, tileLse, RowOf(out, row), lse[row]);
        }
      }
    }
    DivBounds(s.seqlenQ + s.blockM - 1, s.blockM);
    forall row | 0 <= row < s.seqlenQ
      ensures Attends(f, scale, score, value, (r, c) => Visible(s, r, c), row, 0, s.seqlenK, RowOf(out, row), lse[row])
    {
      AttentionGiven(s, f, scale, score, value, row, RowOf(out, row), lse[row]);
    }
  }

  lemma SingleRow(s: Shape, p: Problem, m: nat, row: nat, tileO: array2<Float>, tileLse: array<Float>, o: seq<Float>,
                  lse: Float)
    requires Launched(s) && p.visible == ((r, c) => Visible(s, r, c))
    requires tileO.Length0 == tileLse.Length && m * s.blockM <= row < m * s.blockM + tileO.Length0
    requires TileHolds(p, m * s.blockM, 0 * SplitWidth(s, 1), (0 + 1) * SplitWidth(s, 1), false, tileO, tileLse)
    requires o == RowOf(tileO, row - m * s.blockM) && lse == tileLse[row - m * s.blockM]
    ensures RowDone(p, s.seqlenK, row, o, lse, false)
  {
    hide SplitWidth, Visible, SoftmaxOut, SoftmaxLse;
    assert m * s.blockM + (row - m * s.blockM) == row;
    AllSplits(s, p, 1, row, 0);
    forall d | 0 <= d < |o|
      ensures o[d] == Fin(SoftmaxOut(p, row, d, 0, s.seqlenK))
    {
      AllSplits(s, p, 1, row, d);
    }
  }
}
