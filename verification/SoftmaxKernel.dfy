/** The per-tile softmax of the attention kernels: the row maxima and row sums, and the loops
    that overwrite a tile of scores and a tile of outputs in place. */
module SoftmaxKernel {
  import opened Floats
  import opened OnlineSoftmax

  /** Row `i` of a tile. */
  function RowOf(tile: array2<Float>, i: nat): (row: seq<Float>)
    requires i < tile.Length0
    reads tile
    ensures |row| == tile.Length1
    ensures forall j :: 0 <= j < tile.Length1 ==> row[j] == tile[i, j]
  {
    seq(tile.Length1, j requires 0 <= j < tile.Length1 reads tile => tile[i, j])
  }

  /** All rows of a tile. */
  function Rows(tile: array2<Float>): (rows: seq<seq<Float>>)
    reads tile
    ensures |rows| == tile.Length0
    ensures forall i :: 0 <= i < tile.Length0 ==> rows[i] == RowOf(tile, i)
  {
    seq(tile.Length0, i requires 0 <= i < tile.Length0 reads tile => RowOf(tile, i))
  }

  method ReduceMax(first: bool, scores: array2<Float>, max: array<Float>)
    requires scores.Length0 == max.Length && scores.Length1 > 0
    modifies max
    ensures forall i :: 0 <= i < max.Length ==> max[i] == NextMax(first, old(max[i]), RowOf(scores, i))
  {
    for mi := 0 to max.Length
      invariant forall i :: 0 <= i < mi ==> max[i] == NextMax(first, old(max[i]), RowOf(scores, i))
      invariant forall i :: mi <= i < max.Length ==> max[i] == old(max[i])
    {
      ghost var row := RowOf(scores, mi);
      assert row[0..] == row;
      max[mi] := if first then scores[mi, 0] else Max(max[mi], scores[mi, 0]);
      for ni := 1 to scores.Length1
        invariant forall i :: 0 <= i < max.Length && i != mi ==>
          max[i] == (if i < mi then NextMax(first, old(max[i]), RowOf(scores, i)) else old(max[i]))
        invariant FoldMax(max[mi], row[ni..]) == NextMax(first, old(max[mi]), row)
      {
        assert row[ni..][0] == scores[mi, ni] && row[ni..][1..] == row[ni + 1..];
        max[mi] := Max(max[mi], scores[mi, ni]);
      }
    }
  }

  method ReduceSum(first: bool, probs: array2<Float>, sum: array<Float>)
    requires probs.Length0 == sum.Length && probs.Length1 > 0
    modifies sum
    ensures forall i :: 0 <= i < sum.Length ==>
      sum[i] == if first then FoldSum(probs[i, 0], RowOf(probs, i)[1..]) else FoldSum(old(sum[i]), RowOf(probs, i))
  {
    for mi := 0 to sum.Length
      invariant forall i :: 0 <= i < mi ==>
        sum[i] == if first then FoldSum(probs[i, 0], RowOf(probs, i)[1..]) else FoldSum(old(sum[i]), RowOf(probs, i))
      invariant forall i :: mi <= i < sum.Length ==> sum[i] == old(sum[i])
    {
      ghost var row := RowOf(probs, mi);
      ghost var total := if first then FoldSum(row[0], row[1..]) else FoldSum(sum[mi], row);
      sum[mi] := if first then probs[mi, 0] else Add(sum[mi], probs[mi, 0]);
      for ni := 1 to probs.Length1
        invariant forall i :: 0 <= i < mi ==>
          sum[i] == if first then FoldSum(probs[i, 0], RowOf(probs, i)[1..]) else FoldSum(old(sum[i]), RowOf(probs, i))
        invariant forall i :: mi < i < sum.Length ==> sum[i] == old(sum[i])
        invariant FoldSum(sum[mi], row[ni..]) == total
      {
        assert row[ni..][0] == probs[mi, ni] && row[ni..][1..] == row[ni + 1..];
        sum[mi] := Add(sum[mi], probs[mi, ni]);
      }
    }
  }

  method ScaleApplyExp2(f: Fns, scores: array2<Float>, max: array<Float>, scaleLog2: real)
    requires scores.Length0 == max.Length
    modifies scores
    ensures forall i :: 0 <= i < max.Length ==>
      RowOf(scores, i) == ScaleExpRow(f, old(RowOf(scores, i)), max[i], scaleLog2)
  {
    for mi := 0 to max.Length
      invariant forall i, j :: 0 <= i < max.Length && 0 <= j < scores.Length1 ==>
        scores[i, j] == if i < mi then ScaleExp(f, old(scores[i, j]), max[i], scaleLog2) else old(scores[i, j])
    {
      var maxScaled := if max[mi] == NegInf then Fin(0.0) else Mul(max[mi], Fin(scaleLog2));
      for ni := 0 to scores.Length1
        invariant forall i, j :: 0 <= i < max.Length && 0 <= j < scores.Length1 ==>
          scores[i, j] == if i < mi || (i == mi && j < ni) then ScaleExp(f, old(scores[i, j]), max[i], scaleLog2)
            else old(scores[i, j])
      {
        scores[mi, ni] := Exp2(f, Sub(Mul(scores[mi, ni], Fin(scaleLog2)), maxScaled));
      }
    }
    forall i | 0 <= i < max.Length
      ensures RowOf(scores, i) == ScaleExpRow(f, old(RowOf(scores, i)), max[i], scaleLog2)
    {
    }
  }

  class Softmax {
    const rowMax: array<Float>
    const rowSum: array<Float>

    constructor (rows: nat)
      ensures fresh(rowMax) && fresh(rowSum) && rowMax != rowSum
      ensures rowMax.Length == rowSum.Length == rows
    {
      rowMax := new Float[rows];
      rowSum := new Float[rows];
    }

    /** The running maximum takes in the tile of scores, the scores become probabilities, and the
        running sum and output are rescaled; the output is left for the second product to add to. */
    method SoftmaxRescaleO(isFirst: bool, checkInf: bool, f: Fns, scores: array2<Float>, accO: array2<Float>,
                           scaleLog2: real)
      requires rowMax != rowSum && scores != accO
      requires rowMax.Length == rowSum.Length == scores.Length0 == accO.Length0 && scores.Length1 > 0
      modifies rowMax, rowSum, scores, accO
      ensures forall i :: 0 <= i < rowMax.Length ==>
        rowMax[i] == NextMax(isFirst, old(rowMax[i]), old(RowOf(scores, i)))
      ensures forall i :: 0 <= i < rowMax.Length ==>
        RowOf(scores, i) == ScaleExpRow(f, old(RowOf(scores, i)), rowMax[i], scaleLog2)
      ensures forall i :: 0 <= i < rowMax.Length ==>
        rowSum[i]
          == NextSum(isFirst, old(rowSum[i]), RescaleFactor(f, old(rowMax[i]), rowMax[i], checkInf, scaleLog2),
                     RowOf(scores, i))
      ensures forall i, d :: 0 <= i < accO.Length0 && 0 <= d < accO.Length1 ==>
        accO[i, d]
          == Rescaled(isFirst, old(accO[i, d]), RescaleFactor(f, old(rowMax[i]), rowMax[i], checkInf, scaleLog2))
    {
      hide FoldMax, FoldSum, NextMax, ScaleExp, Max, Mul, Add;
      if isFirst {
        ReduceMax(true, scores, rowMax);
        ScaleApplyExp2(f, scores, rowMax, scaleLog2);
        ReduceSum(true, scores, rowSum);
      } else {
        var prev := new Float[rowMax.Length];
        forall i | 0 <= i < rowMax.Length {
          prev[i] := rowMax[i];
        }
        ReduceMax(false, scores, rowMax);
        for mi := 0 to rowMax.Length
          modifies rowSum, accO
          invariant forall i :: 0 <= i < rowMax.Length ==>
            rowSum[i] ==
              if i < mi then Mul(old(rowSum[i]), RescaleFactor(f, prev[i], rowMax[i], checkInf, scaleLog2))
              else old(rowSum[i])
          invariant forall i, d :: 0 <= i < accO.Length0 && 0 <= d < accO.Length1 ==>
            accO[i, d] ==
              if i < mi then Mul(old(accO[i, d]), RescaleFactor(f, prev[i], rowMax[i], checkInf, scaleLog2))
              else old(accO[i, d])
        {
          var maxCur := if !checkInf then rowMax[mi] else if rowMax[mi] == NegInf then Fin(0.0) else rowMax[mi];
          var scoresScale := Exp2(f, Mul(Sub(prev[mi], maxCur), Fin(scaleLog2)));
          assert scoresScale == RescaleFactor(f, prev[mi], rowMax[mi], checkInf, scaleLog2);
          rowSum[mi] := Mul(rowSum[mi], scoresScale);
          for ni := 0 to accO.Length1
            modifies accO
            invariant forall i, d :: 0 <= i < accO.Length0 && 0 <= d < accO.Length1 ==>
              accO[i, d] ==
                if i < mi || (i == mi && d < ni)
                then Mul(old(accO[i, d]), RescaleFactor(f, prev[i], rowMax[i], checkInf, scaleLog2))
                else old(accO[i, d])
          {
            accO[mi, ni] := Mul(accO[mi, ni], scoresScale);
          }
        }
        label rescaled:
        ScaleApplyExp2(f, scores, rowMax, scaleLog2);
        assert forall i :: 0 <= i < rowMax.Length ==> old@rescaled(RowOf(scores, i)) == old(RowOf(scores, i));
        ReduceSum(false, scores, rowSum);
      }
    }

    /** Divides the output by the sums, in place, and returns the log-sum-exp of every row. */
    method NormalizeSoftmaxLse(split: bool, f: Fns, accO: array2<Float>, scale: real) returns (lse: array<Float>)
      requires rowMax.Length == rowSum.Length == accO.Length0
      modifies accO
      ensures fresh(lse) && lse.Length == rowMax.Length
      ensures forall i :: 0 <= i < lse.Length ==> lse[i] == LseOf(f, rowMax[i], rowSum[i], scale, split)
      ensures forall i, d :: 0 <= i < accO.Length0 && 0 <= d < accO.Length1 ==>
        accO[i, d] == Mul(old(accO[i, d]), InvSum(rowSum[i]))
    {
      hide Mul, Add, Log, Recip;
      lse := new Float[rowMax.Length];
      for mi := 0 to accO.Length0
        invariant forall i :: 0 <= i < mi ==> lse[i] == LseOf(f, rowMax[i], rowSum[i], scale, split)
        invariant forall i, d :: 0 <= i < accO.Length0 && 0 <= d < accO.Length1 ==>
          accO[i, d] == if i < mi then Mul(old(accO[i, d]), InvSum(rowSum[i])) else old(accO[i, d])
      {
        var sum := rowSum[mi];
        var invSum := if sum == Fin(0.0) || sum.NaN? then Fin(1.0) else Recip(sum);
        lse[mi] := if sum == Fin(0.0) || sum.NaN? then (if split then NegInf else PosInf)
                   else Add(Mul(rowMax[mi], Fin(scale)), Log(f, sum));
        for ni := 0 to accO.Length1
          modifies accO
          invariant forall i, d :: 0 <= i < accO.Length0 && 0 <= d < accO.Length1 ==>
            accO[i, d] == if i < mi || (i == mi && d < ni) then Mul(old(accO[i, d]), InvSum(rowSum[i]))
              else old(accO[i, d])
        {
          accO[mi, ni] := Mul(accO[mi, ni], invSum);
        }
      }
    }
  }
}
