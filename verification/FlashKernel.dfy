/** The forward attention kernel: one tile of query rows, its key blocks from the last down to
    the first, in two loops of which only the first masks. */
module FlashKernel {
  import opened Arithmetic
  import opened Floats
  import opened PlainAttention
  import opened OnlineSoftmax
  import opened SoftmaxKernel
  import opened Tiling

  /** The attention problem of one head, with the mask that the shape stands for. */
  function Attention(s: Shape, f: Fns, scale: real, score: (int, int) -> real, value: (int, int) -> real): Problem {
    Problem(f, scale, Times(scale, f.log2e), score, value, (row, col) => Visible(s, row, col))
  }

  /** The same scores and values without any mask. */
  function Unmasked(p: Problem): Problem {
    p.(visible := (row, col) => true)
  }

  method ApplyMask(s: Shape, causalMask: bool, even: bool, tile: array2<Float>, row0: int, col0: int)
    requires causalMask ==> !s.local
    modifies tile
    ensures forall i, j :: 0 <= i < tile.Length0 && 0 <= j < tile.Length1 ==>
      tile[i, j] == if Masked(s, causalMask, even, row0 + i, col0 + j) then NegInf else old(tile[i, j])
  {
    if !causalMask && !s.local {
      if !even {
        for nj := 0 to tile.Length1
          invariant forall i, j :: 0 <= i < tile.Length0 && 0 <= j < tile.Length1 ==>
            tile[i, j] == if j < nj && col0 + j >= s.seqlenK then NegInf else old(tile[i, j])
        {
          for mi := 0 to tile.Length0
            invariant forall i, j :: 0 <= i < tile.Length0 && 0 <= j < tile.Length1 ==>
              tile[i, j] == if (j < nj || (j == nj && i < mi)) && col0 + j >= s.seqlenK then NegInf else old(tile[i, j])
          {
            if col0 + nj >= s.seqlenK {
              tile[mi, nj] := NegInf;
            }
          }
        }
      }
    } else {
      for mi := 0 to tile.Length0
        invariant forall i, j :: 0 <= i < tile.Length0 && 0 <= j < tile.Length1 ==>
          tile[i, j] == if i < mi && Masked(s, causalMask, even, row0 + i, col0 + j) then NegInf else old(tile[i, j])
      {
        var row := row0 + mi;
        var limitLeft := MaxInt(0, row + s.seqlenK - s.seqlenQ - s.windowLeft);
        var limitRight := MinInt(s.seqlenK, row + 1 + s.seqlenK - s.seqlenQ + s.windowRight);
        for nj := 0 to tile.Length1
          invariant forall i, j :: 0 <= i < tile.Length0 && 0 <= j < tile.Length1 ==>
            tile[i, j] == if (i < mi || (i == mi && j < nj)) && Masked(s, causalMask, even, row0 + i, col0 + j)
                          then NegInf
                          else old(tile[i, j])
        {
          var col := col0 + nj;
          if causalMask {
            if col >= limitRight {
              tile[mi, nj] := NegInf;
            }
          }
          if s.local {
            if col >= limitRight || col < limitLeft {
              tile[mi, nj] := NegInf;
            }
          }
        }
      }
    }
  }

  /** The first product: a tile of queries with a block of keys. */
  method ScoreTile(score: (int, int) -> real, tile: array2<Float>, row0: int, col0: int)
    modifies tile
    ensures forall i, j :: 0 <= i < tile.Length0 && 0 <= j < tile.Length1 ==>
      tile[i, j] == Fin(score(row0 + i, col0 + j))
  {
    forall i, j | 0 <= i < tile.Length0 && 0 <= j < tile.Length1 {
      tile[i, j] := Fin(score(row0 + i, col0 + j));
    }
  }

  /** The second product: the probabilities of a block with its values, added to the output. */
  method AddProducts(probs: array2<Float>, value: (int, int) -> real, col0: int, accO: array2<Float>)
    requires probs != accO && probs.Length0 == accO.Length0
    modifies accO
    ensures forall i, d :: 0 <= i < accO.Length0 && 0 <= d < accO.Length1 ==>
      accO[i, d] == FoldDot(old(accO[i, d]), RowOf(probs, i), value, col0, d)
  {
    hide Add, Mul;
    for mi := 0 to accO.Length0
      invariant forall i, d :: 0 <= i < accO.Length0 && 0 <= d < accO.Length1 ==>
        accO[i, d] == if i < mi then FoldDot(old(accO[i, d]), RowOf(probs, i), value, col0, d) else old(accO[i, d])
    {
      for di := 0 to accO.Length1
        invariant forall i, d :: 0 <= i < accO.Length0 && 0 <= d < accO.Length1 ==>
          accO[i, d] == if i < mi || (i == mi && d < di) then FoldDot(old(accO[i, d]), RowOf(probs, i), value, col0, d)
                        else old(accO[i, d])
      {
        accO[mi, di] := Dot(accO[mi, di], RowOf(probs, mi), value, col0, di);
      }
    }
  }

  method Dot(start: Float, probs: seq<Float>, value: (int, int) -> real, col0: int, d: int) returns (acc: Float)
    ensures acc == FoldDot(start, probs, value, col0, d)
  {
    hide Add, Mul;
    acc := start;
    assert probs[0..] == probs;
    for k := 0 to |probs|
      invariant FoldDot(acc, probs[k..], value, col0 + k, d) == FoldDot(start, probs, value, col0, d)
    {
      assert probs[k..][0] == probs[k] && probs[k..][1..] == probs[k + 1..];
      acc := Add(acc, Mul(probs[k], Fin(value(col0 + k, d))));
    }
  }

  // ---------------------------------------------------------------- one block of keys

  /** Row `i` of the registers, at row `row0 + i` of the problem. */
  ghost predicate Ready(p: Problem, row0: int, first: bool, mid: int, hi: int, softmax: Softmax, accO: array2<Float>)
    requires softmax.rowMax.Length == softmax.rowSum.Length == accO.Length0
    reads softmax.rowMax, softmax.rowSum, accO
  {
    forall i :: 0 <= i < accO.Length0 ==>
      RowReady(p, row0 + i, first, mid, hi, softmax.rowMax[i], softmax.rowSum[i], RowOf(accO, i))
  }

  ghost predicate MaskExact(s: Shape, p: Problem, causalMask: bool, even: bool,
                            row0: int, rows: nat, col0: int, cols: nat) {
    forall row, col :: row0 <= row < row0 + rows && col0 <= col < col0 + cols ==>
      (Masked(s, causalMask, even, row, col) <==> !p.visible(row, col))
  }

  ghost predicate EveryRowSees(p: Problem, row0: int, rows: nat, lo: int, hi: int) {
    forall row :: row0 <= row < row0 + rows ==> AnyVisible(p, row, lo, hi)
  }

  /** Scores one block, masks it and takes it into the running softmax of every row. */
  method Step(s: Shape, p: Problem, first: bool, checkInf: bool, causalMask: bool, even: bool,
              row0: int, lo: int, ghost hi: int, scores: array2<Float>, softmax: Softmax, accO: array2<Float>)
    requires WellPosed(p) && (causalMask ==> !s.local)
    requires softmax.rowMax != softmax.rowSum && scores != accO && scores.Length1 > 0
    requires softmax.rowMax.Length == softmax.rowSum.Length == scores.Length0 == accO.Length0
    requires MaskExact(s, p, causalMask, even, row0, scores.Length0, lo, scores.Length1)
    requires first || checkInf || EveryRowSees(p, row0, scores.Length0, lo, hi)
    requires Ready(p, row0, first, lo + scores.Length1, hi, softmax, accO)
    modifies softmax.rowMax, softmax.rowSum, scores, accO
    ensures Ready(p, row0, false, lo, hi, softmax, accO)
  {
    hide Lawful, WellPosed, RowHolds, AnyVisible, Masked, Visible, FoldDot, ScaleExp, NextMax, NextSum, Rescaled,
         RescaleFactor;
    ghost var max0, sum0, o0 := softmax.rowMax[..], softmax.rowSum[..], Rows(accO);
    ScoreTile(p.score, scores, row0, lo);
    ApplyMask(s, causalMask, even, scores, row0, lo);
    ghost var s0 := Rows(scores);
    softmax.SoftmaxRescaleO(first, checkInf, p.f, scores, accO, p.scaleLog2);
    label rescaled:
    AddProducts(scores, p.value, lo, accO);
    forall i | 0 <= i < accO.Length0
      ensures RowHolds(p, row0 + i, lo, hi, softmax.rowMax[i], softmax.rowSum[i], RowOf(accO, i))
    {
      MaskedScores(s, p, causalMask, even, row0 + i, lo, s0[i]);
      BlockExact(p, row0 + i, first, checkInf, lo, hi, s0[i], max0[i], sum0[i], o0[i],
                 softmax.rowMax[i], RowOf(scores, i), softmax.rowSum[i], RowOf(accO, i));
    }
  }

  lemma MaskedScores(s: Shape, p: Problem, causalMask: bool, even: bool, row: int, col: int, x: seq<Float>)
    requires forall c :: col <= c < col + |x| ==> (Masked(s, causalMask, even, row, c) <==> !p.visible(row, c))
    requires forall j :: 0 <= j < |x| ==>
      x[j] == if Masked(s, causalMask, even, row, col + j) then NegInf else Fin(p.score(row, col + j))
    ensures ScoresOf(p, row, col, x)
  {
  }

  // ---------------------------------------------------------------- the two loops

  /** The problem whose columns are taken: without keys, these are not its own. */
  function Effective(s: Shape, p: Problem): Problem {
    if Keyless(s) then Unmasked(p) else p
  }

  lemma SameFunctions(s: Shape, p: Problem)
    requires WellPosed(p)
    ensures WellPosed(Effective(s, p))
  {
  }

  /** The range of blocks of a tile.  Only a problem without keys has an empty one; there nothing
      is masked. */
  ghost predicate BlockRange(s: Shape, p: Problem, m: int, nMin: int, nMax: int)
    requires s.blockN > 0
  {
    if Keyless(s) then nMin == nMax == 0 && p.visible == ((row, col) => true)
    else 0 <= nMin < nMax <= BlockMax(s, m) && p.visible == ((row, col) => Visible(s, row, col))
  }

  /** The first block that is taken: the last one is taken whether it is in the range or not. */
  function FirstBlock(nMin: int, nMax: int): int {
    MinInt(nMin, nMax - 1)
  }

  /** The blocks that need masking, from the last one down; `n` is the next block to take. */
  method MaskingLoop(s: Shape, p: Problem, m: int, nMin: int, nMax: int, checkInf: bool,
                     softmax: Softmax, accO: array2<Float>, scores: array2<Float>) returns (n: int)
    requires WellPosed(p) && Launched(s) && BlockRange(s, p, m, nMin, nMax)
    requires s.causal || s.local ==> checkInf
    requires Registers(s, softmax, accO, scores)
    requires Ready(p, m * s.blockM, true, nMax * s.blockN, nMax * s.blockN, softmax, accO)
    modifies softmax.rowMax, softmax.rowSum, scores, accO
    ensures FirstBlock(nMin, nMax) - 1 <= n < nMax - 1 && (n < nMin || n < nMax - MaskingSteps(s))
    ensures Ready(p, m * s.blockM, false, (n + 1) * s.blockN, nMax * s.blockN, softmax, accO)
  {
    hide WellPosed, Visible, BlockMax, MaskExact, EveryRowSees, Ready, BlockRange, MaskingSteps;
    StepsPositive(s);
    RangeStart(s, p, m, nMin, nMax);
    var steps := MaskingSteps(s);
    var step := 0;
    n := nMax - 1;
    while step < steps
      invariant 0 <= step <= steps && n == nMax - 1 - step && FirstBlock(nMin, nMax) - 1 <= n
      invariant n >= FirstBlock(nMin, nMax) || step == steps
      invariant Ready(p, m * s.blockM, step == 0, (n + 1) * s.blockN, nMax * s.blockN, softmax, accO)
    {
      BlockStart(s, n);
      FirstMasks(s, p, m, nMin, nMax, n);
      Step(s, p, step == 0, checkInf, s.causal, s.even, m * s.blockM, n * s.blockN, nMax * s.blockN, scores, softmax,
           accO);
      if steps > 1 && n <= nMin {
        n := n - 1;
        break;
      }
      step := step + 1;
      n := n - 1;
    }
  }

  /** The blocks that need no masking, down to the first. */
  method PlainLoop(s: Shape, p: Problem, m: int, start: int, nMin: int, nMax: int,
                   softmax: Softmax, accO: array2<Float>, scores: array2<Float>)
    requires WellPosed(p) && Launched(s) && BlockRange(s, p, m, nMin, nMax)
    requires s.even && s.causal ==> Aligned(s.blockM, s.blockN)
    requires FirstBlock(nMin, nMax) - 1 <= start < nMax - 1 && (start < nMin || start < nMax - MaskingSteps(s))
    requires Registers(s, softmax, accO, scores)
    requires Ready(p, m * s.blockM, false, (start + 1) * s.blockN, nMax * s.blockN, softmax, accO)
    modifies softmax.rowMax, softmax.rowSum, scores, accO
    ensures Ready(p, m * s.blockM, false, FirstBlock(nMin, nMax) * s.blockN, nMax * s.blockN, softmax, accO)
  {
    hide WellPosed, Visible, BlockMax, MaskingSteps, MaskExact, EveryRowSees, Ready, Aligned, BlockRange;
    RangeStart(s, p, m, nMin, nMax);
    var n := start;
    while n >= nMin
      invariant FirstBlock(nMin, nMax) - 1 <= n <= start
      invariant Ready(p, m * s.blockM, false, (n + 1) * s.blockN, nMax * s.blockN, softmax, accO)
    {
      BlockStart(s, n);
      LaterMasks(s, p, m, nMin, nMax, n);
      MulMonotone(n + 1, nMax, s.blockN);
      LaterSees(s, p, m * s.blockM, n, nMax * s.blockN);
      Step(s, p, false, s.local, false, true, m * s.blockM, n * s.blockN, nMax * s.blockN, scores, softmax, accO);
      n := n - 1;
    }
  }

  /** The registers of a tile, all of its height. */
  ghost predicate Registers(s: Shape, softmax: Softmax, accO: array2<Float>, scores: array2<Float>) {
    && softmax.rowMax != softmax.rowSum && scores != accO
    && softmax.rowMax.Length == softmax.rowSum.Length == scores.Length0 == accO.Length0 == s.blockM
    && scores.Length1 == s.blockN
  }

  /** The softmax of a tile of rows over the blocks from `nMin` to `nMax`. */
  method RowBlock(s: Shape, p: Problem, m: int, nMin: int, nMax: int, checkInf: bool, split: bool, headDim: nat)
      returns (accO: array2<Float>, lse: array<Float>)
    requires WellPosed(p) && Launched(s) && BlockRange(s, p, m, nMin, nMax)
    requires s.even && s.causal ==> Aligned(s.blockM, s.blockN)
    requires s.causal || s.local ==> checkInf
    ensures fresh(accO) && accO.Length0 == s.blockM && accO.Length1 == headDim
    ensures fresh(lse) && lse.Length == s.blockM
    ensures TileHolds(p, m * s.blockM, FirstBlock(nMin, nMax) * s.blockN, nMax * s.blockN, split, accO, lse)
  {
    hide WellPosed, Visible, BlockMax, BlockRange, FirstBlock, Aligned, Launched, RowHolds, Mul, SoftmaxOut,
         SoftmaxLse, LseOf, MaskingSteps;
    accO := new Float[s.blockM, headDim]((i, d) => Fin(0.0));
    var scores := new Float[s.blockM, s.blockN];
    var softmax := new Softmax(s.blockM);
    var n := MaskingLoop(s, p, m, nMin, nMax, checkInf, softmax, accO, scores);
    PlainLoop(s, p, m, n, nMin, nMax, softmax, accO, scores);
    ghost var o, lo, hi := Rows(accO), FirstBlock(nMin, nMax) * s.blockN, nMax * s.blockN;
    lse := softmax.NormalizeSoftmaxLse(split, p.f, accO, p.scale);
    forall i | 0 <= i < s.blockM
      ensures forall d :: 0 <= d < headDim ==> accO[i, d] == Fin(SoftmaxOut(p, m * s.blockM + i, d, lo, hi))
      ensures lse[i] == SoftmaxLse(p, m * s.blockM + i, lo, hi, EmptyLse(split))
    {
      NormalizeExact(p, m * s.blockM + i, lo, hi, softmax.rowMax[i], softmax.rowSum[i], o[i], split);
    }
  }

  lemma RangeStart(s: Shape, p: Problem, m: int, nMin: int, nMax: int)
    requires s.blockN > 0 && BlockRange(s, p, m, nMin, nMax)
    ensures nMin <= FirstBlock(nMin, nMax) || (nMin == nMax && MaskingSteps(s) == 1)
  {
  }

  lemma BlockStart(s: Shape, n: int)
    ensures (n + 1) * s.blockN == n * s.blockN + s.blockN
  {
  }

  lemma FirstMasks(s: Shape, p: Problem, m: int, nMin: int, nMax: int, n: int)
    requires Launched(s) && BlockRange(s, p, m, nMin, nMax) && FirstBlock(nMin, nMax) <= n < nMax
    ensures MaskExact(s, p, s.causal, s.even, m * s.blockM, s.blockM, n * s.blockN, s.blockN)
  {
    hide BlockMax, Masked, Visible;
    forall row, col | m * s.blockM <= row < m * s.blockM + s.blockM && n * s.blockN <= col < n * s.blockN + s.blockN
      ensures Masked(s, s.causal, s.even, row, col) <==> !p.visible(row, col)
    {
      if Keyless(s) {
        NothingMasked(s, row, col);
      } else {
        FirstMaskExact(s, m, n, row, col);
      }
    }
  }

  lemma NothingMasked(s: Shape, row: int, col: int)
    requires Keyless(s)
    ensures !Masked(s, s.causal, s.even, row, col)
  {
  }

  lemma LaterMasks(s: Shape, p: Problem, m: int, nMin: int, nMax: int, n: int)
    requires Launched(s) && BlockRange(s, p, m, nMin, nMax) && nMin <= n < nMax - MaskingSteps(s)
    requires s.even && s.causal ==> Aligned(s.blockM, s.blockN)
    ensures MaskExact(s, p, false, true, m * s.blockM, s.blockM, n * s.blockN, s.blockN)
  {
    hide BlockMax, MaskingSteps, Masked, Visible;
    StepsPositive(s);
    forall row, col | m * s.blockM <= row < m * s.blockM + s.blockM && n * s.blockN <= col < n * s.blockN + s.blockN
      ensures Masked(s, false, true, row, col) <==> !p.visible(row, col)
    {
      LaterMaskExact(s, m, n, row, col);
    }
  }

  /** Where the mask is skipped, the first column of the block is visible to every row. */
  lemma LaterSees(s: Shape, p: Problem, row0: int, n: int, hi: int)
    requires MaskExact(s, p, false, true, row0, s.blockM, n * s.blockN, s.blockN)
    requires s.blockN > 0 && n * s.blockN < hi
    ensures s.local || EveryRowSees(p, row0, s.blockM, n * s.blockN, hi)
  {
    if !s.local {
      var lo := n * s.blockN;
      forall row | row0 <= row < row0 + s.blockM
        ensures AnyVisible(p, row, lo, hi)
      {
        assert !Masked(s, false, true, row, lo);
        assert p.visible(row, lo);
      }
    }
  }

  // ---------------------------------------------------------------- one tile of queries

  /** The row's output and log-sum-exp are those of the softmax over the columns from `lo` to `hi`. */
  ghost predicate RowIs(p: Problem, row: int, lo: int, hi: int, out: seq<Float>, lse: Float, split: bool) {
    && (forall d :: 0 <= d < |out| ==> out[d] == Fin(SoftmaxOut(p, row, d, lo, hi)))
    && lse == SoftmaxLse(p, row, lo, hi, EmptyLse(split))
  }

  /** Over all keys. */
  ghost predicate RowDone(p: Problem, seqlenK: nat, row: int, out: seq<Float>, lse: Float, split: bool) {
    RowIs(p, row, 0, seqlenK, out, lse, split)
  }

  /** Over the block that lies in front of the keys, none of it masked. */
  ghost predicate RowBefore(p: Problem, blockN: nat, row: int, out: seq<Float>, lse: Float, split: bool) {
    RowIs(Unmasked(p), row, 0 - blockN, 0, out, lse, split)
  }

  /** What a tile of the unsplit kernel leaves in a row. */
  ghost predicate RowWritten(s: Shape, p: Problem, row: int, out: seq<Float>, lse: Float) {
    if Keyless(s) then RowBefore(p, s.blockN, row, out, lse, false) else RowDone(p, s.seqlenK, row, out, lse, false)
  }

  /** The two are different: the log-sum-exp of a row without keys is infinite. */
  lemma BeforeIsNotDone(p: Problem, blockN: nat, row: int, out: seq<Float>, lse: Float)
    requires WellPosed(p) && blockN > 0 && RowBefore(p, blockN, row, out, lse, false)
    ensures !RowDone(p, 0, row, out, lse, false)
  {
    hide Mass, Lawful;
    var q := Unmasked(p);
    assert q.visible(row, -1);
    MassPositive(q, row, 0 - blockN, 0);
    MassPositive(p, row, 0, 0);
  }

  /** A row's softmax over all keys is its softmax over the blocks its tile visits. */
  lemma VisitedBlocksSuffice(s: Shape, p: Problem, m: int, row: int, d: int)
    requires Launched(s) && p.visible == ((r, c) => Visible(s, r, c)) && InTile(s, m, row)
    ensures
      var lo, hi := BlockMin(s, m) * s.blockN, BlockMax(s, m) * s.blockN;
      && SoftmaxOut(p, row, d, 0, s.seqlenK) == SoftmaxOut(p, row, d, lo, hi)
      && forall empty :: SoftmaxLse(p, row, 0, s.seqlenK, empty) == SoftmaxLse(p, row, lo, hi, empty)
  {
    var lo, hi := BlockMin(s, m) * s.blockN, BlockMax(s, m) * s.blockN;
    forall col | p.visible(row, col)
      ensures 0 <= col < s.seqlenK && lo <= col < hi
    {
      if !(lo <= col < hi) {
        SkippedBlocksHidden(s, m, row, col);
      }
    }
    hide BlockMin, BlockMax, Visible;
    SameColumns(p, row, d, 0, s.seqlenK, lo, hi);
  }

  /** An empty range of blocks: the row is hidden from every key. */
  lemma EarlyExitRow(s: Shape, p: Problem, m: int, row: int, d: int)
    requires Launched(s) && p.visible == ((r, c) => Visible(s, r, c)) && InTile(s, m, row)
    requires BlockMax(s, m) <= BlockMin(s, m)
    ensures SoftmaxOut(p, row, d, 0, s.seqlenK) == 0.0
    ensures forall empty :: SoftmaxLse(p, row, 0, s.seqlenK, empty) == empty
  {
    VisitedBlocksSuffice(s, p, m, row, d);
    MulMonotone(BlockMax(s, m), BlockMin(s, m), s.blockN);
  }

  /** A tile of rows, each with its softmax over the columns from `lo` to `hi`. */
  ghost predicate TileHolds(p: Problem, row0: int, lo: int, hi: int, split: bool, tileO: array2<Float>,
                            tileLse: array<Float>)
    requires tileO.Length0 == tileLse.Length
    reads tileO, tileLse
  {
    && (forall i, d :: 0 <= i < tileO.Length0 && 0 <= d < tileO.Length1 ==>
          tileO[i, d] == Fin(SoftmaxOut(p, row0 + i, d, lo, hi)))
    && (forall i :: 0 <= i < tileLse.Length ==> tileLse[i] == SoftmaxLse(p, row0 + i, lo, hi, EmptyLse(split)))
  }

  /** What the kernel writes instead when its range of blocks is empty. */
  method ZeroTile(rows: nat, headDim: nat, split: bool) returns (tileO: array2<Float>, tileLse: array<Float>)
    ensures fresh(tileO) && tileO.Length0 == rows && tileO.Length1 == headDim
    ensures fresh(tileLse) && tileLse.Length == rows
    ensures forall i, d :: 0 <= i < rows && 0 <= d < headDim ==> tileO[i, d] == Fin(0.0)
    ensures forall i :: 0 <= i < rows ==> tileLse[i] == EmptyLse(split)
  {
    tileO := new Float[rows, headDim]((i, d) => Fin(0.0));
    tileLse := new Float[rows](i => if split then NegInf else PosInf);
  }

  /** Writes the rows of a tile that exist, at row `base` and up, and leaves the others alone. */
  method WriteTile(base: nat, seqlenQ: nat, tileO: array2<Float>, tileLse: array<Float>, out: array2<Float>,
                   lse: array<Float>)
    requires tileO.Length0 == tileLse.Length && tileO.Length1 == out.Length1 && tileO != out && tileLse != lse
    requires out.Length0 == lse.Length == seqlenQ
    modifies out, lse
    ensures forall row, d :: 0 <= row < seqlenQ && 0 <= d < out.Length1 ==>
      out[row, d] == if base <= row < base + tileO.Length0 then tileO[row - base, d] else old(out[row, d])
    ensures forall row :: 0 <= row < seqlenQ ==>
      lse[row] == if base <= row < base + tileO.Length0 then tileLse[row - base] else old(lse[row])
  {
    forall row, d | base <= row < base + tileO.Length0 && row < seqlenQ && 0 <= d < out.Length1 {
      out[row, d] := tileO[row - base, d];
    }
    forall row | base <= row < base + tileO.Length0 && row < seqlenQ {
      lse[row] := tileLse[row - base];
    }
  }

  /** A tile of the unsplit kernel. */
  method ComputeTile(s: Shape, p: Problem, m: nat, headDim: nat) returns (tileO: array2<Float>, tileLse: array<Float>)
    requires WellPosed(p) && p.visible == ((row, col) => Visible(s, row, col)) && Launched(s)
    requires s.even && s.causal ==> Aligned(s.blockM, s.blockN)
    ensures fresh(tileO) && tileO.Length0 == s.blockM && tileO.Length1 == headDim
    ensures fresh(tileLse) && tileLse.Length == s.blockM
    ensures TileWritten(s, p, m * s.blockM, tileO, tileLse)
  {
    hide WellPosed, Visible, Aligned, BlockMax, BlockMin, FirstBlock, SoftmaxOut, SoftmaxLse, TileHolds, TileWritten,
         Keyless;
    EarlyExitCovers(s, m);
    BlockMinNatural(s, m);
    SameFunctions(s, p);
    if EarlyExit(s, m) {
      tileO, tileLse := ZeroTile(s.blockM, headDim, false);
    } else {
      // the mask of the problem only says what the result means
      tileO, tileLse := RowBlock(s, Effective(s, p), m, BlockMin(s, m), BlockMax(s, m), s.causal || s.local, false,
                                 headDim);
    }
    TileExact(s, p, m, tileO, tileLse);
  }

  /** One thread block of the unsplit kernel: it writes the rows of tile `m` that exist, and
      nothing else. */
  method ComputeRowBlock(s: Shape, p: Problem, m: nat, out: array2<Float>, lse: array<Float>)
    requires WellPosed(p) && p.visible == ((row, col) => Visible(s, row, col)) && Launched(s)
    requires s.even && s.causal ==> Aligned(s.blockM, s.blockN)
    requires out.Length0 == lse.Length == s.seqlenQ
    modifies out, lse
    ensures forall row :: 0 <= row < s.seqlenQ && InTile(s, m, row) ==> RowWritten(s, p, row, RowOf(out, row), lse[row])
    ensures forall row :: 0 <= row < s.seqlenQ && !InTile(s, m, row) ==>
      RowOf(out, row) == old(RowOf(out, row)) && lse[row] == old(lse[row])
  {
    hide WellPosed, Visible, Aligned, TileWritten, RowWritten;
    var row0 := m * s.blockM;
    BlockStartM(s, m);
    if row0 >= s.seqlenQ {
      return;
    }
    var tileO, tileLse := ComputeTile(s, p, m, out.Length1);
    WriteTile(row0, s.seqlenQ, tileO, tileLse, out, lse);
    forall row | 0 <= row < s.seqlenQ && InTile(s, m, row)
      ensures RowWritten(s, p, row, RowOf(out, row), lse[row])
    {
      TileRow(s, p, row0, row, tileO, tileLse, RowOf(out, row), lse[row]);
    }
  }

  ghost predicate TileWritten(s: Shape, p: Problem, row0: int, tileO: array2<Float>, tileLse: array<Float>)
    requires tileO.Length0 == tileLse.Length
    reads tileO, tileLse
  {
    if Keyless(s) then TileHolds(Unmasked(p), row0, 0 - s.blockN, 0, false, tileO, tileLse)
    else TileHolds(p, row0, 0, s.seqlenK, false, tileO, tileLse)
  }

  lemma TileRow(s: Shape, p: Problem, row0: int, row: int, tileO: array2<Float>, tileLse: array<Float>,
                o: seq<Float>, lse: Float)
    requires tileO.Length0 == tileLse.Length && row0 <= row < row0 + tileO.Length0
    requires TileWritten(s, p, row0, tileO, tileLse)
    requires o == RowOf(tileO, row - row0) && lse == tileLse[row - row0]
    ensures RowWritten(s, p, row, o, lse)
  {
  }

  lemma BlockStartM(s: Shape, m: int)
    ensures (m + 1) * s.blockM == m * s.blockM + s.blockM
  {
  }

  lemma BlockMinNatural(s: Shape, m: int)
    requires s.blockN > 0
    ensures BlockMin(s, m) >= 0
  {
  }

  /** Whether computed or written as zeros, a tile holds the softmax over all keys. */
  lemma TileExact(s: Shape, p: Problem, m: nat, tileO: array2<Float>, tileLse: array<Float>)
    requires Launched(s) && p.visible == ((row, col) => Visible(s, row, col))
    requires tileO.Length0 == tileLse.Length == s.blockM
    requires
      var first := FirstBlock(BlockMin(s, m), BlockMax(s, m));
      if EarlyExit(s, m) then
        && (forall i, d :: 0 <= i < tileO.Length0 && 0 <= d < tileO.Length1 ==> tileO[i, d] == Fin(0.0))
        && (forall i :: 0 <= i < tileLse.Length ==> tileLse[i] == PosInf)
      else
        TileHolds(Effective(s, p), m * s.blockM, first * s.blockN, BlockMax(s, m) * s.blockN, false, tileO, tileLse)
    ensures TileWritten(s, p, m * s.blockM, tileO, tileLse)
  {
    hide Visible, SoftmaxOut, SoftmaxLse, BlockMin, BlockMax, Keyless;
    EarlyExitCovers(s, m);
    if Keyless(s) {
      assert -1 * s.blockN == 0 - s.blockN;
    } else {
      BlockStartM(s, m);
      forall i, d | 0 <= i < s.blockM && 0 <= d < tileO.Length1
        ensures tileO[i, d] == Fin(SoftmaxOut(p, m * s.blockM + i, d, 0, s.seqlenK))
      {
        RowExact(s, p, m, m * s.blockM + i, d);
      }
      forall i | 0 <= i < s.blockM
        ensures tileLse[i] == SoftmaxLse(p, m * s.blockM + i, 0, s.seqlenK, PosInf)
      {
        RowExact(s, p, m, m * s.blockM + i, 0);
      }
    }
  }

  lemma RowExact(s: Shape, p: Problem, m: int, row: int, d: int)
    requires Launched(s) && p.visible == ((r, c) => Visible(s, r, c)) && InTile(s, m, row)
    ensures
      var lo, hi := BlockMin(s, m) * s.blockN, BlockMax(s, m) * s.blockN;
      SoftmaxOut(p, row, d, 0, s.seqlenK) == (if EarlyExit(s, m) then 0.0 else SoftmaxOut(p, row, d, lo, hi))
    ensures
      var lo, hi := BlockMin(s, m) * s.blockN, BlockMax(s, m) * s.blockN;
      SoftmaxLse(p, row, 0, s.seqlenK, PosInf) == if EarlyExit(s, m) then PosInf else SoftmaxLse(p, row, lo, hi, PosInf)
  {
    hide Visible, SoftmaxOut, SoftmaxLse, BlockMin, BlockMax;
    if EarlyExit(s, m) {
      EarlyExitRow(s, p, m, row, d);
    } else {
      VisitedBlocksSuffice(s, p, m, row, d);
    }
  }

  // ---------------------------------------------------------------- attention by its formula

  /** The sums of the online softmax are those of the formula. */
  lemma {:induction false} DirectSums(p: Problem, row: int, d: int, lo: int, hi: int)
    requires WellPosed(p)
    ensures Mass(p, row, lo, hi) == Denominator(p.f, p.scale, p.score, p.visible, row, lo, hi)
    ensures Weighted(p, row, d, lo, hi) == Numerator(p.f, p.scale, p.score, p.value, p.visible, row, d, lo, hi)
    decreases hi - lo
  {
    hide WellPosed, Lawful, Times, Weight;
    if lo < hi {
      DirectSums(p, row, d, lo + 1, hi);
      DirectTerm(p, row, lo);
    }
  }

  lemma DirectTerm(p: Problem, row: int, col: int)
    requires WellPosed(p)
    ensures Weight(p, row, col) == Term(p.f, p.scale, p.score, p.visible, row, col)
  {
    hide Lawful, Times;
    if p.visible(row, col) {
      WeightIsExp(p, row, col);
    }
  }

  lemma DirectRow(p: Problem, row: int, lo: int, hi: int, out: seq<Float>, lse: Float)
    requires WellPosed(p)
    ensures RowIs(p, row, lo, hi, out, lse, false)
      <==> Attends(p.f, p.scale, p.score, p.value, p.visible, row, lo, hi, out, lse)
  {
    hide Lawful, Mass, Weighted, Denominator, Numerator;
    MassPositive(p, row, lo, hi);
    DirectSums(p, row, 0, lo, hi);
    forall d | 0 <= d < |out|
      ensures Weighted(p, row, d, lo, hi) == Numerator(p.f, p.scale, p.score, p.value, p.visible, row, d, lo, hi)
    {
      DirectSums(p, row, d, lo, hi);
    }
  }

  /** The problem that the kernels work on is the one that was given. */
  lemma AttentionGiven(s: Shape, f: Fns, scale: real, score: (int, int) -> real, value: (int, int) -> real,
                       row: int, out: seq<Float>, lse: Float)
    requires Lawful(f) && f.log2e > 0.0 && scale > 0.0
    ensures
      var p := Attention(s, f, scale, score, value);
      && WellPosed(p) && p.visible == ((r, c) => Visible(s, r, c))
      && (RowDone(p, s.seqlenK, row, out, lse, false)
          <==> Attends(f, scale, score, value, (r, c) => Visible(s, r, c), row, 0, s.seqlenK, out, lse))
      && (RowBefore(p, s.blockN, row, out, lse, false)
          <==> Attends(f, scale, score, value, (r, c) => true, row, 0 - s.blockN, 0, out, lse))
  {
    hide Lawful, Visible, Attends, RowIs;
    var p := Attention(s, f, scale, score, value);
    ScalePositive(scale, f.log2e);
    DirectRow(p, row, 0, s.seqlenK, out, lse);
    DirectRow(Unmasked(p), row, 0 - s.blockN, 0, out, lse);
  }

  lemma ScalePositive(scale: real, log2e: real)
    requires scale > 0.0 && log2e > 0.0
    ensures Times(scale, log2e) > 0.0
  {
  }

  /** The whole grid: every row of the output is the attention of its query, unless the problem has
      no key and no mask and whole tiles; then no row is, and each holds the attention to the
      block in front of the keys. */
  method FlashForward(s: Shape, f: Fns, scale: real, score: (int, int) -> real, value: (int, int) -> real,
                      out: array2<Float>, lse: array<Float>)
    requires Lawful(f) && f.log2e > 0.0 && scale > 0.0 && Launched(s)
    requires s.even && s.causal ==> Aligned(s.blockM, s.blockN)
    requires out.Length0 == lse.Length == s.seqlenQ
    modifies out, lse
    ensures forall row :: 0 <= row < s.seqlenQ ==>
      (Attends(f, scale, score, value, (r, c) => Visible(s, r, c), row, 0, s.seqlenK, RowOf(out, row), lse[row])
       <==> !Keyless(s))
    ensures Keyless(s) ==> forall row :: 0 <= row < s.seqlenQ ==>
      Attends(f, scale, score, value, (r, c) => true, row, 0 - s.blockN, 0, RowOf(out, row), lse[row])
  {
    hide Lawful, Visible, Aligned, RowDone, RowBefore, Keyless, RowWritten, Attends, WellPosed;
    var p := Attention(s, f, scale, score, value);
    AttentionGiven(s, f, scale, score, value, 0, [], PosInf);
    var tiles := (s.seqlenQ + s.blockM - 1) / s.blockM;
    for m := 0 to tiles
      invariant forall row :: 0 <= row < s.seqlenQ && row < m * s.blockM ==>
        RowWritten(s, p, row, RowOf(out, row), lse[row])
    {
      BlockStartM(s, m);
      ComputeRowBlock(s, p, m, out, lse);
    }
    DivBounds(s.seqlenQ + s.blockM - 1, s.blockM);
    forall row | 0 <= row < s.seqlenQ
      ensures Attends(f, scale, score, value, (r, c) => Visible(s, r, c), row, 0, s.seqlenK, RowOf(out, row), lse[row])
        <==> !Keyless(s)
      ensures Keyless(s) ==>
        Attends(f, scale, score, value, (r, c) => true, row, 0 - s.blockN, 0, RowOf(out, row), lse[row])
    {
      WrittenIsDone(s, p, row, RowOf(out, row), lse[row]);
      AttentionGiven(s, f, scale, score, value, row, RowOf(out, row), lse[row]);
    }
  }

  lemma WrittenIsDone(s: Shape, p: Problem, row: int, out: seq<Float>, lse: Float)
    requires WellPosed(p) && Launched(s) && RowWritten(s, p, row, out, lse)
    ensures RowDone(p, s.seqlenK, row, out, lse, false) <==> !Keyless(s)
    ensures Keyless(s) ==> RowBefore(p, s.blockN, row, out, lse, false)
  {
    hide WellPosed, RowDone, RowBefore;
    if Keyless(s) {
      BeforeIsNotDone(p, s.blockN, row, out, lse);
    }
  }
}
