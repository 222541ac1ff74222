/** Which key blocks a tile of queries visits, and which of their columns it masks. */
module Tiling {
  import opened Arithmetic

  /** One attention problem as the kernels are instantiated for it.  `even` says that the tiles
      divide both lengths; a window of -1 is no window. */
  datatype Shape = Shape(
    seqlenQ: nat, seqlenK: nat,
    windowLeft: int, windowRight: int,
    causal: bool, local: bool, even: bool,
    blockM: nat, blockN: nat)

  /** What the launch code guarantees of the instantiation it picks. */
  predicate Launched(s: Shape) {
    && s.blockM > 0 && s.blockN > 0
    && !(s.causal && s.local)
    && (s.causal ==> s.windowRight == 0)
    && (s.local ==> s.windowLeft >= 0 && s.windowRight >= 0)
    && (s.even ==> s.seqlenK % s.blockN == 0 && s.seqlenQ % s.blockM == 0 && !s.local)
  }

  /** The columns a row attends to: queries are aligned with the last keys. */
  predicate Visible(s: Shape, row: int, col: int) {
    var diagonal := row + s.seqlenK - s.seqlenQ;
    && 0 <= col < s.seqlenK
    && (s.causal ==> col <= diagonal)
    && (s.local ==> diagonal - s.windowLeft <= col <= diagonal + s.windowRight)
  }

  /** Division of C, which rounds towards zero. */
  function TruncDiv(a: int, b: int): int
    requires b > 0
  {
    if a >= 0 then a / b else -(-a / b)
  }

  function CeilDivC(a: int, b: int): int
    requires b > 0
  {
    TruncDiv(a + b - 1, b)
  }

  function MaxInt(a: int, b: int): int {
    if a >= b then a else b
  }

  function MinInt(a: int, b: int): int {
    if a <= b then a else b
  }

  // ---------------------------------------------------------------- the range of key blocks

  function WindowStart(s: Shape, m: int): int
    requires s.blockN > 0
  {
    TruncDiv(m * s.blockM + s.seqlenK - s.seqlenQ - s.windowLeft, s.blockN)
  }

  function WindowEnd(s: Shape, m: int): int
    requires s.blockN > 0
  {
    CeilDivC((m + 1) * s.blockM + s.seqlenK - s.seqlenQ + s.windowRight, s.blockN)
  }

  function BlockMin(s: Shape, m: int): int
    requires s.blockN > 0
  {
    if !s.local then 0 else MaxInt(0, WindowStart(s, m))
  }

  function BlockMax(s: Shape, m: int): int
    requires s.blockN > 0
  {
    var all := CeilDivC(s.seqlenK, s.blockN);
    if s.causal || s.local then MinInt(all, WindowEnd(s, m)) else all
  }

  /** When the kernel writes zeros without looking at a key. */
  predicate EarlyExit(s: Shape, m: int)
    requires s.blockN > 0
  {
    (s.causal || s.local || !s.even) && BlockMax(s, m) <= BlockMin(s, m)
  }

  /** How many blocks, from the last one down, are masked. */
  function MaskingSteps(s: Shape): int
    requires s.blockN > 0
  {
    if !s.causal && !s.local then 1
    else if s.even && s.causal then CeilDivC(s.blockM, s.blockN)
    else CeilDivC(s.blockM, s.blockN) + 1
  }

  /** What the mask overwrites with minus infinity; `causalMask` and `even` are its template
      arguments, which differ between the two loops. */
  predicate Masked(s: Shape, causalMask: bool, even: bool, row: int, col: int) {
    var limitLeft := MaxInt(0, row + s.seqlenK - s.seqlenQ - s.windowLeft);
    var limitRight := MinInt(s.seqlenK, row + 1 + s.seqlenK - s.seqlenQ + s.windowRight);
    if causalMask then col >= limitRight
    else if s.local then col >= limitRight || col < limitLeft
    else !even && col >= s.seqlenK
  }

  predicate MaskedFirst(s: Shape, row: int, col: int) {
    Masked(s, s.causal, s.even, row, col)
  }

  predicate MaskedLater(s: Shape, row: int, col: int) {
    Masked(s, false, true, row, col)
  }

  predicate InTile(s: Shape, m: int, row: int) {
    m * s.blockM <= row < (m + 1) * s.blockM
  }

  predicate InBlock(s: Shape, n: int, col: int) {
    n * s.blockN <= col < (n + 1) * s.blockN
  }

  // ---------------------------------------------------------------- rounding

  lemma TruncDivBounds(a: int, b: int)
    requires b > 0
    ensures a >= 0 ==> 0 <= TruncDiv(a, b) * b <= a < TruncDiv(a, b) * b + b
    ensures a <= 0 ==> TruncDiv(a, b) <= 0 && a <= TruncDiv(a, b) * b
  {
  }

  lemma CeilDivCBounds(a: int, b: int)
    requires b > 0
    ensures a <= CeilDivC(a, b) * b
    ensures a >= 0 ==> CeilDivC(a, b) * b < a + b
    ensures a <= 0 ==> CeilDivC(a, b) <= 0
  {
  }

  lemma Within(n: int, c: int, b: int)
    requires b > 0 && n < c
    ensures (n + 1) * b <= c * b
  {
  }

  // ---------------------------------------------------------------- no visible column is left out

  /** Every column outside the range of blocks is masked for every row of the tile. */
  lemma SkippedBlocksHidden(s: Shape, m: int, row: int, col: int)
    requires Launched(s) && InTile(s, m, row)
    requires col < BlockMin(s, m) * s.blockN || BlockMax(s, m) * s.blockN <= col
    ensures !Visible(s, row, col)
  {
    var N := s.blockN;
    var start := m * s.blockM + s.seqlenK - s.seqlenQ - s.windowLeft;
    TruncDivBounds(start, N);
    CeilDivCBounds(s.seqlenK, N);
    CeilDivCBounds((m + 1) * s.blockM + s.seqlenK - s.seqlenQ + s.windowRight, N);
  }

  /** An unmasked problem of whole tiles without any key. */
  predicate Keyless(s: Shape) {
    s.even && !s.causal && !s.local && s.seqlenK == 0
  }

  /** A tile has a block of keys to visit, or is written as zeros, except in that one case. */
  lemma EarlyExitCovers(s: Shape, m: int)
    requires Launched(s)
    ensures EarlyExit(s, m) || BlockMin(s, m) < BlockMax(s, m) <==> !Keyless(s)
    ensures Keyless(s) ==> BlockMin(s, m) == BlockMax(s, m) == 0
  {
  }

  /** A launched problem of that kind. */
  lemma EarlyExitMisses(seqlenQ: nat)
    requires seqlenQ % 128 == 0
    ensures
      var s := Shape(seqlenQ, 0, -1, -1, false, false, true, 128, 128);
      Launched(s) && Keyless(s) && !EarlyExit(s, 0) && BlockMin(s, 0) == BlockMax(s, 0) == 0
  {
  }

  // ---------------------------------------------------------------- the masks are exact

  lemma FirstMaskExact(s: Shape, m: int, n: int, row: int, col: int)
    requires Launched(s) && InTile(s, m, row) && InBlock(s, n, col)
    requires 0 <= n < BlockMax(s, m)
    ensures MaskedFirst(s, row, col) <==> !Visible(s, row, col)
  {
    MulMonotone(0, n, s.blockN);
    if s.even && !s.causal {
      DivBounds(s.seqlenK, s.blockN);
      CeilDivCBounds(s.seqlenK, s.blockN);
      WholeBlocks(s);
      Within(n, CeilDivC(s.seqlenK, s.blockN), s.blockN);
    }
  }

  lemma WholeBlocks(s: Shape)
    requires Launched(s) && s.even
    ensures CeilDivC(s.seqlenK, s.blockN) * s.blockN == s.seqlenK
  {
    var N := s.blockN;
    DivBounds(s.seqlenK, N);
    DivUnique(s.seqlenK + N - 1, N, s.seqlenK / N);
  }

  /** How much of the last of the key blocks that cover `M` columns is covered. */
  function Rest(M: nat, N: nat): nat
    requires N > 0
  {
    if M % N == 0 then N else M % N
  }

  /** Tiles for which masking the last blocks alone is enough in the even causal case: that
      last part divides the block, or is two columns wide. */
  predicate Aligned(M: nat, N: nat)
    requires N > 0
  {
    N % Rest(M, N) == 0 || Rest(M, N) == 2
  }

  /** In the second loop no causal or length mask is applied, and none is needed. */
  lemma LaterMaskExact(s: Shape, m: int, n: int, row: int, col: int)
    requires Launched(s) && InTile(s, m, row) && InBlock(s, n, col)
    requires 0 <= n < BlockMax(s, m) - MaskingSteps(s)
    requires s.even && s.causal ==> Aligned(s.blockM, s.blockN)
    ensures MaskedLater(s, row, col) <==> !Visible(s, row, col)
  {
    var N, c, steps := s.blockN, BlockMax(s, m), MaskingSteps(s);
    SecondLoopColumns(n, c, steps, N, col);
    if !s.local {
      MaskedEnd(s, m);
      if s.causal {
        CausalEnd(s, m, c);
      }
    }
    hide BlockMax, MaskingSteps, Aligned;
  }

  /** A block of the second loop ends before the masked blocks begin. */
  lemma SecondLoopColumns(n: int, c: int, steps: int, N: nat, col: int)
    requires 0 <= n < c - steps && n * N <= col < (n + 1) * N
    ensures 0 <= col < c * N - steps * N
  {
    MulMonotone(0, n, N);
    MulMonotone(n + 1, c - steps, N);
    Minus(c, steps, N);
  }

  lemma Minus(a: int, b: int, d: int)
    ensures (a - b) * d == a * d - b * d
  {
  }

  /** Without the masked blocks, the range ends within the keys. */
  lemma MaskedEnd(s: Shape, m: int)
    requires Launched(s)
    ensures BlockMax(s, m) * s.blockN - MaskingSteps(s) * s.blockN <= s.seqlenK
  {
    hide MaskingSteps, WindowEnd;
    var N, all := s.blockN, CeilDivC(s.seqlenK, s.blockN);
    CeilDivCBounds(s.seqlenK, N);
    StepsPositive(s);
    MulMonotone(1, MaskingSteps(s), N);
    MulMonotone(BlockMax(s, m), all, N);
  }

  lemma StepsPositive(s: Shape)
    requires Launched(s)
    ensures MaskingSteps(s) >= 1
    ensures !s.causal && !s.local ==> MaskingSteps(s) == 1
  {
  }

  /** The blocks of the second loop end at the diagonal of the tile's first row. */
  lemma CausalEnd(s: Shape, m: int, c: int)
    requires Launched(s) && s.causal && c == BlockMax(s, m) && c > MaskingSteps(s)
    requires s.even ==> Aligned(s.blockM, s.blockN)
    ensures c * s.blockN - MaskingSteps(s) * s.blockN <= m * s.blockM + s.seqlenK - s.seqlenQ + 1
  {
    var M, N := s.blockM, s.blockN;
    hide CeilDivC, MaskingSteps, BlockMax, Rest;
    StepsPositive(s);
    CausalRounded(s, m, c);
    StepsCover(s);
    assert (m + 1) * M == m * M + M;
  }

  /** How far past the diagonal of the tile's last row the last block can reach. */
  lemma CausalRounded(s: Shape, m: int, c: int)
    requires Launched(s) && s.causal && c == BlockMax(s, m) && c > 0
    ensures var a := (m + 1) * s.blockM + s.seqlenK - s.seqlenQ;
      var b := Rest(s.blockM, s.blockN);
      c * s.blockN < a + s.blockN && (s.even && s.blockN % b == 0 ==> c * s.blockN <= a + s.blockN - b)
  {
    var M, N := s.blockM, s.blockN;
    var a := (m + 1) * M + s.seqlenK - s.seqlenQ;
    var b := Rest(M, N);
    RoundUp(a, N, c);
    if s.even && N % b == 0 {
      var z, n1 := DivideAll(s, m, b);
      RoundUpTo(b, n1, z, N, c);
    }
  }

  lemma RoundUp(a: int, N: nat, c: int)
    requires N > 0 && 0 < c <= CeilDivC(a, N)
    ensures c * N < a + N
  {
    CeilDivCBounds(a, N);
    MulMonotone(c, CeilDivC(a, N), N);
  }

  lemma RoundUpTo(b: nat, n1: int, z: int, N: nat, c: int)
    requires b > 0 && N == n1 * b && c * N < z * b + N
    ensures c * N <= z * b + N - b
  {
    var x, y := c * n1, z + n1;
    assert c * N == x * b;
    assert z * b + N == y * b;
    if x >= y {
      MulMonotone(y, x, b);
    }
    MulMonotone(x, y - 1, b);
    assert (y - 1) * b == y * b - b;
  }

  /** How many columns the masked blocks have beyond the height of a tile. */
  lemma StepsCover(s: Shape)
    requires Launched(s) && s.causal
    ensures var b := Rest(s.blockM, s.blockN);
      MaskingSteps(s) * s.blockN >= s.blockM + s.blockN - if s.even then b else 0
  {
    var M, N := s.blockM, s.blockN;
    if s.even {
      EvenSteps(M, N);
    } else {
      CeilDivCBounds(M, N);
      assert (CeilDivC(M, N) + 1) * N == CeilDivC(M, N) * N + N;
    }
  }

  lemma EvenSteps(M: nat, N: nat)
    requires M > 0 && N > 0
    ensures CeilDivC(M, N) * N == M + N - Rest(M, N)
  {
    DivBounds(M, N);
    if M % N == 0 {
      DivUnique(M + N - 1, N, M / N);
    } else {
      assert (M / N + 1) * N == M / N * N + N;
      DivUnique(M + N - 1, N, M / N + 1);
    }
  }

  lemma Divide(x: nat, d: nat) returns (k: int)
    requires d > 0 && x % d == 0
    ensures x == k * d
  {
    DivBounds(x, d);
    k := x / d;
  }

  /** In the even causal case `b` divides the end of the diagonal as well as the block size. */
  lemma DivideAll(s: Shape, m: int, b: nat) returns (z: int, n1: int)
    requires Launched(s) && s.even && b > 0 && s.blockN % b == 0
    requires b == Rest(s.blockM, s.blockN)
    ensures (m + 1) * s.blockM + s.seqlenK - s.seqlenQ == z * b && s.blockN == n1 * b
  {
    var M, N := s.blockM, s.blockN;
    n1 := Divide(N, b);
    var k1 := Divide(s.seqlenK, N);
    var q1 := Divide(s.seqlenQ, M);
    var m1 := DivideRest(M, N, b, n1);
    Combine(M, b, m1, m + 1, -q1);
    Combine(N, b, n1, k1, 0);
    z := (m + 1 - q1) * m1 + k1 * n1;
    AddMultiples((m + 1 - q1) * m1, k1 * n1, b);
  }

  lemma AddMultiples(x: int, y: int, b: int)
    ensures x * b + y * b == (x + y) * b
  {
  }

  lemma Combine(M: int, b: int, m1: int, i: int, j: int)
    requires M == m1 * b
    ensures i * M + j * M == ((i + j) * m1) * b
  {
  }

  lemma DivideRest(M: nat, N: nat, b: nat, n1: int) returns (m1: int)
    requires N > 0 && N == n1 * b && b == Rest(M, N)
    ensures M == m1 * b
  {
    DivBounds(M, N);
    if M % N == 0 {
      m1 := M / N;
    } else {
      m1 := M / N * n1 + 1;
      Combine(N, b, n1, M / N, 0);
    }
  }

  // ---------------------------------------------------------------- exactly which tiles may skip the mask

  /** Row `row` and column `col` of a block of the second loop. */
  predicate InSecondLoop(s: Shape, m: int, n: int, row: int, col: int)
    requires s.blockN > 0
  {
    && 0 <= m && row < s.seqlenQ && InTile(s, m, row) && InBlock(s, n, col)
    && BlockMin(s, m) <= n < BlockMax(s, m) - MaskingSteps(s)
  }

  /** The second loop may do without the mask for every even causal problem ... */
  ghost predicate MaySkipMask(M: nat, N: nat)
    requires M > 0 && N > 0
  {
    forall s: Shape, m, n, row, col ::
      Launched(s) && s.causal && s.even && s.blockM == M && s.blockN == N && InSecondLoop(s, m, n, row, col)
      ==> (MaskedLater(s, row, col) <==> !Visible(s, row, col))
  }

  /** ... exactly if the tile sizes are aligned. */
  lemma MaskSkippedExactly(M: nat, N: nat)
    requires M > 0 && N > 0
    ensures MaySkipMask(M, N) <==> Aligned(M, N)
  {
    if Aligned(M, N) {
      forall s: Shape, m, n, row, col |
        Launched(s) && s.causal && s.even && s.blockM == M && s.blockN == N && InSecondLoop(s, m, n, row, col)
        ensures MaskedLater(s, row, col) <==> !Visible(s, row, col)
      {
        LaterMaskExact(s, m, n, row, col);
      }
    } else {
      var s, n, col := UnmaskedHidden(M, N);
      assert InSecondLoop(s, 0, n, 0, col);
    }
  }

  /** The tile sizes that the kernels are built with. */
  predicate BuiltTile(M: nat, N: nat) {
    (M, N) in {(128, 128), (128, 64), (128, 32), (64, 64), (64, 256), (64, 128)}
  }

  lemma BuiltTilesAligned(M: nat, N: nat)
    requires BuiltTile(M, N)
    ensures N > 0 && Aligned(M, N) && (M > 0 ==> MaySkipMask(M, N))
  {
    MaskSkippedExactly(M, N);
  }

  /** A problem in which a block of the second loop holds a column hidden from its first row. */
  lemma UnmaskedHidden(M: nat, N: nat) returns (s: Shape, n: int, col: int)
    requires M > 0 && N > 0 && !Aligned(M, N)
    ensures Launched(s) && s.causal && s.even && s.blockM == M && s.blockN == N
    ensures InSecondLoop(s, 0, n, 0, col) && !MaskedLater(s, 0, col) && !Visible(s, 0, col)
  {
    hide BlockMax, MaskingSteps, CeilDivC, Aligned;
    var a, b, c, r, q, k, top := WitnessNumbers(M, N);
    s := Shape(q, k, -1, 0, true, false, true, M, N);
    WitnessRange(s, a, b, c, r, top);
    n, col := c - a - 1, (c - a) * N - 1;
    assert (c - a) * N == c * N - a * N;
    NextMultiple(n, N);
    assert 0 * M == 0 && 1 * M == M;
    MulMonotone(1, c - a, N);
  }

  lemma WitnessNumbers(M: nat, N: nat)
      returns (a: int, b: int, c: int, r: int, q: nat, k: nat, top: int)
    requires M > 0 && N > 0 && !Aligned(M, N)
    ensures M == a * N + b && 2 < b < N && 0 < r < b - 1 && 0 <= a < c < top
    ensures q > 0 && q % M == 0 && k == top * N && k % N == 0
    ensures M + k - q == c * N + r
  {
    a, b := NotAligned(M, N);
    hide Aligned;
    var t, w;
    t, w, r := Remainder(N, b);
    var u;
    u, c, top := Diagonal(M, N, a, b, t, w, r);
    Multiple(u, M);
    Multiple(top, N);
    q, k := u * M, top * N;
  }

  lemma Multiple(u: int, d: nat)
    requires u > 0 && d > 0
    ensures u * d > 0 && (u * d) % d == 0
  {
    MulMonotone(1, u, d);
    DivUnique(u * d, d, u);
  }

  lemma NotAligned(M: nat, N: nat) returns (a: int, b: int)
    requires M > 0 && N > 0 && !Aligned(M, N)
    ensures M == a * N + b && 2 < b < N && N % b != 0 && a >= 0
  {
    DivBounds(M, N);
    DivUnique(N, N, 1);
    a, b := M / N, M % N;
    if b == 1 {
      DivUnique(N, 1, N);
    }
  }

  /** The range of blocks of the problem above. */
  lemma WitnessRange(s: Shape, a: int, b: int, c: int, r: int, top: int)
    requires s.blockN > 0 && s.causal && !s.local && s.even && s.windowRight == 0
    requires s.blockM == a * s.blockN + b && 0 < b < s.blockN && a >= 0
    requires s.blockM + s.seqlenK - s.seqlenQ == c * s.blockN + r && 0 < r < s.blockN
    requires s.seqlenK == top * s.blockN && 0 <= c && c + 1 <= top
    ensures BlockMin(s, 0) == 0 && BlockMax(s, 0) == c + 1 && MaskingSteps(s) == a + 1
  {
    var M, N := s.blockM, s.blockN;
    assert 0 * M == 0 && 1 * M == M;
    NextMultiple(c, N);
    NextMultiple(a, N);
    MulMonotone(0, c, N);
    MulMonotone(0, a, N);
    DivUnique(c * N + r + N - 1, N, c + 1);
    DivUnique(top * N + N - 1, N, top);
    DivUnique(M + N - 1, N, a + 1);
  }

  lemma NextMultiple(c: int, d: int)
    ensures (c + 1) * d == c * d + d
  {
  }

  lemma Remainder(N: nat, b: nat) returns (t: int, w: int, r: int)
    requires 2 < b < N && N % b != 0
    ensures t * b == w * N + r && 0 < r < b - 1 && w >= 1 && t >= 1
  {
    DivBounds(N, b);
    var c := N / b;
    if N % b >= 2 {
      t, w, r := c + 1, 1, b - N % b;
      assert (c + 1) * b == c * b + b;
    } else {
      t, w, r := 2 * c + 1, 2, b - 2;
      assert (2 * c + 1) * b == 2 * (c * b) + b;
    }
  }

  lemma Diagonal(M: nat, N: nat, a: int, b: int, t: int, w: int, r: int) returns (u: int, c: int, top: int)
    requires M == a * N + b && t * b == w * N + r && 0 < r < b < N && w >= 1 && t >= 1 && a >= 0
    ensures M + top * N - u * M == c * N + r && a < c < top && u > 0
  {
    var x, y := t * a, t * M;
    u, c, top := 1 + t * (N - 1), a + 2 + x + w, y + a + 2;
    Expand(t, a, b, N);
    UProduct(t, N, M);
    Spread(y, a, 2, 0, N);
    Spread(a, 2, x, w, N);
    DiagonalBounds(t, a, w, N);
  }

  lemma DiagonalBounds(t: int, a: int, w: int, N: nat)
    requires t >= 1 && a >= 0 && w >= 1 && N >= 1
    ensures t * a >= 0 && t * a * N >= t * a && w * N >= w && t * (N - 1) >= 0
  {
  }

  lemma Expand(t: int, a: int, b: int, N: int)
    ensures t * (a * N + b) == t * a * N + t * b
  {
  }

  lemma UProduct(t: int, N: int, M: int)
    ensures (1 + t * (N - 1)) * M == M + t * M * N - t * M
  {
  }

  lemma Spread(x: int, y: int, z: int, w: int, d: int)
    ensures (x + y + z + w) * d == x * d + y * d + z * d + w * d
  {
  }
}
