/** How a requested attention window becomes the window parameters of the kernels. */
module Windows {
  import opened Common
  import opened Tiling

  datatype Window = Window(left: int, right: int, causal: bool, local: bool)

  /** A window larger than the longest key sequence counts as no window. */
  function Kept(requested: Option<nat>, maxSeqlenK: nat): int {
    if requested.Some? && requested.value <= maxSeqlenK then requested.value else -1
  }

  /** `single` clears the causal flag for a single query without position biases. */
  function Normalize(left: Option<nat>, right: Option<nat>, maxSeqlenK: nat, single: bool): Window {
    var l, r := Kept(left, maxSeqlenK), Kept(right, maxSeqlenK);
    var causal := l < 0 && r == 0 && !single;
    var l1 := if l < 0 && r >= 0 then maxSeqlenK else l;
    var r1 := if l1 >= 0 && r < 0 then maxSeqlenK else r;
    Window(l1, r1, causal, (l1 >= 0 || r1 >= 0) && !causal)
  }

  function ShapeOf(w: Window, seqlenQ: nat, seqlenK: nat, blockM: nat, blockN: nat, even: bool): Shape {
    Shape(seqlenQ, seqlenK, w.left, w.right, w.causal, w.local, even, blockM, blockN)
  }

  /** The columns a caller asks for: the window is counted from the diagonal, and an absent bound
      is no bound. */
  predicate Requested(left: Option<nat>, right: Option<nat>, seqlenQ: nat, seqlenK: nat, row: int, col: int) {
    var diagonal := row + seqlenK - seqlenQ;
    && 0 <= col < seqlenK
    && (left.Some? ==> diagonal - left.value <= col)
    && (right.Some? ==> col <= diagonal + right.value)
  }

  ghost predicate KeepsMeaning(left: Option<nat>, right: Option<nat>, maxSeqlenK: nat, single: bool, s: Shape) {
    forall row, col :: 0 <= row < s.seqlenQ ==>
      (Visible(s, row, col) <==> Requested(left, right, s.seqlenQ, s.seqlenK, row, col))
  }

  /** When the normalisation does no harm: a dropped or missing right bound must not matter, which
      it does only with more queries than keys. */
  predicate Harmless(left: Option<nat>, right: Option<nat>, maxSeqlenK: nat, seqlenQ: nat, seqlenK: nat) {
    || seqlenK == 0
    || (right.Some? && right.value <= maxSeqlenK)
    || (if left.Some? && left.value <= maxSeqlenK then seqlenQ <= maxSeqlenK + 1
        else right.None? || seqlenQ <= right.value + 1)
  }

  /** The kernels attend to exactly the requested columns if and only if it does no harm. */
  lemma WindowsKeepMeaning(left: Option<nat>, right: Option<nat>, maxSeqlenK: nat, single: bool,
                           seqlenQ: nat, seqlenK: nat, blockM: nat, blockN: nat, even: bool)
    requires seqlenK <= maxSeqlenK
    ensures
      var s := ShapeOf(Normalize(left, right, maxSeqlenK, single), seqlenQ, seqlenK, blockM, blockN, even);
      KeepsMeaning(left, right, maxSeqlenK, single, s) <==> Harmless(left, right, maxSeqlenK, seqlenQ, seqlenK)
  {
    var s := ShapeOf(Normalize(left, right, maxSeqlenK, single), seqlenQ, seqlenK, blockM, blockN, even);
    if !Harmless(left, right, maxSeqlenK, seqlenQ, seqlenK) {
      if Kept(left, maxSeqlenK) >= 0 {
        var row := seqlenQ - maxSeqlenK - 2;
        assert Visible(s, row, seqlenK - 1) != Requested(left, right, seqlenQ, seqlenK, row, seqlenK - 1);
      } else {
        assert Visible(s, 0, seqlenK - 1) != Requested(left, right, seqlenQ, seqlenK, 0, seqlenK - 1);
      }
    }
  }

  /** Ten queries on two keys, with a left bound only: the right bound that is filled in hides the
      last key from the first query. */
  lemma WindowChanged()
    ensures !Harmless(Some(0), None, 2, 10, 2)
    ensures
      var s := ShapeOf(Normalize(Some(0), None, 2, false), 10, 2, 128, 128, false);
      Requested(Some(0), None, 10, 2, 0, 1) && !Visible(s, 0, 1)
  {
  }

  /** The causal kernels are picked exactly for a right bound of zero without an effective left one,
      unless a single query makes the mask superfluous; the local ones for every other window. */
  lemma KernelPicked(left: Option<nat>, right: Option<nat>, maxSeqlenK: nat, single: bool)
    ensures
      var w := Normalize(left, right, maxSeqlenK, single);
      var leftKept, rightKept := left.Some? && left.value <= maxSeqlenK, right.Some? && right.value <= maxSeqlenK;
      && (w.causal <==> right == Some(0) && !leftKept && !single)
      && (w.local <==> !w.causal && (leftKept || rightKept))
  {
  }

  /** What the kernels may rely on. */
  lemma NormalizedLaunched(left: Option<nat>, right: Option<nat>, maxSeqlenK: nat, single: bool,
                           seqlenQ: nat, seqlenK: nat, blockM: nat, blockN: nat)
    requires blockM > 0 && blockN > 0
    ensures
      var w := Normalize(left, right, maxSeqlenK, single);
      var even := seqlenK % blockN == 0 && seqlenQ % blockM == 0 && !w.local;
      Launched(ShapeOf(w, seqlenQ, seqlenK, blockM, blockN, even))
  {
  }
}
