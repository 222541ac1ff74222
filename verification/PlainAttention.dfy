/** Attention as its formula says it: a softmax of scaled scores over the columns a row sees, and
    the average of the values with it.  Nothing of how a kernel computes it occurs here. */
module PlainAttention {
  import opened Floats

  function Term(f: Fns, scale: real, score: (int, int) -> real, mask: (int, int) -> bool, row: int, col: int): real {
    if mask(row, col) then f.Exp(Times(score(row, col), scale)) else 0.0
  }

  /** The sum of the exponentials of the scaled scores over the columns from `lo` up to `hi`. */
  ghost function Denominator(f: Fns, scale: real, score: (int, int) -> real, mask: (int, int) -> bool,
                             row: int, lo: int, hi: int): real
    decreases hi - lo
  {
    if lo >= hi then 0.0
    else Term(f, scale, score, mask, row, lo) + Denominator(f, scale, score, mask, row, lo + 1, hi)
  }

  /** The same sum with every exponential times its column's value. */
  ghost function Numerator(f: Fns, scale: real, score: (int, int) -> real, value: (int, int) -> real,
                           mask: (int, int) -> bool, row: int, d: int, lo: int, hi: int): real
    decreases hi - lo
  {
    if lo >= hi then 0.0
    else
      Times(Term(f, scale, score, mask, row, lo), value(lo, d))
      + Numerator(f, scale, score, value, mask, row, d, lo + 1, hi)
  }

  /** The row holds attention over the columns from `lo` up to `hi`, and the logarithm of the
      denominator; zero and plus infinity if it sees none of them. */
  ghost predicate Attends(f: Fns, scale: real, score: (int, int) -> real, value: (int, int) -> real,
                          mask: (int, int) -> bool, row: int, lo: int, hi: int, out: seq<Float>, lse: Float)
  {
    if exists col :: lo <= col < hi && mask(row, col) then
      var sum := Denominator(f, scale, score, mask, row, lo, hi);
      && sum > 0.0 && lse == Fin(f.ln(sum))
      && forall d :: 0 <= d < |out| ==> out[d] == Fin(Numerator(f, scale, score, value, mask, row, d, lo, hi) / sum)
    else
      lse == PosInf && forall d :: 0 <= d < |out| ==> out[d] == Fin(0.0)
  }
}
