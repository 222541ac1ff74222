/** A row of a tile is spread over four lanes.  Each lane folds its own columns; the maxima are
    exchanged after every block, the sums only once at the end.  The row as one sequence, which
    the other modules work with, is what the four lanes amount to. */
module Lanes {
  import opened Floats
  import opened OnlineSoftmax
  import opened Combine
  import opened Allreduce

  /** The columns that a lane holds: two of every eight. */
  function LaneCols(s: seq<Float>, lane: nat): (c: seq<Float>)
    requires |s| % 8 == 0 && lane < 4
    ensures 4 * |c| == |s|
    decreases |s|
  {
    if s == [] then [] else [s[2 * lane], s[2 * lane + 1]] + LaneCols(s[8..], lane)
  }

  ghost predicate Numbers(s: seq<Float>) {
    forall j :: 0 <= j < |s| ==> s[j].Fin?
  }

  ghost predicate Scores(s: seq<Float>) {
    forall x :: x in s ==> x.Fin? || x.NegInf?
  }

  // ---------------------------------------------------------------- the maximum

  lemma {:induction false} FromLane(s: seq<Float>, lane: nat, x: Float)
    requires |s| % 8 == 0 && lane < 4 && x in LaneCols(s, lane)
    ensures x in s
    decreases |s|
  {
    if x != s[2 * lane] && x != s[2 * lane + 1] {
      FromLane(s[8..], lane, x);
    }
  }

  lemma LaneUnfold(s: seq<Float>, lane: nat)
    requires |s| % 8 == 0 && lane < 4 && s != []
    ensures LaneCols(s, lane) == [s[2 * lane], s[2 * lane + 1]] + LaneCols(s[8..], lane)
  {
  }

  /** The lane of a column. */
  lemma {:induction false} InLane(s: seq<Float>, j: nat)
    requires |s| % 8 == 0 && j < |s|
    ensures j % 8 / 2 < 4 && s[j] in LaneCols(s, j % 8 / 2)
    decreases |s|
  {
    hide LaneCols;
    var lane := j % 8 / 2;
    LaneUnfold(s, lane);
    if j < 8 {
      assert j == 2 * lane || j == 2 * lane + 1;
      assert s[j] in [s[2 * lane], s[2 * lane + 1]];
    } else {
      InLane(s[8..], j - 8);
      assert s[8..][j - 8] == s[j] && (j - 8) % 8 == j % 8;
    }
  }

  /** `m` is the largest of the values of `s`, and of `prev` unless this is the first block. */
  ghost predicate IsMax(first: bool, prev: Float, s: seq<Float>, m: Float) {
    && (m in s || (!first && m == prev))
    && (!first ==> Below(prev, m))
    && (forall x :: x in s ==> Below(x, m))
  }

  lemma NextMaxIsMax(first: bool, prev: Float, s: seq<Float>)
    requires s != [] && Scores(s) && (first || prev.Fin? || prev.NegInf?)
    ensures IsMax(first, prev, s, NextMax(first, prev, s))
    ensures NextMax(first, prev, s).Fin? || NextMax(first, prev, s).NegInf?
  {
    var m := NextMax(first, prev, s);
    if first {
      FoldMaxBound(s[0], s[1..]);
      assert s == [s[0]] + s[1..];
    } else {
      FoldMaxBound(prev, s);
    }
    forall x | x in s
      ensures Below(x, m)
    {
      var j :| 0 <= j < |s| && s[j] == x;
      if first && j > 0 {
        assert s[1..][j - 1] == x;
      }
    }
  }

  lemma MaxUnique(first: bool, prev: Float, s: seq<Float>, m: Float, m1: Float)
    requires IsMax(first, prev, s, m) && IsMax(first, prev, s, m1)
    ensures m == m1
  {
  }

  lemma LaneScores(s: seq<Float>, lane: nat)
    requires |s| % 8 == 0 && lane < 4 && Scores(s)
    ensures Scores(LaneCols(s, lane))
  {
  }

  /** The maximum of a lane after a block, before the exchange. */
  function LaneMax(first: bool, prev: Float, s: seq<Float>, lane: nat): Float
    requires |s| % 8 == 0 && s != [] && lane < 4
  {
    NextMax(first, prev, LaneCols(s, lane))
  }

  function LaneMaxima(first: bool, prev: Float, s: seq<Float>): (m: seq<Float>)
    requires |s| % 8 == 0 && s != []
    ensures |m| == 4
  {
    [LaneMax(first, prev, s, 0), LaneMax(first, prev, s, 1), LaneMax(first, prev, s, 2), LaneMax(first, prev, s, 3)]
  }

  lemma MaxLaws()
    ensures Associative(Max) && Commutative(Max)
  {
  }

  lemma AddLaws()
    ensures Associative(Add) && Commutative(Add)
  {
  }

  lemma LaneIsMax(first: bool, prev: Float, s: seq<Float>, lane: nat)
    requires s != [] && |s| % 8 == 0 && Scores(s) && (first || prev.Fin? || prev.NegInf?) && lane < 4
    ensures IsMax(first, prev, LaneCols(s, lane), LaneMax(first, prev, s, lane))
    ensures LaneMax(first, prev, s, lane).Fin? || LaneMax(first, prev, s, lane).NegInf?
  {
    LaneScores(s, lane);
    NextMaxIsMax(first, prev, LaneCols(s, lane));
  }

  lemma FourMax(a: Float, b: Float, c: Float, d: Float, m: Float)
    requires forall x :: x in [a, b, c, d] ==> x.Fin? || x.NegInf?
    requires m == Max(Max(Max(a, b), c), d)
    ensures m in [a, b, c, d] && forall x :: x in [a, b, c, d] ==> Below(x, m)
  {
  }

  /** After the exchange every lane has the maximum of the whole row. */
  lemma MaxAcrossLanes(first: bool, prev: Float, s: seq<Float>, lane: nat)
    requires s != [] && |s| % 8 == 0 && Scores(s) && (first || prev.Fin? || prev.NegInf?) && lane < 4
    ensures Run(Max, LaneMaxima(first, prev, s), 2)[lane] == NextMax(first, prev, s)
  {
    hide LaneMax, LaneCols, Run, NextMax, Max, IsMax, Scores, Associative, Commutative;
    MaxLaws();
    var ms := LaneMaxima(first, prev, s);
    QuadReduced(Max, ms, lane);
    LaneIsMax(first, prev, s, 0);
    LaneIsMax(first, prev, s, 1);
    LaneIsMax(first, prev, s, 2);
    LaneIsMax(first, prev, s, 3);
    var m := Max(Max(Max(ms[0], ms[1]), ms[2]), ms[3]);
    FourMax(ms[0], ms[1], ms[2], ms[3], m);
    RowIsMax(first, prev, s, ms, m);
    NextMaxIsMax(first, prev, s);
    MaxUnique(first, prev, s, m, NextMax(first, prev, s));
  }

  lemma RowIsMax(first: bool, prev: Float, s: seq<Float>, ms: seq<Float>, m: Float)
    requires s != [] && |s| % 8 == 0 && |ms| == 4
    requires forall lane: nat :: lane < 4 ==> IsMax(first, prev, LaneCols(s, lane), ms[lane])
    requires m in ms && forall x :: x in ms ==> Below(x, m)
    ensures IsMax(first, prev, s, m)
  {
    hide LaneCols, Below;
    var k: nat :| k < 4 && ms[k] == m;
    assert IsMax(first, prev, LaneCols(s, k), m);
    if m in LaneCols(s, k) {
      FromLane(s, k, m);
    }
    forall x | x in s
      ensures Below(x, m)
    {
      var j: nat :| j < |s| && s[j] == x;
      InLane(s, j);
      var lane: nat := j % 8 / 2;
      assert IsMax(first, prev, LaneCols(s, lane), ms[lane]) && ms[lane] in ms;
      BelowTrans(x, ms[lane], m);
    }
  }

  lemma BelowTrans(a: Float, b: Float, c: Float)
    requires Below(a, b) && Below(b, c)
    ensures Below(a, c)
  {
  }

  lemma QuadGroup(lane: nat)
    requires lane < 4
    ensures lane / 4 * 4 == 0 && Pow2(2) == 4
  {
  }

  lemma QuadReduced(op: (Float, Float) -> Float, x: seq<Float>, lane: nat)
    requires Associative(op) && Commutative(op) && |x| == 4 && lane < 4
    ensures Pow2(2) == 4 && Run(op, x, 2)[lane] == op(op(op(x[0], x[1]), x[2]), x[3])
  {
    hide Run, Pow2, Associative, Commutative;
    QuadGroup(lane);
    AllLanesReduced(op, x, 2, lane);
    assert Reduce(op, x, 0, 1) == x[0];
    assert Reduce(op, x, 0, 2) == op(x[0], x[1]);
    assert Reduce(op, x, 0, 3) == op(op(x[0], x[1]), x[2]);
  }

  // ---------------------------------------------------------------- the sums

  function Total(s: seq<Float>): real
    decreases |s|
  {
    if s == [] then 0.0 else (if s[0].Fin? then s[0].r else 0.0) + Total(s[1..])
  }

  lemma {:induction false} FoldSumTotal(a: real, s: seq<Float>)
    requires Numbers(s)
    ensures FoldSum(Fin(a), s) == Fin(a + Total(s))
    decreases |s|
  {
    if s != [] {
      FoldSumTotal(a + s[0].r, s[1..]);
    }
  }

  lemma {:induction false} TotalConcat(s: seq<Float>, t: seq<Float>)
    ensures Total(s + t) == Total(s) + Total(t)
    decreases |s|
  {
    if s == [] {
      assert s + t == t;
    } else {
      assert (s + t)[1..] == s[1..] + t;
      TotalConcat(s[1..], t);
    }
  }

  lemma {:induction false} TotalAcrossLanes(s: seq<Float>)
    requires |s| % 8 == 0 && Numbers(s)
    ensures Total(LaneCols(s, 0)) + Total(LaneCols(s, 1)) + Total(LaneCols(s, 2)) + Total(LaneCols(s, 3)) == Total(s)
    ensures forall lane: nat :: lane < 4 ==> Numbers(LaneCols(s, lane))
    decreases |s|
  {
    if s != [] {
      hide LaneCols, Total;
      var rest := s[8..];
      TotalAcrossLanes(rest);
      forall lane: nat | lane < 4
        ensures Total(LaneCols(s, lane)) == s[2 * lane].r + s[2 * lane + 1].r + Total(LaneCols(rest, lane))
      {
        LaneUnfold(s, lane);
        var pair := [s[2 * lane], s[2 * lane + 1]];
        TotalConcat(pair, LaneCols(rest, lane));
        TotalPair(pair);
      }
      TotalEight(s);
    }
  }

  lemma TotalPair(s: seq<Float>)
    requires |s| == 2 && Numbers(s)
    ensures Total(s) == s[0].r + s[1].r
  {
    assert Total(s[2..]) == 0.0 && s[1..][1..] == s[2..];
  }

  lemma TotalEight(s: seq<Float>)
    requires |s| >= 8 && Numbers(s)
    ensures Total(s) == s[0].r + s[1].r + (s[2].r + s[3].r) + (s[4].r + s[5].r) + (s[6].r + s[7].r) + Total(s[8..])
  {
    TotalTwo(s);
    TotalTwo(s[2..]);
    TotalTwo(s[4..]);
    TotalTwo(s[6..]);
    assert s[2..][2..] == s[4..] && s[4..][2..] == s[6..] && s[6..][2..] == s[8..];
  }

  lemma TotalTwo(s: seq<Float>)
    requires |s| >= 2 && Numbers(s)
    ensures Total(s) == s[0].r + s[1].r + Total(s[2..])
  {
  }

  /** The running sums of the four lanes add up to the running sum of the row. */
  ghost predicate PartsOfSum(parts: seq<Float>, sum: Float) {
    |parts| == 4 && Numbers(parts) && sum == Fin(parts[0].r + parts[1].r + parts[2].r + parts[3].r)
  }

  function LaneSums(first: bool, parts: seq<Float>, factor: Float, probs: seq<Float>): (sums: seq<Float>)
    requires |parts| == 4 && |probs| % 8 == 0 && probs != []
    ensures |sums| == 4
    ensures forall lane: nat :: lane < 4 ==> sums[lane] == NextSum(first, parts[lane], factor, LaneCols(probs, lane))
  {
    seq(4, lane requires 0 <= lane < 4 => NextSum(first, parts[lane], factor, LaneCols(probs, lane)))
  }

  lemma NextSumTotal(first: bool, sum: Float, factor: Float, probs: seq<Float>)
    requires probs != [] && Numbers(probs) && (first || (sum.Fin? && factor.Fin?))
    ensures NextSum(first, sum, factor, probs) == Fin((if first then 0.0 else Times(sum.r, factor.r)) + Total(probs))
  {
    if first {
      FoldSumTotal(probs[0].r, probs[1..]);
    } else {
      FoldSumTotal(Times(sum.r, factor.r), probs);
    }
  }

  /** A block keeps that so: every lane rescales and adds on its own. */
  lemma BlockKeepsParts(first: bool, parts: seq<Float>, sum: Float, factor: Float, probs: seq<Float>)
    requires |probs| % 8 == 0 && probs != [] && Numbers(probs)
    requires |parts| == 4 && (first || (PartsOfSum(parts, sum) && factor.Fin?))
    ensures PartsOfSum(LaneSums(first, parts, factor, probs), NextSum(first, sum, factor, probs))
  {
    TotalAcrossLanes(probs);
    var sums := LaneSums(first, parts, factor, probs);
    forall lane: nat | lane < 4
      ensures sums[lane] == Fin((if first then 0.0 else Times(parts[lane].r, factor.r)) + Total(LaneCols(probs, lane)))
    {
      NextSumTotal(first, parts[lane], factor, LaneCols(probs, lane));
    }
    NextSumTotal(first, sum, factor, probs);
    if !first {
      FourTimes(parts[0].r, parts[1].r, parts[2].r, parts[3].r, factor.r);
    }
  }

  lemma FourTimes(a: real, b: real, c: real, d: real, k: real)
    ensures Times(a + b + c + d, k) == Times(a, k) + Times(b, k) + Times(c, k) + Times(d, k)
  {
  }

  /** The one exchange at the end gives every lane the sum of the row. */
  lemma SumAcrossLanes(parts: seq<Float>, sum: Float, lane: nat)
    requires PartsOfSum(parts, sum) && lane < 4
    ensures Pow2(2) == 4 && Run(Add, parts, 2)[lane] == sum
  {
    hide Run, Associative, Commutative;
    AddLaws();
    QuadReduced(Add, parts, lane);
  }
}
