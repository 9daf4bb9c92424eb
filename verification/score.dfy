/** The separation score the binarizer attaches to a candidate cutpoint,
    computed over exact reals. With `r_i = running[i] / total[i]` and
    `S = r_1 + ... + r_n`, the code computes `S - (sum of r_i * (S - r_i)) / (n - 1)`;
    for a single label that is `0 / 0`, which is not a number. */
module Separation {

  datatype Option<T> = None | Some(value: T)

  /** Every total is positive, so every rate is defined. */
  predicate PositiveTotals(tot: seq<nat>)
  {
    forall i :: 0 <= i < |tot| ==> tot[i] > 0
  }

  /** The fraction of each label's rows counted so far. */
  function Rates(run: seq<nat>, tot: seq<nat>): (r: seq<real>)
    requires |run| == |tot| && PositiveTotals(tot)
    ensures |r| == |run|
    ensures forall i :: 0 <= i < |r| ==> r[i] == run[i] as real / tot[i] as real
  {
    seq(|run|, i requires 0 <= i < |run| => run[i] as real / tot[i] as real)
  }

  /** Sum of the entries. */
  function RealSum(r: seq<real>): real
  {
    if |r| == 0 then 0.0 else RealSum(r[..|r| - 1]) + r[|r| - 1]
  }

  /** Sum of the squared entries. */
  function SquareSum(r: seq<real>): real
  {
    if |r| == 0 then 0.0 else SquareSum(r[..|r| - 1]) + r[|r| - 1] * r[|r| - 1]
  }

  /** Sum over `i` of `r_i * (s - r_i)`, the term the code divides by `n - 1`. */
  function CrossSum(r: seq<real>, s: real): real
  {
    if |r| == 0 then 0.0 else CrossSum(r[..|r| - 1], s) + r[|r| - 1] * (s - r[|r| - 1])
  }

  /** The cross term is `s` times the sum less the sum of squares. */
  lemma {:induction false} CrossSumClosed(r: seq<real>, s: real)
    ensures CrossSum(r, s) == s * RealSum(r) - SquareSum(r)
    decreases |r|
  {
    if |r| > 0 {
      var p := r[..|r| - 1];
      var x := r[|r| - 1];
      CrossSumClosed(p, s);
      assert s * (RealSum(p) + x) == s * RealSum(p) + s * x;
    }
  }

  /** The score for a sequence of rates; `None` stands for the
      not-a-number the code produces when there is a single rate (`0 / 0`). */
  function RateScore(r: seq<real>): (v: Option<real>)
    requires |r| >= 1
    ensures v.None? <==> |r| == 1
  {
    var s := RealSum(r);
    if |r| == 1 then None else Some(s - CrossSum(r, s) / (|r| - 1) as real)
  }

  /** The divided term equals `S * S - Q`, with `Q` the sum of the squared
      rates, so the score is `S - (S * S - Q) / (n - 1)`. */
  lemma RateScoreClosed(r: seq<real>)
    requires |r| >= 2
    ensures RateScore(r).Some?
    ensures RateScore(r).value == RealSum(r) - (RealSum(r) * RealSum(r) - SquareSum(r)) / (|r| - 1) as real
  {
    CrossSumClosed(r, RealSum(r));
  }

  /** `Binarizer::score`: the score of the running counts against the label
      totals. */
  function Score(run: seq<nat>, tot: seq<nat>): (v: Option<real>)
    requires |run| == |tot| >= 1 && PositiveTotals(tot)
    ensures v.None? <==> |run| == 1
  {
    RateScore(Rates(run, tot))
  }

  /** Each entry between 0 and 1. */
  predicate UnitEntries(r: seq<real>)
  {
    forall i :: 0 <= i < |r| ==> 0.0 <= r[i] <= 1.0
  }

  lemma {:induction false} UnitPrefix(r: seq<real>)
    requires |r| > 0 && UnitEntries(r)
    ensures UnitEntries(r[..|r| - 1]) && 0.0 <= r[|r| - 1] <= 1.0
  {
  }

  /** With entries in [0, 1], the sum lies in [0, n]. */
  lemma {:induction false} RealSumBounds(r: seq<real>)
    requires UnitEntries(r)
    ensures 0.0 <= RealSum(r) <= |r| as real
    decreases |r|
  {
    if |r| > 0 {
      UnitPrefix(r);
      RealSumBounds(r[..|r| - 1]);
    }
  }

  lemma MulNonneg(a: real, b: real)
    requires 0.0 <= a && 0.0 <= b
    ensures 0.0 <= a * b
  {
  }

  /** Appending `x` to rates with sum `s` adds `2 * s * x` to `S * S - Q`. */
  lemma Square(s: real, x: real, q: real)
    ensures (s + x) * (s + x) - (q + x * x) == s * s - q + 2.0 * (s * x)
  {
  }

  /** The inductive step of `CrossBounds`: `2 * s * x <= s + n * x` when
      `0 <= s <= n` and `0 <= x <= 1`. */
  lemma CrossStep(s: real, x: real, n: real)
    requires 0.0 <= s <= n && 0.0 <= x <= 1.0
    ensures 0.0 <= s * x
    ensures 2.0 * (s * x) <= s + n * x
  {
    MulNonneg(s, x);
    MulNonneg(s, 1.0 - x);
    MulNonneg(n - s, x);
    assert s * (1.0 - x) == s - s * x;
    assert (n - s) * x == n * x - s * x;
  }

  /** With entries in [0, 1], `0 <= S * S - Q <= (n - 1) * S`. */
  lemma {:induction false} CrossBounds(r: seq<real>)
    requires UnitEntries(r)
    ensures 0.0 <= RealSum(r) * RealSum(r) - SquareSum(r) <= (|r| as real - 1.0) * RealSum(r)
    decreases |r|
  {
    if |r| > 0 {
      var p := r[..|r| - 1];
      var x := r[|r| - 1];
      var s := RealSum(p);
      var n := |p| as real;
      UnitPrefix(r);
      CrossBounds(p);
      RealSumBounds(p);
      assert RealSum(r) == s + x && SquareSum(r) == SquareSum(p) + x * x;
      Square(s, x, SquareSum(p));
      CrossStep(s, x, n);
      assert (|r| as real - 1.0) * RealSum(r) == n * (s + x);
      assert n * (s + x) == (n - 1.0) * s + s + n * x;
    }
  }

  /** When no running count exceeds its total, the score lies between 0 and
      the sum of the rates. */
  lemma ScoreBounds(run: seq<nat>, tot: seq<nat>)
    requires |run| == |tot| >= 2 && PositiveTotals(tot)
    requires forall i :: 0 <= i < |run| ==> run[i] <= tot[i]
    ensures Score(run, tot).Some?
    ensures 0.0 <= Score(run, tot).value <= RealSum(Rates(run, tot))
  {
    var r := Rates(run, tot);
    forall i | 0 <= i < |r|
      ensures 0.0 <= r[i] <= 1.0
    {
      assert run[i] as real <= tot[i] as real;
    }
    CrossBounds(r);
    RateScoreClosed(r);
    var s := RealSum(r);
    var c := s * s - SquareSum(r);
    var m := (|run| - 1) as real;
    DivBounds(c, m, s);
  }

  lemma DivBounds(c: real, m: real, s: real)
    requires m > 0.0 && 0.0 <= c <= m * s
    ensures 0.0 <= s - c / m <= s
  {
  }

  /** When every label has the same rate `q`, the score is `n * q * (1 - q)`. */
  lemma ScoreEqualRates(run: seq<nat>, tot: seq<nat>, q: real)
    requires |run| == |tot| >= 2 && PositiveTotals(tot)
    requires forall i :: 0 <= i < |run| ==> run[i] as real / tot[i] as real == q
    ensures Score(run, tot).Some? && Score(run, tot).value == |run| as real * q * (1.0 - q)
  {
    var r := Rates(run, tot);
    RateScoreConstant(r, q);
    assert Score(run, tot) == RateScore(r);
  }

  lemma RateScoreConstant(r: seq<real>, q: real)
    requires |r| >= 2
    requires forall i :: 0 <= i < |r| ==> r[i] == q
    ensures RateScore(r).Some? && RateScore(r).value == |r| as real * q * (1.0 - q)
  {
    var n := |r| as real;
    ConstantSums(r, q);
    RateScoreClosed(r);
    var S, Q := RealSum(r), SquareSum(r);
    assert RateScore(r).value == S - (S * S - Q) / (n - 1.0);
    assert S * S - Q == (n * q) * (n * q) - n * (q * q);
    EqualRatesAlgebra(n, q);
  }

  lemma EqualRatesAlgebra(n: real, q: real)
    requires n >= 2.0
    ensures n * q - ((n * q) * (n * q) - n * (q * q)) / (n - 1.0) == n * q * (1.0 - q)
  {
    var c := (n * q) * (n * q) - n * (q * q);
    assert c == (n - 1.0) * (n * (q * q));
    assert c / (n - 1.0) == n * (q * q);
  }

  /** Sums of a constant sequence. */
  lemma {:induction false} ConstantSums(r: seq<real>, q: real)
    requires forall i :: 0 <= i < |r| ==> r[i] == q
    ensures RealSum(r) == |r| as real * q
    ensures SquareSum(r) == |r| as real * (q * q)
    decreases |r|
  {
    if |r| > 0 {
      ConstantSums(r[..|r| - 1], q);
    }
  }

  /** For two labels the score is `r_1 + r_2 - 2 * r_1 * r_2`. */
  lemma ScoreTwoLabels(run: seq<nat>, tot: seq<nat>)
    requires |run| == |tot| == 2 && PositiveTotals(tot)
    ensures var r := Rates(run, tot);
            Score(run, tot).Some? && Score(run, tot).value == r[0] + r[1] - 2.0 * r[0] * r[1]
  {
    var r := Rates(run, tot);
    RateScoreTwo(r);
    assert Score(run, tot) == RateScore(r);
  }

  lemma RateScoreTwo(r: seq<real>)
    requires |r| == 2
    ensures RateScore(r).Some?
    ensures RateScore(r).value == r[0] + r[1] - 2.0 * r[0] * r[1]
  {
    RateScoreClosed(r);
    assert r[..1] == [r[0]] && [r[0]][..0] == [];
    assert RealSum([r[0]]) == RealSum([]) + r[0];
    assert SquareSum([r[0]]) == SquareSum([]) + r[0] * r[0];
    assert RealSum(r) == r[0] + r[1] && SquareSum(r) == r[0] * r[0] + r[1] * r[1];
    TwoAlgebra(r[0], r[1]);
  }

  lemma TwoAlgebra(a: real, b: real)
    ensures (a + b) - ((a + b) * (a + b) - (a * a + b * b)) / 1.0 == a + b - 2.0 * a * b
  {
  }

  /** A split that has seen every row of one label and none of the other
      scores 1. */
  lemma ScoreSeparated(a: nat, b: nat)
    requires a > 0 && b > 0
    ensures Score([a, 0], [a, b]).Some? && Score([a, 0], [a, b]).value == 1.0
  {
    ScoreTwoLabels([a, 0], [a, b]);
    var r := Rates([a, 0], [a, b]);
    assert r[0] == 1.0 && r[1] == 0.0;
  }
}
