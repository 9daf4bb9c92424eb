/** Class labels: stable de-duplication, per-label counting and grouping of
    rows by label, shared by the binarizer and the rule generator. */
module Labels {
  import opened Sums

  /** Labels are compared by their formatted text. */
  type Label = string

  predicate Distinct<T(==)>(s: seq<T>)
  {
    forall i, j :: 0 <= i < j < |s| ==> s[i] != s[j]
  }

  /** Index of the first occurrence of `x` in `s`, or `|s|` when absent. */
  function FirstPos<T(==)>(s: seq<T>, x: T): (k: nat)
    ensures k <= |s|
    ensures k < |s| <==> x in s
    ensures k < |s| ==> s[k] == x
    ensures forall j :: 0 <= j < k ==> s[j] != x
  {
    if |s| == 0 then 0
    else if s[0] == x then 0
    else 1 + FirstPos(s[1..], x)
  }

  /** The first position is the only index before which `x` is absent and
      at which it is found (or the end is reached). */
  lemma FirstPosUnique<T>(s: seq<T>, x: T, j: nat)
    requires j <= |s| && (j < |s| ==> s[j] == x)
    requires forall m :: 0 <= m < j ==> s[m] != x
    ensures j == FirstPos(s, x)
  {
  }

  /** The distinct labels of `y` in order of first occurrence. */
  function UniqueStable(y: seq<Label>): (u: seq<Label>)
    ensures Distinct(u)
    ensures forall x :: x in u <==> x in y
    ensures |u| <= |y|
    ensures |y| > 0 ==> |u| > 0 && u[0] == y[0]
  {
    if |y| == 0 then []
    else
      var p := y[..|y| - 1];
      var u := UniqueStable(p);
      var x := y[|y| - 1];
      assert y == p + [x];
      if x in u then u else u + [x]
  }

  /** The entries of `u` occur in `y` in the same order. */
  predicate InOrderOf(u: seq<Label>, y: seq<Label>)
  {
    forall i, j :: 0 <= i < j < |u| ==> FirstPos(y, u[i]) < FirstPos(y, u[j])
  }

  /** The labels are listed in the order in which they first occur. */
  lemma {:induction false} UniqueStableOrder(y: seq<Label>)
    ensures InOrderOf(UniqueStable(y), y)
    decreases |y|
  {
    if |y| > 0 {
      var p := y[..|y| - 1];
      var u := UniqueStable(p);
      var x := y[|y| - 1];
      assert y == p + [x];
      UniqueStableOrder(p);
      var v := if x in u then u else u + [x];
      assert UniqueStable(y) == v;
      forall i | 0 <= i < |u|
        ensures FirstPos(y, u[i]) == FirstPos(p, u[i]) < |p|
      {
        FirstPosSnoc(p, x, u[i]);
      }
      FirstPosSnoc(p, x, x);
      forall i, j | 0 <= i < j < |v|
        ensures FirstPos(y, v[i]) < FirstPos(y, v[j])
      {
        if j < |u| {
          assert FirstPos(p, u[i]) < FirstPos(p, u[j]);
        } else {
          assert v[j] == x && x !in p;
        }
      }
    }
  }

  /** Appending an element does not move the first occurrence of anything
      already present, and an absent element lands at the old length. */
  lemma {:induction false} FirstPosSnoc<T>(p: seq<T>, z: T, w: T)
    ensures w in p ==> FirstPos(p + [z], w) == FirstPos(p, w)
    ensures w !in p && w == z ==> FirstPos(p + [z], w) == |p|
    decreases |p|
  {
    if |p| > 0 {
      assert (p + [z])[1..] == p[1..] + [z];
      FirstPosSnoc(p[1..], z, w);
    }
  }

  /** Number of positions of `y` holding `x`. */
  function CountOf(y: seq<Label>, x: Label): (n: nat)
    ensures n <= |y|
    ensures n > 0 <==> x in y
  {
    if |y| == 0 then 0
    else
      assert y == y[..|y| - 1] + [y[|y| - 1]];
      CountOf(y[..|y| - 1], x) + (if y[|y| - 1] == x then 1 else 0)
  }

  /** Rows whose label is `x`, in their original order. */
  function Select<R>(rows: seq<R>, y: seq<Label>, x: Label): (g: seq<R>)
    requires |rows| == |y|
    ensures |g| == CountOf(y, x)
    ensures forall r :: r in g ==> r in rows
  {
    if |y| == 0 then []
    else
      var n := |y| - 1;
      var g := Select(rows[..n], y[..n], x);
      if y[n] == x then g + [rows[n]] else g
  }

  /** A row is selected exactly when it sits at a position labelled `x`. */
  lemma {:induction false} SelectMembers<R>(rows: seq<R>, y: seq<Label>, x: Label, r: R)
    requires |rows| == |y|
    ensures r in Select(rows, y, x) <==> exists k :: 0 <= k < |y| && y[k] == x && rows[k] == r
    decreases |y|
  {
    if |y| > 0 {
      var n := |y| - 1;
      SelectMembers(rows[..n], y[..n], x, r);
      if exists k :: 0 <= k < |y| && y[k] == x && rows[k] == r {
        var k :| 0 <= k < |y| && y[k] == x && rows[k] == r;
        if k < n {
          assert y[..n][k] == x && rows[..n][k] == r;
        }
      }
      if r in Select(rows[..n], y[..n], x) {
        var k :| 0 <= k < n && y[..n][k] == x && rows[..n][k] == r;
        assert y[k] == x && rows[k] == r;
      }
    }
  }

  /** Per-label counts for a list of labels. */
  function CountsOf(y: seq<Label>, ls: seq<Label>): (c: seq<nat>)
    ensures |c| == |ls|
    ensures forall j :: 0 <= j < |ls| ==> c[j] == CountOf(y, ls[j])
  {
    seq(|ls|, j requires 0 <= j < |ls| => CountOf(y, ls[j]))
  }

  /** Number of positions of `ls` holding `x`. */
  function Occurrences(ls: seq<Label>, x: Label): nat
  {
    if |ls| == 0 then 0 else Occurrences(ls[..|ls| - 1], x) + (if ls[|ls| - 1] == x then 1 else 0)
  }

  lemma {:induction false} OccurrencesDistinct(ls: seq<Label>, x: Label)
    requires Distinct(ls)
    ensures Occurrences(ls, x) == if x in ls then 1 else 0
    decreases |ls|
  {
    if |ls| > 0 {
      var p := ls[..|ls| - 1];
      assert ls == p + [ls[|ls| - 1]];
      OccurrencesDistinct(p, x);
    }
  }

  /** Appending one observation to `y` raises the counts' total by the number of
      times that label is listed. */
  lemma {:induction false} SumCountsStep(y: seq<Label>, x: Label, ls: seq<Label>)
    ensures Sum(CountsOf(y + [x], ls)) == Sum(CountsOf(y, ls)) + Occurrences(ls, x)
    decreases |ls|
  {
    if |ls| > 0 {
      var p := ls[..|ls| - 1];
      assert (y + [x])[..|y + [x]| - 1] == y;
      assert CountsOf(y + [x], ls)[..|ls| - 1] == CountsOf(y + [x], p);
      assert CountsOf(y, ls)[..|ls| - 1] == CountsOf(y, p);
      SumCountsStep(y, x, p);
    }
  }

  /** When `ls` lists every label of `y` exactly once, the per-label counts
      add up to the number of rows. */
  lemma {:induction false} SumCountsIsLength(y: seq<Label>, ls: seq<Label>)
    requires Distinct(ls)
    requires forall x :: x in y ==> x in ls
    ensures Sum(CountsOf(y, ls)) == |y|
    decreases |y|
  {
    if |y| == 0 {
      if |ls| > 0 {
        assert CountsOf(y, ls) == Zeros(|ls|);
      }
    } else {
      var p := y[..|y| - 1];
      var x := y[|y| - 1];
      assert y == p + [x];
      SumCountsIsLength(p, ls);
      SumCountsStep(p, x, ls);
      OccurrencesDistinct(ls, x);
    }
  }
}
