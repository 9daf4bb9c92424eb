/** Literals, patterns and coverage of boolean rows. A literal
    `(polarity, feature)` holds on a row when the row's value in that feature
    column equals the polarity; a pattern covers a row when all of its
    literals hold. */
module Patterns {

  /** A boolean test on one feature column; columns are identified by index. */
  datatype Literal = Literal(polarity: bool, feature: nat)

  /** A conjunction of literals. Only exact duplicates are merged, so a pattern
      may hold both polarities of one feature. */
  type Pattern = set<Literal>

  /** One data row, already cast to booleans, indexed by feature column. */
  type Row = seq<bool>

  predicate Holds(l: Literal, row: Row)
  {
    l.feature < |row| && row[l.feature] == l.polarity
  }

  predicate Covers(p: Pattern, row: Row)
  {
    forall l :: l in p ==> Holds(l, row)
  }

  predicate WithinFeatures(p: Pattern, nf: nat)
  {
    forall l :: l in p ==> l.feature < nf
  }

  /** Every literal of `p` names a column present in every row of `rows`. */
  predicate ColumnsPresent(p: Pattern, rows: seq<Row>)
  {
    forall i, l :: 0 <= i < |rows| && l in p ==> l.feature < |rows[i]|
  }

  /** The coverage mask: one entry per row, true where every literal of `p`
      holds. Like the source, the mask is the row-wise conjunction of one
      column test per literal; the pattern must be non-empty (the source
      takes the length of the first literal's column). */
  method CoverageMask(p: Pattern, rows: seq<Row>) returns (mask: seq<bool>)
    requires p != {}
    requires ColumnsPresent(p, rows)
    ensures |mask| == |rows|
    ensures forall i :: 0 <= i < |rows| ==> (mask[i] <==> Covers(p, rows[i]))
  {
    var first :| first in p;
    mask := seq(|rows|, i requires 0 <= i < |rows| => rows[i][first.feature] == first.polarity);
    var rest := p - {first};
    ghost var done: set<Literal> := {first};
    while rest != {}
      invariant rest + done == p && rest !! done
      invariant |mask| == |rows|
      invariant forall i :: 0 <= i < |rows| ==>
                  (mask[i] <==> forall l :: l in done ==> Holds(l, rows[i]))
      decreases rest
    {
      var l :| l in rest;
      var column := seq(|rows|, i requires 0 <= i < |rows| => rows[i][l.feature] == l.polarity);
      mask := seq(|rows|, i requires 0 <= i < |rows| => mask[i] && column[i]);
      rest := rest - {l};
      done := done + {l};
    }
  }

  /** Number of true entries of a mask (the height of the filtered frame). */
  function CountTrue(mask: seq<bool>): (n: nat)
    ensures n <= |mask|
  {
    if |mask| == 0 then 0 else CountTrue(mask[..|mask| - 1]) + (if mask[|mask| - 1] then 1 else 0)
  }

  /** Number of rows of `g` covered by `p`. */
  function CountCovered(p: Pattern, g: seq<Row>): (n: nat)
    ensures n <= |g|
    ensures n == 0 <==> forall r :: r in g ==> !Covers(p, r)
  {
    if |g| == 0 then 0
    else
      var h := g[..|g| - 1];
      assert g == h + [g[|g| - 1]];
      CountCovered(p, h) + (if Covers(p, g[|g| - 1]) then 1 else 0)
  }

  /** Counting the true entries of a coverage mask counts the covered rows. */
  lemma {:induction false} CountTrueOfMask(p: Pattern, g: seq<Row>, mask: seq<bool>)
    requires |mask| == |g|
    requires forall i :: 0 <= i < |g| ==> (mask[i] <==> Covers(p, g[i]))
    ensures CountTrue(mask) == CountCovered(p, g)
    decreases |g|
  {
    if |g| > 0 {
      CountTrueOfMask(p, g[..|g| - 1], mask[..|mask| - 1]);
    }
  }

  /** The rows of `g` not covered by `p`, in order: what is left of a group
      after a rule claims the rows its pattern covers. */
  function Uncovered(p: Pattern, g: seq<Row>): (u: seq<Row>)
    ensures |u| + CountCovered(p, g) == |g|
    ensures forall r :: r in u <==> r in g && !Covers(p, r)
  {
    if |g| == 0 then []
    else
      var h := g[..|g| - 1];
      var last := g[|g| - 1];
      assert g == h + [last];
      if Covers(p, last) then Uncovered(p, h) else Uncovered(p, h) + [last]
  }

  /** What remains of `g` after rules with patterns `ps` have claimed their
      rows, one after another. */
  function Unclaimed(g: seq<Row>, ps: seq<Pattern>): seq<Row>
  {
    if |ps| == 0 then g else Uncovered(ps[|ps| - 1], Unclaimed(g, ps[..|ps| - 1]))
  }

  /** No pattern of `ps` covers `r`. */
  predicate NoneCovers(ps: seq<Pattern>, r: Row)
  {
    forall k :: 0 <= k < |ps| ==> !Covers(ps[k], r)
  }

  lemma NoneCoversSnoc(q: seq<Pattern>, p: Pattern, r: Row)
    ensures NoneCovers(q + [p], r) <==> NoneCovers(q, r) && !Covers(p, r)
  {
    var ps := q + [p];
    if NoneCovers(q, r) && !Covers(p, r) {
      forall k | 0 <= k < |ps| ensures !Covers(ps[k], r) {
        if k < |q| { assert ps[k] == q[k]; } else { assert ps[k] == p; }
      }
    }
    if NoneCovers(ps, r) {
      forall k | 0 <= k < |q| ensures !Covers(q[k], r) {
        assert ps[k] == q[k];
      }
      assert ps[|q|] == p;
    }
  }

  /** A row remains exactly when it was in the group and no claiming
      pattern covers it. */
  lemma {:induction false} UnclaimedMeaning(g: seq<Row>, ps: seq<Pattern>, r: Row)
    ensures r in Unclaimed(g, ps) <==> r in g && NoneCovers(ps, r)
    decreases |ps|
  {
    if |ps| > 0 {
      var q := ps[..|ps| - 1];
      var last := ps[|ps| - 1];
      assert ps == q + [last];
      UnclaimedMeaning(g, q, r);
      NoneCoversSnoc(q, last, r);
    }
  }

  /** Claiming with one more pattern is applying `Uncovered` once more. */
  lemma UnclaimedSnoc(g: seq<Row>, ps: seq<Pattern>, p: Pattern)
    ensures Unclaimed(g, ps + [p]) == Uncovered(p, Unclaimed(g, ps))
  {
    assert (ps + [p])[..|ps|] == ps;
  }
}
