/** Candidate generation for one degree of the level-wise search: every
    frontier pattern is extended by one literal, features in column order and
    the positive literal before the negative one, and the extension is kept
    only when the insert succeeds and every one-literal-removed sub-pattern is
    in the previous frontier. */
module Frontier {
  import opened Patterns

  /** Anti-monotone closure: every pattern obtained from `q` by removing one
      literal is a member of `prev`. */
  predicate Closed(q: Pattern, prev: seq<Pattern>)
  {
    forall t :: t in q ==> q - {t} in prev
  }

  /** The candidate obtained by inserting `lit` into `p`: nothing when the
      insert fails (exact duplicate) or the sub-pattern test fails. */
  function TryLiteral(p: Pattern, lit: Literal, prev: seq<Pattern>): seq<Pattern>
  {
    if lit in p then []
    else if Closed(p + {lit}, prev) then [p + {lit}]
    else []
  }

  /** Candidates from `p` for the feature columns `f .. nf-1`. */
  function ExtendFrom(p: Pattern, f: nat, nf: nat, prev: seq<Pattern>): seq<Pattern>
    decreases nf - f
  {
    if f >= nf then []
    else TryLiteral(p, Literal(true, f), prev) + TryLiteral(p, Literal(false, f), prev)
         + ExtendFrom(p, f + 1, nf, prev)
  }

  /** Candidates from each pattern of `ps` in turn. */
  function CandidatesOf(ps: seq<Pattern>, nf: nat, prev: seq<Pattern>): seq<Pattern>
  {
    if |ps| == 0 then [] else ExtendFrom(ps[0], 0, nf, prev) + CandidatesOf(ps[1..], nf, prev)
  }

  /** All candidates of one degree, in evaluation order, duplicates kept. */
  function Candidates(prev: seq<Pattern>, nf: nat): seq<Pattern>
  {
    CandidatesOf(prev, nf, prev)
  }

  lemma TryLiteralSound(p: Pattern, lit: Literal, nf: nat, prev: seq<Pattern>, c: Pattern)
    requires WithinFeatures(p, nf) && lit.feature < nf
    requires c in TryLiteral(p, lit, prev)
    ensures WithinFeatures(c, nf) && Closed(c, prev)
    ensures |c| == |p| + 1
  {
    assert c == p + {lit} && lit !in p;
  }

  lemma {:induction false} ExtendFromSound(p: Pattern, f: nat, nf: nat, prev: seq<Pattern>, c: Pattern)
    requires WithinFeatures(p, nf)
    requires c in ExtendFrom(p, f, nf, prev)
    ensures WithinFeatures(c, nf) && Closed(c, prev)
    ensures |c| == |p| + 1
    decreases nf - f
  {
    if f < nf {
      var lt, lf := Literal(true, f), Literal(false, f);
      var a, b, rest := TryLiteral(p, lt, prev), TryLiteral(p, lf, prev), ExtendFrom(p, f + 1, nf, prev);
      assert ExtendFrom(p, f, nf, prev) == a + b + rest;
      if c in a {
        TryLiteralSound(p, lt, nf, prev, c);
      } else if c in b {
        TryLiteralSound(p, lf, nf, prev, c);
      } else {
        ExtendFromSound(p, f + 1, nf, prev, c);
      }
    }
  }

  lemma {:induction false} CandidatesOfSound(ps: seq<Pattern>, nf: nat, prev: seq<Pattern>, k: nat, c: Pattern)
    requires forall p :: p in ps ==> |p| == k && WithinFeatures(p, nf)
    requires c in CandidatesOf(ps, nf, prev)
    ensures |c| == k + 1 && WithinFeatures(c, nf) && Closed(c, prev)
    decreases |ps|
  {
    if c in ExtendFrom(ps[0], 0, nf, prev) {
      ExtendFromSound(ps[0], 0, nf, prev, c);
    } else {
      CandidatesOfSound(ps[1..], nf, prev, k, c);
    }
  }

  /** Every candidate of a degree whose frontier holds only `k`-literal patterns
      over the first `nf` columns has exactly `k + 1` literals, stays within
      those columns, and has all of its one-literal-removed sub-patterns in
      the frontier. */
  lemma CandidateShape(prev: seq<Pattern>, nf: nat, k: nat)
    requires forall p :: p in prev ==> |p| == k && WithinFeatures(p, nf)
    ensures forall c :: c in Candidates(prev, nf) ==>
              |c| == k + 1 && WithinFeatures(c, nf) && Closed(c, prev)
  {
    forall c | c in Candidates(prev, nf)
      ensures |c| == k + 1 && WithinFeatures(c, nf) && Closed(c, prev)
    {
      CandidatesOfSound(prev, nf, prev, k, c);
    }
  }

  lemma {:induction false} ExtendFromComplete(p: Pattern, f: nat, nf: nat, prev: seq<Pattern>, lit: Literal)
    requires f <= lit.feature < nf
    requires lit !in p && Closed(p + {lit}, prev)
    ensures p + {lit} in ExtendFrom(p, f, nf, prev)
    decreases nf - f
  {
    if lit.feature > f {
      ExtendFromComplete(p, f + 1, nf, prev, lit);
    } else if lit.polarity {
      assert lit == Literal(true, f);
    } else {
      assert lit == Literal(false, f);
    }
  }

  lemma {:induction false} CandidatesOfComplete(ps: seq<Pattern>, nf: nat, prev: seq<Pattern>, p: Pattern, lit: Literal)
    requires p in ps
    requires lit.feature < nf && lit !in p && Closed(p + {lit}, prev)
    ensures p + {lit} in CandidatesOf(ps, nf, prev)
    decreases |ps|
  {
    if ps[0] == p {
      ExtendFromComplete(p, 0, nf, prev, lit);
    } else {
      CandidatesOfComplete(ps[1..], nf, prev, p, lit);
    }
  }

  /** Completeness: every non-empty pattern over the first `nf` columns whose
      one-literal-removed sub-patterns are all in the frontier is generated. */
  lemma CandidateComplete(prev: seq<Pattern>, nf: nat, c: Pattern)
    requires c != {} && WithinFeatures(c, nf) && Closed(c, prev)
    ensures c in Candidates(prev, nf)
  {
    var t :| t in c;
    var p := c - {t};
    assert p + {t} == c;
    CandidatesOfComplete(prev, nf, prev, p, t);
  }
}
