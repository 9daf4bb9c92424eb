/** The level-wise prime-pattern search of the rule generator. Rows are split
    into one group per distinct label; degree by degree, every candidate
    pattern is counted against every group and is either recorded as a rule
    (when exactly one group has covered rows, which are then claimed out of
    that group), discarded (no group has covered rows) or carried to the next
    degree's frontier (two or more groups have covered rows). */
module RuleGeneration {
  import opened Sums
  import opened Labels
  import opened Patterns
  import opened Frontier
  import Binarize

  /** A rule: the label of the group a pattern isolated, and the pattern. */
  datatype Rule = Rule(cls: Label, pattern: Pattern)

  /** The generator: a (never used) copy of a binarizer, the maximum degree,
      the rules found by the last fit and the labels of that fit. */
  datatype RuleGenerator = RuleGenerator(bin: Binarize.Binarizer, max: nat, rules: seq<Rule>, labels: seq<Label>)

  /** A fresh generator with no rules and no labels. */
  function New(bin: Binarize.Binarizer, max: nat): RuleGenerator
  {
    RuleGenerator(bin, max, [], [])
  }

  /** The recorded rules, in discovery order. */
  function GetRules(g: RuleGenerator): seq<Rule>
  {
    g.rules
  }

  /** The degree bound used by fit: the feature count when the configured
      maximum is 0 or exceeds it, the configured maximum otherwise. */
  function NormalizeMax(max: nat, nf: nat): (m: nat)
    ensures m <= nf
    ensures max == 0 || max > nf ==> m == nf
    ensures 0 < max <= nf ==> m == max
    ensures nf > 0 ==> m > 0
  {
    if max > nf || max == 0 then nf else max
  }

  /** Group sizes (the frame heights the source calls shapes). */
  function Lengths(groups: seq<seq<Row>>): (ls: seq<nat>)
    ensures |ls| == |groups|
    ensures forall i :: 0 <= i < |groups| ==> ls[i] == |groups[i]|
  {
    seq(|groups|, i requires 0 <= i < |groups| => |groups[i]|)
  }

  /** Number of rows left in all groups. */
  function Total(groups: seq<seq<Row>>): nat
  {
    if |groups| == 0 then 0 else Total(groups[..|groups| - 1]) + |groups[|groups| - 1]|
  }

  /** Total is the sum of the group sizes. */
  lemma {:induction false} TotalIsSum(groups: seq<seq<Row>>)
    ensures Total(groups) == Sum(Lengths(groups))
    decreases |groups|
  {
    if |groups| > 0 {
      var h := groups[..|groups| - 1];
      assert Lengths(groups)[..|groups| - 1] == Lengths(h);
      TotalIsSum(h);
    }
  }

  /** One group per label of `labels`: the rows carrying that label. */
  function GroupByLabel(rows: seq<Row>, y: seq<Label>, labels: seq<Label>): (groups: seq<seq<Row>>)
    requires |rows| == |y|
    requires Distinct(labels)
    requires forall x :: x in y ==> x in labels
    ensures |groups| == |labels|
    ensures Total(groups) == |rows|
    ensures forall i, r :: 0 <= i < |labels| && r in groups[i] ==> r in rows
    ensures forall i :: 0 <= i < |labels| ==> groups[i] == Select(rows, y, labels[i])
    ensures forall i :: 0 <= i < |labels| ==> |groups[i]| == CountOf(y, labels[i])
  {
    var groups := seq(|labels|, i requires 0 <= i < |labels| => Select(rows, y, labels[i]));
    assert Lengths(groups) == CountsOf(y, labels);
    SumCountsIsLength(y, labels);
    TotalIsSum(groups);
    groups
  }

  /** Claiming for group `i`: the rows of that group covered by `p` are
      removed; every other group is left as it is. */
  function Claim(groups: seq<seq<Row>>, i: nat, p: Pattern): (g: seq<seq<Row>>)
    requires i < |groups|
    ensures |g| == |groups|
    ensures forall j :: 0 <= j < |groups| && j != i ==> g[j] == groups[j]
    ensures forall r :: r in g[i] <==> r in groups[i] && !Covers(p, r)
    ensures Total(g) + CountCovered(p, groups[i]) == Total(groups)
  {
    var u := Uncovered(p, groups[i]);
    var g := groups[i := u];
    assert Lengths(g) == Lengths(groups)[i := |u|];
    SumUpdate(Lengths(groups), i, |u|);
    TotalIsSum(groups);
    TotalIsSum(g);
    g
  }

  /** The decision taken for one candidate. */
  datatype Decision = Record(group: nat) | Discard | Carry

  /** Number of groups with at least one covered row. */
  function NumNonzero(counts: seq<nat>): nat
  {
    if |counts| == 0 then 0 else (if counts[0] > 0 then 1 else 0) + NumNonzero(counts[1..])
  }

  lemma {:induction false} NumNonzeroZero(counts: seq<nat>)
    ensures NumNonzero(counts) == 0 <==> forall i :: 0 <= i < |counts| ==> counts[i] == 0
    decreases |counts|
  {
    if |counts| > 0 {
      NumNonzeroZero(counts[1..]);
      assert forall i :: 1 <= i < |counts| ==> counts[i] == counts[1..][i - 1];
    }
  }

  /** Two groups with covered rows make the count at least two. */
  lemma {:induction false} NumNonzeroTwoIntro(counts: seq<nat>, i: nat, j: nat)
    requires i < j < |counts| && counts[i] > 0 && counts[j] > 0
    ensures NumNonzero(counts) >= 2
    decreases |counts|
  {
    var t := counts[1..];
    if i == 0 {
      NumNonzeroZero(t);
      assert t[j - 1] > 0;
    } else {
      assert t[i - 1] > 0 && t[j - 1] > 0;
      NumNonzeroTwoIntro(t, i - 1, j - 1);
    }
  }

  /** A count of at least two exhibits two groups with covered rows. */
  lemma {:induction false} NumNonzeroTwoElim(counts: seq<nat>) returns (i: nat, j: nat)
    requires NumNonzero(counts) >= 2
    ensures i < j < |counts| && counts[i] > 0 && counts[j] > 0
    decreases |counts|
  {
    var t := counts[1..];
    if counts[0] > 0 {
      NumNonzeroZero(t);
      var k :| 0 <= k < |t| && t[k] > 0;
      i, j := 0, k + 1;
    } else {
      var a, b := NumNonzeroTwoElim(t);
      i, j := a + 1, b + 1;
    }
  }

  /** With fewer than two non-zero counts, a non-zero count is the only one. */
  lemma OnlyNonzero(counts: seq<nat>, i: nat)
    requires i < |counts| && counts[i] > 0 && NumNonzero(counts) < 2
    ensures forall j :: 0 <= j < |counts| && j != i ==> counts[j] == 0
  {
    forall j | 0 <= j < |counts| && j != i ensures counts[j] == 0 {
      if counts[j] > 0 {
        if i < j { NumNonzeroTwoIntro(counts, i, j); } else { NumNonzeroTwoIntro(counts, j, i); }
        assert false;
      }
    }
  }

  /** A count of at least two rules out a single covered group. */
  lemma ManyNonzero(counts: seq<nat>)
    requires NumNonzero(counts) >= 2
    ensures !ExactlyOne(counts)
    ensures exists i, j :: 0 <= i < j < |counts| && counts[i] > 0 && counts[j] > 0
  {
    var a, b := NumNonzeroTwoElim(counts);
    forall i | 0 <= i < |counts| && counts[i] > 0
      ensures exists j :: 0 <= j < |counts| && j != i && counts[j] > 0
    {
      if i == a { assert counts[b] > 0; } else { assert counts[a] > 0; }
    }
  }

  /** The index the source's claiming loop settles on: the first group with a
      non-zero count and a non-empty frame, or `|counts|` when there is none. */
  function FirstClaimable(counts: seq<nat>, shapes: seq<nat>, i: nat): (k: nat)
    requires |counts| == |shapes| && i <= |counts|
    ensures i <= k <= |counts|
    ensures k < |counts| ==> counts[k] > 0 && shapes[k] > 0
    ensures forall j :: i <= j < k ==> counts[j] == 0 || shapes[j] == 0
    decreases |counts| - i
  {
    if i == |counts| then |counts|
    else if counts[i] == 0 || shapes[i] == 0 then FirstClaimable(counts, shapes, i + 1)
    else i
  }

  /** Exactly one group has covered rows. */
  predicate ExactlyOne(counts: seq<nat>)
  {
    exists i :: 0 <= i < |counts| && counts[i] > 0 &&
      forall j :: 0 <= j < |counts| && j != i ==> counts[j] == 0
  }

  /** The decision for a candidate from its per-group covered counts and the
      group sizes: the source counts the groups with a non-zero count and
      records when that number is 1, discards when it is 0 and carries the
      candidate forward otherwise. */
  function Decide(counts: seq<nat>, shapes: seq<nat>): (d: Decision)
    requires |counts| == |shapes|
    requires forall i :: 0 <= i < |counts| ==> counts[i] <= shapes[i]
    ensures d.Record? <==> ExactlyOne(counts)
    ensures d.Record? ==> d.group < |counts| && counts[d.group] > 0 &&
                          forall j :: 0 <= j < |counts| && j != d.group ==> counts[j] == 0
    ensures d.Discard? <==> forall i :: 0 <= i < |counts| ==> counts[i] == 0
    ensures d.Carry? <==> exists i, j :: 0 <= i < j < |counts| && counts[i] > 0 && counts[j] > 0
  {
    NumNonzeroZero(counts);
    var nonzero := NumNonzero(counts);
    if nonzero == 1 then
      var i := FirstClaimable(counts, shapes, 0);
      if i < |counts| then
        OnlyNonzero(counts, i);
        Record(i)
      else
        assert false; Discard
    else if nonzero == 0 then Discard
    else
      ManyNonzero(counts);
      Carry
  }

  /** Covered-row counts of `p` in every group, through the coverage mask. */
  method GroupCounts(p: Pattern, groups: seq<seq<Row>>) returns (counts: seq<nat>)
    requires p != {}
    requires forall i :: 0 <= i < |groups| ==> ColumnsPresent(p, groups[i])
    ensures |counts| == |groups|
    ensures forall i :: 0 <= i < |groups| ==> counts[i] == CountCovered(p, groups[i])
  {
    counts := [];
    var i := 0;
    while i < |groups|
      invariant i <= |groups| && |counts| == i
      invariant forall j :: 0 <= j < i ==> counts[j] == CountCovered(p, groups[j])
    {
      var mask := CoverageMask(p, groups[i]);
      CountTrueOfMask(p, groups[i], mask);
      counts := counts + [CountTrue(mask)];
      i := i + 1;
    }
  }

  /** The patterns of the rules labelled `l`, in order. */
  function PatternsFor(rules: seq<Rule>, l: Label): seq<Pattern>
  {
    if |rules| == 0 then []
    else PatternsFor(rules[..|rules| - 1], l)
         + (if rules[|rules| - 1].cls == l then [rules[|rules| - 1].pattern] else [])
  }

  /** Remaining rows plus claimed rows equal the original rows. */
  predicate Conserved(orig: seq<seq<Row>>, groups: seq<seq<Row>>, claims: seq<nat>)
  {
    Total(groups) + Sum(claims) == Total(orig)
  }

  /** Each group is its original rows minus those covered by its own rules.
      Stated group by group from the last one, so that it is unfolded only
      on demand; `GroupsUnclaimedAt` and `GroupsUnclaimedIntro` convert it to
      and from the quantified form. */
  predicate GroupsUnclaimed(labels: seq<Label>, orig: seq<seq<Row>>, groups: seq<seq<Row>>, rules: seq<Rule>)
    requires |groups| == |labels| == |orig|
    decreases |groups|
  {
    var n := |groups|;
    n == 0 ||
    (&& groups[n - 1] == Unclaimed(orig[n - 1], PatternsFor(rules, labels[n - 1]))
     && GroupsUnclaimed(labels[..n - 1], orig[..n - 1], groups[..n - 1], rules))
  }

  lemma {:induction false} GroupsUnclaimedAt(labels: seq<Label>, orig: seq<seq<Row>>, groups: seq<seq<Row>>,
                                             rules: seq<Rule>, i: nat)
    requires |groups| == |labels| == |orig| && i < |groups|
    requires GroupsUnclaimed(labels, orig, groups, rules)
    ensures groups[i] == Unclaimed(orig[i], PatternsFor(rules, labels[i]))
    decreases |groups|
  {
    var n := |groups|;
    var ls, os, gs := labels[..n - 1], orig[..n - 1], groups[..n - 1];
    assert groups[n - 1] == Unclaimed(orig[n - 1], PatternsFor(rules, labels[n - 1]))
           && GroupsUnclaimed(ls, os, gs, rules);
    if i < n - 1 {
      GroupsUnclaimedAt(ls, os, gs, rules, i);
      assert ls[i] == labels[i] && os[i] == orig[i] && gs[i] == groups[i];
    }
  }

  lemma {:induction false} GroupsUnclaimedIntro(labels: seq<Label>, orig: seq<seq<Row>>, groups: seq<seq<Row>>,
                                                rules: seq<Rule>)
    requires |groups| == |labels| == |orig|
    requires forall i :: 0 <= i < |groups| ==> groups[i] == Unclaimed(orig[i], PatternsFor(rules, labels[i]))
    ensures GroupsUnclaimed(labels, orig, groups, rules)
    decreases |groups|
  {
    var n := |groups|;
    if n > 0 {
      GroupsUnclaimedIntro(labels[..n - 1], orig[..n - 1], groups[..n - 1], rules);
    }
  }

  /** Every rule carries a known label and claimed at least one row. */
  predicate ClaimsPositive(labels: seq<Label>, rules: seq<Rule>, claims: seq<nat>)
    requires |claims| == |rules|
  {
    forall k :: 0 <= k < |rules| ==> rules[k].cls in labels && claims[k] > 0
  }

  /** No rule covers a row still left in any group. */
  predicate NoneCoverRemaining(rules: seq<Rule>, groups: seq<seq<Row>>)
  {
    forall k, i, r :: 0 <= k < |rules| && 0 <= i < |groups| && r in groups[i] ==>
      !Covers(rules[k].pattern, r)
  }

  /** Every remaining row has one value per feature column. */
  predicate RowWidths(groups: seq<seq<Row>>, nf: nat)
  {
    forall i, r :: 0 <= i < |groups| && r in groups[i] ==> |r| == nf
  }

  /** The search state's invariant against the original groups `orig`:
      rows are conserved, each group is its original rows minus those its
      own rules covered, every rule claimed at least one row, no rule covers
      a row still in any group, and rows keep their width. */
  predicate SearchInv(labels: seq<Label>, orig: seq<seq<Row>>, groups: seq<seq<Row>>,
                      rules: seq<Rule>, claims: seq<nat>, nf: nat)
  {
    && |groups| == |labels| == |orig| && |claims| == |rules|
    && Conserved(orig, groups, claims)
    && GroupsUnclaimed(labels, orig, groups, rules)
    && ClaimsPositive(labels, rules, claims)
    && NoneCoverRemaining(rules, groups)
    && RowWidths(groups, nf)
  }

  /** Claiming for group `i` leaves every group its original rows minus those
      covered by the patterns of its own rules, the new rule included. */
  lemma RecordKeepsUnclaimed(labels: seq<Label>, orig: seq<seq<Row>>, groups: seq<seq<Row>>,
                             rules: seq<Rule>, i: nat, c: Pattern)
    requires Distinct(labels) && |groups| == |labels| == |orig| && i < |groups|
    requires GroupsUnclaimed(labels, orig, groups, rules)
    ensures GroupsUnclaimed(labels, orig, Claim(groups, i, c), rules + [Rule(labels[i], c)])
  {
    var g := Claim(groups, i, c);
    var rs := rules + [Rule(labels[i], c)];
    assert rs[..|rules|] == rules;
    forall j | 0 <= j < |g|
      ensures g[j] == Unclaimed(orig[j], PatternsFor(rs, labels[j]))
    {
      GroupsUnclaimedAt(labels, orig, groups, rules, j);
      if j == i {
        assert PatternsFor(rs, labels[j]) == PatternsFor(rules, labels[j]) + [c];
        UnclaimedSnoc(orig[j], PatternsFor(rules, labels[j]), c);
      } else {
        assert labels[i] != labels[j];
        assert PatternsFor(rs, labels[j]) == PatternsFor(rules, labels[j]);
      }
    }
    GroupsUnclaimedIntro(labels, orig, g, rs);
  }

  /** After claiming, no recorded pattern, the new one included, covers a
      row left in any group. */
  lemma RecordKeepsUncovered(groups: seq<seq<Row>>, rules: seq<Rule>, i: nat, rule: Rule)
    requires i < |groups|
    requires forall j :: 0 <= j < |groups| && j != i ==> CountCovered(rule.pattern, groups[j]) == 0
    requires NoneCoverRemaining(rules, groups)
    ensures NoneCoverRemaining(rules + [rule], Claim(groups, i, rule.pattern))
  {
    var g := Claim(groups, i, rule.pattern);
    var rs := rules + [rule];
    forall k, j, r | 0 <= k < |rs| && 0 <= j < |g| && r in g[j]
      ensures !Covers(rs[k].pattern, r)
    {
      assert r in groups[j];
      if k < |rules| {
        assert rs[k] == rules[k];
      }
    }
  }

  /** Appending a rule that claimed rows keeps every rule's label known and
      every claim positive. */
  lemma RecordKeepsClaims(labels: seq<Label>, rules: seq<Rule>, claims: seq<nat>, i: nat, c: Pattern, n: nat)
    requires |claims| == |rules| && i < |labels| && n > 0
    requires ClaimsPositive(labels, rules, claims)
    ensures ClaimsPositive(labels, rules + [Rule(labels[i], c)], claims + [n])
  {
    var rs, cs := rules + [Rule(labels[i], c)], claims + [n];
    forall k | 0 <= k < |rs| ensures rs[k].cls in labels && cs[k] > 0 {
      if k < |rules| {
        assert rs[k] == rules[k] && cs[k] == claims[k];
      }
    }
  }

  /** Claiming rows keeps the total of remaining and claimed rows. */
  lemma RecordKeepsConserved(orig: seq<seq<Row>>, groups: seq<seq<Row>>, claims: seq<nat>, i: nat, c: Pattern)
    requires i < |groups| && Conserved(orig, groups, claims)
    ensures Conserved(orig, Claim(groups, i, c), claims + [CountCovered(c, groups[i])])
  {
    var cs := claims + [CountCovered(c, groups[i])];
    assert cs[..|claims|] == claims;
  }

  /** Claiming rows keeps the width of the rows that remain. */
  lemma RecordKeepsWidths(groups: seq<seq<Row>>, nf: nat, i: nat, c: Pattern)
    requires i < |groups| && RowWidths(groups, nf)
    ensures RowWidths(Claim(groups, i, c), nf)
  {
    var g := Claim(groups, i, c);
    forall j, r | 0 <= j < |g| && r in g[j] ensures |r| == nf {
      assert r in groups[j];
    }
  }

  /** Recording a rule for the only group `i` with covered rows keeps the
      search invariant. */
  lemma RecordKeepsInv(labels: seq<Label>, orig: seq<seq<Row>>, groups: seq<seq<Row>>,
                       rules: seq<Rule>, claims: seq<nat>, nf: nat, i: nat, c: Pattern)
    requires Distinct(labels)
    requires SearchInv(labels, orig, groups, rules, claims, nf)
    requires i < |groups| && CountCovered(c, groups[i]) > 0
    requires forall j :: 0 <= j < |groups| && j != i ==> CountCovered(c, groups[j]) == 0
    ensures SearchInv(labels, orig, Claim(groups, i, c), rules + [Rule(labels[i], c)],
                      claims + [CountCovered(c, groups[i])], nf)
  {
    RecordKeepsConserved(orig, groups, claims, i, c);
    RecordKeepsUnclaimed(labels, orig, groups, rules, i, c);
    RecordKeepsUncovered(groups, rules, i, Rule(labels[i], c));
    RecordKeepsClaims(labels, rules, claims, i, c, CountCovered(c, groups[i]));
    RecordKeepsWidths(groups, nf, i, c);
  }

  /** Group `i` is the only group with rows covered by `c`. */
  predicate OnlyCovered(c: Pattern, groups: seq<seq<Row>>, i: nat)
  {
    && i < |groups| && CountCovered(c, groups[i]) > 0
    && forall j :: 0 <= j < |groups| && j != i ==> CountCovered(c, groups[j]) == 0
  }

  /** Rows of width `nf` hold every column a pattern over the first `nf`
      columns tests. */
  lemma WidthsGiveColumns(groups: seq<seq<Row>>, nf: nat, c: Pattern)
    requires RowWidths(groups, nf) && WithinFeatures(c, nf)
    ensures forall i :: 0 <= i < |groups| ==> ColumnsPresent(c, groups[i])
  {
    forall i, k, l | 0 <= i < |groups| && 0 <= k < |groups[i]| && l in c
      ensures l.feature < |groups[i][k]|
    {
      assert groups[i][k] in groups[i];
    }
  }

  /** Two groups with covered rows, read from the counts or from the groups. */
  lemma TwoCoveredIff(counts: seq<nat>, c: Pattern, groups: seq<seq<Row>>)
    requires |counts| == |groups|
    requires forall i :: 0 <= i < |groups| ==> counts[i] == CountCovered(c, groups[i])
    ensures (exists i, j :: 0 <= i < j < |counts| && counts[i] > 0 && counts[j] > 0) <==>
            (exists i, j :: 0 <= i < j < |groups| && CountCovered(c, groups[i]) > 0 && CountCovered(c, groups[j]) > 0)
  {
    if exists i, j :: 0 <= i < j < |counts| && counts[i] > 0 && counts[j] > 0 {
      var i, j :| 0 <= i < j < |counts| && counts[i] > 0 && counts[j] > 0;
      assert CountCovered(c, groups[i]) > 0 && CountCovered(c, groups[j]) > 0;
    }
    if exists i, j :: 0 <= i < j < |groups| && CountCovered(c, groups[i]) > 0 && CountCovered(c, groups[j]) > 0 {
      var i, j :| 0 <= i < j < |groups| && CountCovered(c, groups[i]) > 0 && CountCovered(c, groups[j]) > 0;
      assert counts[i] > 0 && counts[j] > 0;
    }
  }

  /** Covered-row counts of `c` in every group. */
  function CoveredCounts(c: Pattern, groups: seq<seq<Row>>): (counts: seq<nat>)
    ensures |counts| == |groups|
    ensures forall i :: 0 <= i < |groups| ==> counts[i] == CountCovered(c, groups[i]) <= |groups[i]|
  {
    seq(|groups|, i requires 0 <= i < |groups| => CountCovered(c, groups[i]))
  }

  /** The decision the source takes for `c` against the current groups. */
  function DecisionOf(c: Pattern, groups: seq<seq<Row>>): (d: Decision)
    ensures d.Record? ==> d.group < |groups|
  {
    Decide(CoveredCounts(c, groups), Lengths(groups))
  }

  /** The state threaded through the candidates of one degree: the groups,
      the rules and the rows each claimed, and the candidates carried to the
      next frontier. */
  datatype DegreeState = DegreeState(groups: seq<seq<Row>>, rules: seq<Rule>, claims: seq<nat>, next: seq<Pattern>)

  /** Evaluating candidate `c`: a recorded candidate appends its rule and
      claims its group's covered rows, a carried one is appended to the next
      frontier, a discarded one changes nothing. */
  function Step(s: DegreeState, c: Pattern, labels: seq<Label>): (t: DegreeState)
    requires |s.groups| == |labels|
    ensures |t.groups| == |labels|
  {
    match DecisionOf(c, s.groups)
    case Record(i) =>
      DegreeState(Claim(s.groups, i, c), s.rules + [Rule(labels[i], c)],
                  s.claims + [CountCovered(c, s.groups[i])], s.next)
    case Discard => s
    case Carry => s.(next := s.next + [c])
  }

  /** Evaluating the candidates `cands` in order from state `s`. */
  function Evaluated(s: DegreeState, cands: seq<Pattern>, labels: seq<Label>): (t: DegreeState)
    requires |s.groups| == |labels|
    ensures |t.groups| == |labels|
  {
    if |cands| == 0 then s
    else Step(Evaluated(s, cands[..|cands| - 1], labels), cands[|cands| - 1], labels)
  }

  lemma EvaluatedPrefix(s: DegreeState, cands: seq<Pattern>, k: nat, labels: seq<Label>)
    requires |s.groups| == |labels| && k < |cands|
    ensures Evaluated(s, cands[..k + 1], labels) == Step(Evaluated(s, cands[..k], labels), cands[k], labels)
  {
    assert cands[..k + 1][..k] == cands[..k];
  }

  /** The state after `Step` is the one the decision for `c` describes. */
  lemma StepOfDecision(s: DegreeState, c: Pattern, labels: seq<Label>, d: Decision,
                       groups: seq<seq<Row>>, rules: seq<Rule>, claims: seq<nat>, next: seq<Pattern>)
    requires |s.groups| == |labels|
    requires d == DecisionOf(c, s.groups)
    requires d.Record? ==> rules == s.rules + [Rule(labels[d.group], c)] &&
                           groups == Claim(s.groups, d.group, c) &&
                           claims == s.claims + [CountCovered(c, s.groups[d.group])]
    requires !d.Record? ==> rules == s.rules && groups == s.groups && claims == s.claims
    requires next == if d.Carry? then s.next + [c] else s.next
    ensures Step(s, c, labels) == DegreeState(groups, rules, claims, next)
  {
  }

  /** Evaluation of one candidate: its covered rows are counted in every group;
      when exactly one group has covered rows a rule for that group's label is
      appended and those rows are claimed, when no group has any the candidate
      is dropped, and otherwise it is carried to the next frontier. */
  method Evaluate(c: Pattern, labels: seq<Label>, groups0: seq<seq<Row>>, rules0: seq<Rule>,
                  claims0: seq<nat>, ghost orig: seq<seq<Row>>, nf: nat)
    returns (groups: seq<seq<Row>>, rules: seq<Rule>, claims: seq<nat>, d: Decision)
    requires Distinct(labels)
    requires c != {} && WithinFeatures(c, nf)
    requires SearchInv(labels, orig, groups0, rules0, claims0, nf)
    ensures SearchInv(labels, orig, groups, rules, claims, nf)
    ensures Total(groups) <= Total(groups0)
    ensures d == DecisionOf(c, groups0)
    ensures d.Record? <==> exists i :: OnlyCovered(c, groups0, i)
    ensures d.Record? ==> OnlyCovered(c, groups0, d.group) &&
                          rules == rules0 + [Rule(labels[d.group], c)] &&
                          groups == Claim(groups0, d.group, c) &&
                          claims == claims0 + [CountCovered(c, groups0[d.group])]
    ensures !d.Record? ==> rules == rules0 && groups == groups0 && claims == claims0
    ensures d.Discard? <==> forall i :: 0 <= i < |groups0| ==> CountCovered(c, groups0[i]) == 0
    ensures d.Carry? <==> exists i, j :: 0 <= i < j < |groups0| &&
                            CountCovered(c, groups0[i]) > 0 && CountCovered(c, groups0[j]) > 0
  {
    WidthsGiveColumns(groups0, nf, c);
    var counts := GroupCounts(c, groups0);
    var shapes := Lengths(groups0);
    groups, rules, claims := groups0, rules0, claims0;
    d := Decide(counts, shapes);
    assert counts == CoveredCounts(c, groups0);
    TwoCoveredIff(counts, c, groups0);
    match d
    case Record(i) =>
      assert OnlyCovered(c, groups0, i);
      RecordKeepsInv(labels, orig, groups0, rules0, claims0, nf, i, c);
      claims := claims0 + [counts[i]];
      groups := Claim(groups0, i, c);
      rules := rules0 + [Rule(labels[i], c)];
    case Discard =>
      assert forall i :: !OnlyCovered(c, groups0, i);
    case Carry =>
      assert forall i :: !OnlyCovered(c, groups0, i) by {
        assert !ExactlyOne(counts);
      }
  }

  /** One degree of the search over its candidates, in order. Rules are only
      ever appended; every new rule and every carried pattern is one of the
      candidates. */
  method SearchDegree(cands: seq<Pattern>, labels: seq<Label>, groups0: seq<seq<Row>>,
                      rules0: seq<Rule>, claims0: seq<nat>, ghost orig: seq<seq<Row>>, nf: nat)
    returns (groups: seq<seq<Row>>, rules: seq<Rule>, claims: seq<nat>, next: seq<Pattern>)
    requires Distinct(labels)
    requires forall c :: c in cands ==> c != {} && WithinFeatures(c, nf)
    requires SearchInv(labels, orig, groups0, rules0, claims0, nf)
    ensures SearchInv(labels, orig, groups, rules, claims, nf)
    ensures Total(groups) <= Total(groups0)
    ensures |rules0| <= |rules| && rules[..|rules0|] == rules0
    ensures forall k :: |rules0| <= k < |rules| ==> rules[k].pattern in cands
    ensures forall p :: p in next ==> p in cands
    ensures DegreeState(groups, rules, claims, next) == Evaluated(DegreeState(groups0, rules0, claims0, []), cands, labels)
  {
    groups, rules, claims, next := groups0, rules0, claims0, [];
    ghost var start := DegreeState(groups0, rules0, claims0, []);
    var k := 0;
    while k < |cands|
      invariant k <= |cands|
      invariant SearchInv(labels, orig, groups, rules, claims, nf)
      invariant Total(groups) <= Total(groups0)
      invariant DegreeState(groups, rules, claims, next) == Evaluated(start, cands[..k], labels)
    {
      var c := cands[k];
      assert c in cands;
      EvaluatedPrefix(start, cands, k, labels);
      groups, rules, claims, next := Advance(c, labels, groups, rules, claims, next, orig, nf);
      k := k + 1;
    }
    assert cands[..k] == cands;
    EvaluatedAppends(start, cands, labels);
  }

  /** One candidate of a degree: it is evaluated, and appended to the next
      frontier when it is carried. */
  method Advance(c: Pattern, labels: seq<Label>, groups0: seq<seq<Row>>, rules0: seq<Rule>,
                 claims0: seq<nat>, next0: seq<Pattern>, ghost orig: seq<seq<Row>>, nf: nat)
    returns (groups: seq<seq<Row>>, rules: seq<Rule>, claims: seq<nat>, next: seq<Pattern>)
    requires Distinct(labels)
    requires c != {} && WithinFeatures(c, nf)
    requires SearchInv(labels, orig, groups0, rules0, claims0, nf)
    ensures SearchInv(labels, orig, groups, rules, claims, nf)
    ensures Total(groups) <= Total(groups0)
    ensures DegreeState(groups, rules, claims, next) == Step(DegreeState(groups0, rules0, claims0, next0), c, labels)
  {
    var d;
    groups, rules, claims, d := Evaluate(c, labels, groups0, rules0, claims0, orig, nf);
    next := next0;
    if d.Carry? {
      next := next + [c];
    }
    StepOfDecision(DegreeState(groups0, rules0, claims0, next0), c, labels, d, groups, rules, claims, next);
  }

  /** `rules` is `rules0` followed by rules whose patterns are candidates. */
  predicate AppendsFrom(rules0: seq<Rule>, rules: seq<Rule>, cands: seq<Pattern>)
  {
    |rules0| <= |rules| && rules[..|rules0|] == rules0
    && forall k :: |rules0| <= k < |rules| ==> rules[k].pattern in cands
  }

  lemma AppendsFromSnoc(rules0: seq<Rule>, rules: seq<Rule>, cands: seq<Pattern>, r: Rule)
    requires AppendsFrom(rules0, rules, cands) && r.pattern in cands
    ensures AppendsFrom(rules0, rules + [r], cands)
  {
    assert (rules + [r])[..|rules0|] == rules[..|rules0|];
  }

  /** Evaluating candidates only appends rules for some of them, and only
      carries some of them to the next frontier. */
  lemma {:induction false} EvaluatedAppends(s: DegreeState, cands: seq<Pattern>, labels: seq<Label>)
    requires |s.groups| == |labels|
    ensures AppendsFrom(s.rules, Evaluated(s, cands, labels).rules, cands)
    ensures forall p :: p in Evaluated(s, cands, labels).next ==> p in s.next || p in cands
  {
    if |cands| > 0 {
      var init, c := cands[..|cands| - 1], cands[|cands| - 1];
      EvaluatedAppends(s, init, labels);
      var u := Evaluated(s, init, labels);
      assert forall p :: p in init ==> p in cands;
      match DecisionOf(c, u.groups)
      case Record(i) =>
        AppendsFromSnoc(s.rules, u.rules, cands, Rule(labels[i], c));
      case Discard =>
      case Carry =>
    }
  }

  /** Grouping of the rows by label, with the search invariant established
      for the fresh groups. */
  method GroupRows(rows: seq<Row>, y: seq<Label>, nf: nat) returns (labels: seq<Label>, groups: seq<seq<Row>>)
    requires |rows| == |y|
    requires forall r :: r in rows ==> |r| == nf
    ensures labels == UniqueStable(y) && Distinct(labels)
    ensures groups == GroupByLabel(rows, y, labels)
    ensures Total(groups) == |rows|
    ensures SearchInv(labels, groups, groups, [], [], nf)
  {
    labels := UniqueStable(y);
    groups := GroupByLabel(rows, y, labels);
    GroupsUnclaimedIntro(labels, groups, groups, []);
  }

  /** One degree `d` of the search: candidates are built from the frontier of
      degree `d - 1` and evaluated in order. Every rule recorded and every
      pattern carried at this degree has exactly `d` literals, and every
      pattern obtained from it by removing one literal is in the frontier. */
  method RunDegree(frontier: seq<Pattern>, d: nat, labels: seq<Label>, groups0: seq<seq<Row>>,
                   rules0: seq<Rule>, claims0: seq<nat>, ghost orig: seq<seq<Row>>, nf: nat)
    returns (groups: seq<seq<Row>>, rules: seq<Rule>, claims: seq<nat>, next: seq<Pattern>)
    requires Distinct(labels) && d >= 1
    requires forall p :: p in frontier ==> |p| == d - 1 && WithinFeatures(p, nf)
    requires SearchInv(labels, orig, groups0, rules0, claims0, nf)
    ensures SearchInv(labels, orig, groups, rules, claims, nf)
    ensures Total(groups) <= Total(groups0)
    ensures |rules0| <= |rules| && rules[..|rules0|] == rules0
    ensures forall k :: |rules0| <= k < |rules| ==>
              |rules[k].pattern| == d && WithinFeatures(rules[k].pattern, nf) && Closed(rules[k].pattern, frontier)
    ensures forall p :: p in next ==> |p| == d && WithinFeatures(p, nf) && Closed(p, frontier)
    ensures DegreeState(groups, rules, claims, next)
              == Evaluated(DegreeState(groups0, rules0, claims0, []), Candidates(frontier, nf), labels)
  {
    var cands := Candidates(frontier, nf);
    CandidateShape(frontier, nf, d - 1);
    groups, rules, claims, next := SearchDegree(cands, labels, groups0, rules0, claims0, orig, nf);
  }

  /** The rows left after each degree: positive before the last entry, and
      never growing from one degree to the next. */
  predicate Shrinking(totals: seq<nat>)
  {
    forall k :: 0 <= k < |totals| - 1 ==> totals[k] > 0 && totals[k] >= totals[k + 1]
  }

  lemma ShrinkingSnoc(totals: seq<nat>, t: nat)
    requires Shrinking(totals)
    requires |totals| > 0 ==> totals[|totals| - 1] > 0 && totals[|totals| - 1] >= t
    ensures Shrinking(totals + [t])
  {
  }

  /** Rules of degree 1 to `d`, recorded in nondecreasing degree and over
      features below `nf`. */
  predicate DegreeOrdered(rules: seq<Rule>, d: nat, nf: nat)
  {
    && (forall k :: 0 <= k < |rules| ==>
          1 <= |rules[k].pattern| <= d && WithinFeatures(rules[k].pattern, nf))
    && (forall k, m :: 0 <= k < m < |rules| ==> |rules[k].pattern| <= |rules[m].pattern|)
  }

  lemma DegreeOrderedExtend(rules0: seq<Rule>, rules: seq<Rule>, d: nat, nf: nat)
    requires d >= 1 && DegreeOrdered(rules0, d - 1, nf)
    requires |rules0| <= |rules| && rules[..|rules0|] == rules0
    requires forall k :: |rules0| <= k < |rules| ==>
               |rules[k].pattern| == d && WithinFeatures(rules[k].pattern, nf)
    ensures DegreeOrdered(rules, d, nf)
  {
    assert forall k :: 0 <= k < |rules0| ==> rules[k] == rules[..|rules0|][k];
  }

  /** The outcome of the degree loop: the final state and the rows left
      after each degree that ran. */
  datatype SearchResult = SearchResult(state: DegreeState, totals: seq<nat>)

  /** The degree loop from degree `d` on, with `s.next` the frontier left by
      degree `d - 1`: each degree evaluates the candidates built from the
      frontier, then stops the search when no rows are left and otherwise
      hands the carried candidates on as the next frontier. */
  function SearchFrom(s: DegreeState, d: nat, max: nat, labels: seq<Label>, nf: nat): (r: SearchResult)
    requires |s.groups| == |labels|
    ensures |r.state.groups| == |labels|
    ensures d > max ==> r == SearchResult(s, [])
    ensures d <= max ==> |r.totals| > 0
    decreases max + 1 - d
  {
    if d > max then SearchResult(s, [])
    else
      var t := Evaluated(DegreeState(s.groups, s.rules, s.claims, []), Candidates(s.next, nf), labels);
      if Total(t.groups) == 0 then SearchResult(t, [0])
      else
        var r := SearchFrom(t, d + 1, max, labels, nf);
        SearchResult(r.state, [Total(t.groups)] + r.totals)
  }

  /** `whole` is what the loop yields when, with the rows left after each
      earlier degree recorded in `totals`, it resumes at degree `d` from `s`. */
  predicate Continues(whole: SearchResult, s: DegreeState, d: nat, max: nat, labels: seq<Label>, nf: nat,
                      totals: seq<nat>)
  {
    |s.groups| == |labels| &&
    var r := SearchFrom(s, d, max, labels, nf);
    whole == SearchResult(r.state, totals + r.totals)
  }

  /** Running degree `d` from `s` to `t` advances the loop by one degree:
      it ends at `t` when no rows are left, and resumes from `t` at degree
      `d + 1` otherwise. */
  lemma SearchFromStep(whole: SearchResult, s: DegreeState, t: DegreeState, d: nat, max: nat,
                       labels: seq<Label>, nf: nat, totals: seq<nat>)
    requires Continues(whole, s, d, max, labels, nf, totals) && d <= max
    requires t == Evaluated(DegreeState(s.groups, s.rules, s.claims, []), Candidates(s.next, nf), labels)
    ensures Total(t.groups) == 0 ==> whole == SearchResult(t, totals + [0])
    ensures Total(t.groups) != 0 ==> Continues(whole, t, d + 1, max, labels, nf, totals + [Total(t.groups)])
  {
    if Total(t.groups) != 0 {
      var r := SearchFrom(t, d + 1, max, labels, nf);
      assert totals + ([Total(t.groups)] + r.totals) == totals + [Total(t.groups)] + r.totals;
    }
  }

  /** The degree loop of `fit`: degrees 1 to `max` run in turn, starting
      from the frontier holding only the empty pattern, and the loop stops
      early once no group has rows left. `totals` records the rows left
      after each degree that ran. */
  method Search(labels: seq<Label>, groups0: seq<seq<Row>>, ghost orig: seq<seq<Row>>, max: nat, nf: nat)
    returns (groups: seq<seq<Row>>, rules: seq<Rule>, claims: seq<nat>, next: seq<Pattern>, totals: seq<nat>)
    requires Distinct(labels)
    requires SearchInv(labels, orig, groups0, [], [], nf)
    ensures SearchInv(labels, orig, groups, rules, claims, nf)
    ensures DegreeOrdered(rules, |totals|, nf)
    ensures Shrinking(totals)
    ensures |totals| <= max
    ensures |totals| < max ==> |totals| > 0 && totals[|totals| - 1] == 0
    ensures |totals| > 0 ==> totals[|totals| - 1] == Total(groups)
    ensures SearchFrom(DegreeState(groups0, [], [], [{}]), 1, max, labels, nf)
              == SearchResult(DegreeState(groups, rules, claims, next), totals)
  {
    groups, rules, claims, totals := groups0, [], [], [];
    ghost var whole := SearchFrom(DegreeState(groups0, [], [], [{}]), 1, max, labels, nf);
    next := [{}];
    var d := 1;
    while d <= max
      invariant 1 <= d <= max + 1 && |totals| == d - 1
      invariant forall p :: p in next ==> |p| == d - 1 && WithinFeatures(p, nf)
      invariant SearchInv(labels, orig, groups, rules, claims, nf)
      invariant DegreeOrdered(rules, d - 1, nf)
      invariant Shrinking(totals)
      invariant |totals| > 0 ==> totals[|totals| - 1] > 0 && totals[|totals| - 1] == Total(groups)
      invariant Continues(whole, DegreeState(groups, rules, claims, next), d, max, labels, nf, totals)
    {
      groups, rules, claims, next, totals := Round(whole, d, max, labels, groups, rules, claims, next, totals, orig, nf);
      if Total(groups) == 0 {
        break;
      }
      d := d + 1;
    }
  }

  /** One round of the degree loop: degree `d` runs, and the rows left after
      it are recorded. */
  method Round(ghost whole: SearchResult, d: nat, max: nat, labels: seq<Label>, groups0: seq<seq<Row>>,
               rules0: seq<Rule>, claims0: seq<nat>, next0: seq<Pattern>, totals0: seq<nat>,
               ghost orig: seq<seq<Row>>, nf: nat)
    returns (groups: seq<seq<Row>>, rules: seq<Rule>, claims: seq<nat>, next: seq<Pattern>, totals: seq<nat>)
    requires Distinct(labels)
    requires 1 <= d <= max && |totals0| == d - 1
    requires forall p :: p in next0 ==> |p| == d - 1 && WithinFeatures(p, nf)
    requires SearchInv(labels, orig, groups0, rules0, claims0, nf)
    requires DegreeOrdered(rules0, d - 1, nf)
    requires Shrinking(totals0)
    requires |totals0| > 0 ==> totals0[|totals0| - 1] > 0 && totals0[|totals0| - 1] == Total(groups0)
    requires Continues(whole, DegreeState(groups0, rules0, claims0, next0), d, max, labels, nf, totals0)
    ensures |totals| == d && totals[d - 1] == Total(groups)
    ensures forall p :: p in next ==> |p| == d && WithinFeatures(p, nf)
    ensures SearchInv(labels, orig, groups, rules, claims, nf)
    ensures DegreeOrdered(rules, d, nf)
    ensures Shrinking(totals)
    ensures Total(groups) == 0 ==> whole == SearchResult(DegreeState(groups, rules, claims, next), totals)
    ensures Total(groups) != 0 ==> Continues(whole, DegreeState(groups, rules, claims, next), d + 1, max, labels, nf, totals)
  {
    groups, rules, claims, next := RunDegree(next0, d, labels, groups0, rules0, claims0, orig, nf);
    DegreeOrderedExtend(rules0, rules, d, nf);
    ShrinkingSnoc(totals0, Total(groups));
    totals := totals0 + [Total(groups)];
    SearchFromStep(whole, DegreeState(groups0, rules0, claims0, next0), DegreeState(groups, rules, claims, next),
                   d, max, labels, nf, totals0);
  }

  /** What `fit` computes: the degree loop over the rows grouped by label,
      up to the normalised degree bound, from the frontier holding only the
      empty pattern. */
  function FitResult(rows: seq<Row>, y: seq<Label>, max: nat, nf: nat): (r: SearchResult)
    requires |rows| == |y|
    ensures |r.state.groups| == |UniqueStable(y)|
  {
    var labels := UniqueStable(y);
    SearchFrom(DegreeState(GroupByLabel(rows, y, labels), [], [], [{}]), 1, NormalizeMax(max, nf), labels, nf)
  }

  /** `RuleGenerator::fit`. Rows are grouped by label; the degree bound is
      normalised; then for degree 1, 2, ... up to the bound, the candidates
      built from the frontier (initially the empty pattern alone) are
      evaluated in order, after which the search stops when no group has rows
      left, and otherwise continues with the carried candidates as the new
      frontier. Besides the updated generator, the result exposes the rows
      left in each group, the number of rows each rule claimed, and the
      number of rows left after each degree that ran. */
  method Fit(gen: RuleGenerator, rows: seq<Row>, y: seq<Label>, nf: nat)
    returns (fitted: RuleGenerator, remaining: seq<seq<Row>>, claims: seq<nat>, totals: seq<nat>)
    requires |rows| == |y|
    requires forall r :: r in rows ==> |r| == nf
    ensures fitted.bin == gen.bin
    ensures gen.max == 0 || gen.max > nf ==> fitted.max == nf
    ensures 0 < gen.max <= nf ==> fitted.max == gen.max
    ensures fitted.labels == UniqueStable(y)
    ensures |remaining| == |fitted.labels| && |claims| == |fitted.rules|
    ensures Total(remaining) + Sum(claims) == |rows|
    ensures forall i :: 0 <= i < |remaining| ==>
              remaining[i] == Unclaimed(Select(rows, y, fitted.labels[i]), PatternsFor(fitted.rules, fitted.labels[i]))
    ensures forall k :: 0 <= k < |fitted.rules| ==> fitted.rules[k].cls in fitted.labels && claims[k] > 0
    ensures NoneCoverRemaining(fitted.rules, remaining)
    ensures forall k :: 0 <= k < |fitted.rules| ==>
              1 <= |fitted.rules[k].pattern| <= |totals| && WithinFeatures(fitted.rules[k].pattern, nf)
    ensures forall k, m :: 0 <= k < m < |fitted.rules| ==>
              |fitted.rules[k].pattern| <= |fitted.rules[m].pattern|
    ensures |totals| <= fitted.max
    ensures |totals| < fitted.max ==> |totals| > 0 && totals[|totals| - 1] == 0
    ensures forall k :: 0 <= k < |totals| - 1 ==> totals[k] > 0 && totals[k] >= totals[k + 1]
    ensures |totals| > 0 ==> totals[|totals| - 1] == Total(remaining)
    ensures var r := FitResult(rows, y, gen.max, nf);
            fitted.rules == r.state.rules && remaining == r.state.groups &&
            claims == r.state.claims && totals == r.totals
  {
    var labels, groups := GroupRows(rows, y, nf);
    ghost var orig := groups;
    var max := NormalizeMax(gen.max, nf);
    var rules, next;
    groups, rules, claims, next, totals := Search(labels, groups, orig, max, nf);
    fitted := gen.(max := max, rules := rules, labels := labels);
    remaining := groups;
    forall i | 0 <= i < |remaining|
      ensures remaining[i] == Unclaimed(Select(rows, y, labels[i]), PatternsFor(rules, labels[i]))
    {
      GroupsUnclaimedAt(labels, orig, groups, rules, i);
    }
  }
}
