/** Cutpoint generation of the binarizer. Labels are counted once; then,
    for every numeric column, the rows are sorted by the column's value and
    scanned once with running per-label counts. A candidate cutpoint is
    emitted where both the label and the value differ from the last
    boundary row and the separation score reaches the threshold. The model
    keeps three properties of the code as written: the candidates are never
    stored, so the cutpoints end empty; the running counts are allocated once
    and carry over from one column to the next; and the running-count slot
    of a row is the first position of its label in the sorted label column,
    which panics once that position reaches the number of distinct labels. */
module Binarize {
  import opened Sums
  import opened Labels
  import opened Separation

  /** The binarizer: one cutpoint series per feature, and the threshold. */
  datatype Binarizer = Binarizer(cutpoints: seq<seq<real>>, threshold: real)

  /** A fresh binarizer has no cutpoints. */
  function New(threshold: real): Binarizer
  {
    Binarizer([], threshold)
  }

  /** The stored cutpoints. */
  function GetCutpoints(b: Binarizer): seq<seq<real>>
  {
    b.cutpoints
  }

  /** A data-frame column: numeric values, or a column of some other type of
      which only the height matters. */
  datatype ColumnData = Numeric(values: seq<real>) | NonNumeric(height: nat)
  datatype Column = Column(name: string, data: ColumnData)

  function Height(c: Column): nat
  {
    match c.data
    case Numeric(vs) => |vs|
    case NonNumeric(h) => h
  }

  datatype FrameError = Duplicate | ShapeMismatch | OutOfBounds

  /** How a call ends: normally, with a data-frame error, or by a panic
      (an index out of bounds). */
  datatype Outcome = Completed | Failed(err: FrameError) | Panicked

  /** The error raised for a column when it is paired with the label column
      (`DataFrame::new` rejects a duplicate name before a height mismatch),
      or by the first `get(0)` on an empty numeric column. */
  function ColumnError(c: Column, yName: string, n: nat): (e: Option<FrameError>)
    ensures e.None? <==> c.name != yName && Height(c) == n && (c.data.Numeric? ==> n > 0)
  {
    if c.name == yName then Some(Duplicate)
    else if Height(c) != n then Some(ShapeMismatch)
    else if c.data.Numeric? && n == 0 then Some(OutOfBounds)
    else None
  }

  /** Number of numeric columns. */
  function NumericCount(x: seq<Column>): nat
  {
    if |x| == 0 then 0
    else NumericCount(x[..|x| - 1]) + (if x[|x| - 1].data.Numeric? then 1 else 0)
  }

  /* ---------------------------------------------------------------- */
  /* Label counts                                                       */
  /* ---------------------------------------------------------------- */

  /** Rows of `ys` whose label is first listed at index `j` of `labels`. */
  function FirstHits(ys: seq<Label>, labels: seq<Label>, j: nat): nat
  {
    if |ys| == 0 then 0
    else FirstHits(ys[..|ys| - 1], labels, j) + (if FirstPos(labels, ys[|ys| - 1]) == j then 1 else 0)
  }

  /** With distinct labels, the rows first matched at index `j` are exactly
      the rows labelled `labels[j]`. */
  lemma {:induction false} FirstHitsDistinct(ys: seq<Label>, labels: seq<Label>, j: nat)
    requires Distinct(labels) && j < |labels|
    ensures FirstHits(ys, labels, j) == CountOf(ys, labels[j])
    decreases |ys|
  {
    if |ys| > 0 {
      var l := ys[|ys| - 1];
      FirstHitsDistinct(ys[..|ys| - 1], labels, j);
      if l == labels[j] {
        assert FirstPos(labels, l) == j;
      }
    }
  }

  /** `counts` holds the first-match counts of the rows before `i`. */
  predicate CountedUpTo(counts: seq<nat>, y: seq<Label>, labels: seq<Label>, i: nat)
    requires i <= |y|
  {
    |counts| == |labels| && forall j :: 0 <= j < |labels| ==> counts[j] == FirstHits(y[..i], labels, j)
  }

  /** Row `i` adds one hit to the index of its first match, and none
      elsewhere. */
  lemma CountedStep(counts: seq<nat>, y: seq<Label>, labels: seq<Label>, i: nat, j: nat)
    requires i < |y| && CountedUpTo(counts, y, labels, i) && j == FirstPos(labels, y[i])
    ensures CountedUpTo(if j < |labels| then counts[j := counts[j] + 1] else counts, y, labels, i + 1)
  {
    assert y[..i + 1][..i] == y[..i];
  }

  /** The linear search for a row's label: the first matching index, or
      `|labels|` when none matches. */
  method FindLabel(labels: seq<Label>, l: Label) returns (j: nat)
    ensures j == FirstPos(labels, l)
  {
    j := 0;
    while j < |labels| && labels[j] != l
      invariant 0 <= j <= |labels|
      invariant forall m :: 0 <= m < j ==> labels[m] != l
    {
      j := j + 1;
    }
    FirstPosUnique(labels, l, j);
  }

  /** The label counts: for every row, the first matching entry of `labels`
      is incremented. */
  method CountLabels(y: seq<Label>, labels: seq<Label>) returns (counts: seq<nat>)
    ensures |counts| == |labels|
    ensures forall j :: 0 <= j < |labels| ==> counts[j] == FirstHits(y, labels, j)
  {
    counts := Zeros(|labels|);
    var i := 0;
    while i < |y|
      invariant 0 <= i <= |y| && CountedUpTo(counts, y, labels, i)
    {
      var j := FindLabel(labels, y[i]);
      CountedStep(counts, y, labels, i, j);
      if j < |labels| {
        counts := counts[j := counts[j] + 1];
      }
      i := i + 1;
    }
    assert y[..i] == y;
  }

  /** The label counts of `generate_cutpoints`: the distinct labels in order
      of first occurrence, and for each the number of rows carrying it, so
      that the counts add up to the number of rows. */
  method LabelCounts(y: seq<Label>) returns (labels: seq<Label>, counts: seq<nat>)
    ensures labels == UniqueStable(y) && |counts| == |labels|
    ensures forall j :: 0 <= j < |labels| ==> counts[j] == CountOf(y, labels[j]) && counts[j] > 0
    ensures Sum(counts) == |y|
  {
    labels := UniqueStable(y);
    counts := CountLabels(y, labels);
    HitsAreCounts(y, labels, counts);
    forall j | 0 <= j < |labels|
      ensures counts[j] > 0
    {
      assert labels[j] in y;
    }
    assert counts == CountsOf(y, labels);
    SumCountsIsLength(y, labels);
  }

  lemma HitsAreCounts(y: seq<Label>, labels: seq<Label>, counts: seq<nat>)
    requires Distinct(labels) && |counts| == |labels|
    requires forall j :: 0 <= j < |labels| ==> counts[j] == FirstHits(y, labels, j)
    ensures forall j :: 0 <= j < |labels| ==> counts[j] == CountOf(y, labels[j])
  {
    forall j | 0 <= j < |labels|
      ensures counts[j] == CountOf(y, labels[j])
    {
      FirstHitsDistinct(y, labels, j);
    }
  }

  /* ---------------------------------------------------------------- */
  /* Sorting a column with its labels                                   */
  /* ---------------------------------------------------------------- */

  /** One row of a (value, label) frame. */
  datatype Entry = Entry(value: real, cls: Label)

  predicate SortedByValue(s: seq<Entry>)
  {
    forall i, j :: 0 <= i < j < |s| ==> s[i].value <= s[j].value
  }

  /** Inserts `e` after the trailing entries whose value is greater. */
  function Insert(s: seq<Entry>, e: Entry): (t: seq<Entry>)
    ensures |t| == |s| + 1
    decreases |s|
  {
    if |s| == 0 || s[|s| - 1].value <= e.value then s + [e]
    else Insert(s[..|s| - 1], e) + [s[|s| - 1]]
  }

  /** Inserting adds exactly `e`. */
  lemma {:induction false} InsertMultiset(s: seq<Entry>, e: Entry)
    ensures multiset(Insert(s, e)) == multiset(s) + multiset{e}
    decreases |s|
  {
    if |s| > 0 && s[|s| - 1].value > e.value {
      var p := s[..|s| - 1];
      assert s == p + [s[|s| - 1]];
      InsertMultiset(p, e);
    }
  }

  /** Into a sorted sequence, every inserted value is at most `e`'s or the
      old last value. */
  lemma {:induction false} InsertBound(s: seq<Entry>, e: Entry)
    requires |s| > 0 && SortedByValue(s)
    ensures forall k :: 0 <= k < |s| + 1 ==>
              Insert(s, e)[k].value <= e.value || Insert(s, e)[k].value <= s[|s| - 1].value
    decreases |s|
  {
    var t := Insert(s, e);
    var last := s[|s| - 1];
    if last.value > e.value {
      var p := s[..|s| - 1];
      if |p| > 0 {
        InsertBound(p, e);
        assert p[|p| - 1].value <= last.value;
      }
      assert t == Insert(p, e) + [last];
    }
  }

  /** Inserting into a sorted sequence keeps it sorted. */
  lemma {:induction false} InsertSorted(s: seq<Entry>, e: Entry)
    requires SortedByValue(s)
    ensures SortedByValue(Insert(s, e))
    decreases |s|
  {
    if |s| == 0 || s[|s| - 1].value <= e.value {
      SortedSnoc(s, e);
    } else {
      var p := s[..|s| - 1];
      var last := s[|s| - 1];
      var t := Insert(p, e);
      InsertSorted(p, e);
      if |p| > 0 {
        InsertBound(p, e);
        assert p[|p| - 1].value <= last.value;
      }
      SortedSnoc(t, last);
    }
  }

  /** Appending an entry no smaller than every value keeps the order. */
  lemma SortedSnoc(t: seq<Entry>, x: Entry)
    requires SortedByValue(t)
    requires forall k :: 0 <= k < |t| ==> t[k].value <= x.value
    ensures SortedByValue(t + [x])
  {
  }

  /** The rows sorted by value; rows with equal values keep their order. */
  function SortByValue(s: seq<Entry>): (t: seq<Entry>)
    ensures |t| == |s| && SortedByValue(t)
    ensures multiset(t) == multiset(s)
  {
    if |s| == 0 then []
    else
      var p := s[..|s| - 1];
      assert s == p + [s[|s| - 1]];
      var t := SortByValue(p);
      InsertSorted(t, s[|s| - 1]);
      InsertMultiset(t, s[|s| - 1]);
      Insert(t, s[|s| - 1])
  }

  /** The two-column frame of a feature column and the labels. */
  function Pairs(values: seq<real>, y: seq<Label>): (s: seq<Entry>)
    requires |values| == |y|
    ensures |s| == |y|
    ensures forall k :: 0 <= k < |y| ==> s[k] == Entry(values[k], y[k])
  {
    seq(|y|, k requires 0 <= k < |y| => Entry(values[k], y[k]))
  }

  /** The frame sorted by the feature column. */
  function SortedPairs(values: seq<real>, y: seq<Label>): (s: seq<Entry>)
    requires |values| == |y|
    ensures |s| == |y| && SortedByValue(s)
    ensures multiset(s) == multiset(Pairs(values, y))
  {
    SortByValue(Pairs(values, y))
  }

  /** Every sorted row is one of the frame's rows. */
  lemma SortedRowFrom(values: seq<real>, y: seq<Label>, k: nat) returns (a: nat)
    requires |values| == |y| && k < |y|
    ensures a < |y| && SortedPairs(values, y)[k] == Entry(values[a], y[a])
  {
    var s := SortedPairs(values, y);
    assert s[k] in multiset(s);
    assert s[k] in Pairs(values, y);
    a :| 0 <= a < |y| && Pairs(values, y)[a] == s[k];
  }

  /* ---------------------------------------------------------------- */
  /* The scan of one sorted column                                      */
  /* ---------------------------------------------------------------- */

  /** The sorted label column. */
  function LabelsOf(pairs: seq<Entry>): (ls: seq<Label>)
    ensures |ls| == |pairs|
    ensures forall k :: 0 <= k < |pairs| ==> ls[k] == pairs[k].cls
  {
    seq(|pairs|, k requires 0 <= k < |pairs| => pairs[k].cls)
  }

  /** The running-count index the code uses for row `k`: the first position
      of its label in the sorted label column. */
  function Slot(pairs: seq<Entry>, k: nat): (j: nat)
    requires k < |pairs|
    ensures j <= k
    ensures pairs[j].cls == pairs[k].cls
  {
    FirstPos(LabelsOf(pairs), pairs[k].cls)
  }

  /** Some row's slot is out of range for `n` running counts. */
  predicate Panics(pairs: seq<Entry>, n: nat)
  {
    exists k :: 0 <= k < |pairs| && Slot(pairs, k) >= n
  }

  /** The slots of rows before `k` are in range for `n` running counts. */
  predicate SlotsFit(pairs: seq<Entry>, k: nat, n: nat)
  {
    forall i :: 0 <= i < k && i < |pairs| ==> Slot(pairs, i) < n
  }

  lemma SlotsFitStep(pairs: seq<Entry>, k: nat, n: nat)
    requires k < |pairs| && SlotsFit(pairs, k, n) && Slot(pairs, k) < n
    ensures SlotsFit(pairs, k + 1, n)
  {
  }

  /** Rows before `n` whose slot is `j`. */
  function Hits(pairs: seq<Entry>, n: nat, j: nat): nat
    requires n <= |pairs|
  {
    if n == 0 then 0 else Hits(pairs, n - 1, j) + (if Slot(pairs, n - 1) == j then 1 else 0)
  }

  /** The running counts when row `n` is reached: each earlier row raised
      its slot's count by one (a row whose slot is out of range is where the
      code panics, and counts nothing here). */
  function CountsBefore(running0: seq<nat>, pairs: seq<Entry>, n: nat): (c: seq<nat>)
    requires n <= |pairs|
    ensures |c| == |running0|
  {
    if n == 0 then running0
    else
      var c := CountsBefore(running0, pairs, n - 1);
      var j := Slot(pairs, n - 1);
      if j < |c| then c[j := c[j] + 1] else c
  }

  /** Each running count is its starting value plus the number of earlier
      rows with that slot. */
  lemma {:induction false} CountsBeforeHits(running0: seq<nat>, pairs: seq<Entry>, n: nat)
    requires n <= |pairs|
    ensures forall j :: 0 <= j < |running0| ==> CountsBefore(running0, pairs, n)[j] == running0[j] + Hits(pairs, n, j)
  {
    if n > 0 {
      CountsBeforeHits(running0, pairs, n - 1);
    }
  }

  /** When every slot is in range, the counts grew by exactly the number of
      rows. */
  lemma {:induction false} CountsBeforeSum(running0: seq<nat>, pairs: seq<Entry>, n: nat)
    requires n <= |pairs| && SlotsFit(pairs, n, |running0|)
    ensures Sum(CountsBefore(running0, pairs, n)) == Sum(running0) + n
  {
    if n > 0 {
      var k := n - 1;
      var j := Slot(pairs, k);
      assert j < |running0| && SlotsFit(pairs, k, |running0|);
      CountsBeforeSum(running0, pairs, k);
      var c := CountsBefore(running0, pairs, k);
      CountsStep(running0, pairs, k);
      SumUpdate(c, j, c[j] + 1);
    }
  }

  /** The boundary row (`prev_value`, `prev_label`) in effect when row `k`
      is reached: row 0 at first, then the last row whose label and value
      both differed from the boundary before it. */
  function Anchor(pairs: seq<Entry>, k: nat): (a: nat)
    requires 1 <= k <= |pairs|
    ensures a < k
    decreases k, 0
  {
    if k == 1 then 0
    else if Crosses(pairs, k - 1) then k - 1
    else Anchor(pairs, k - 1)
  }

  /** Row `k` differs from the boundary in both label and value. */
  predicate Crosses(pairs: seq<Entry>, k: nat)
    requires 1 <= k < |pairs|
    decreases k, 1
  {
    var a := Anchor(pairs, k);
    pairs[k].cls != pairs[a].cls && pairs[k].value != pairs[a].value
  }

  /** A candidate cutpoint and the score that selected it. */
  datatype Candidate = Candidate(value: real, score: real)

  /** Preconditions of a scan: the running counts and the label totals
      line up, and every total is positive. */
  predicate ScanReady(running0: seq<nat>, totals: seq<nat>)
  {
    |running0| == |totals| >= 1 && PositiveTotals(totals)
  }

  /** The candidate emitted by row `k >= 1`, if any: when the row crosses
      the boundary and its score, taken before the row is counted, is a
      number at least `threshold`, the midpoint between it and the boundary
      row. */
  function Emitted(pairs: seq<Entry>, running0: seq<nat>, totals: seq<nat>, threshold: real, k: nat): seq<Candidate>
    requires 1 <= k < |pairs| && ScanReady(running0, totals)
  {
    var sc := Score(CountsBefore(running0, pairs, k), totals);
    if Crosses(pairs, k) && sc.Some? && sc.value >= threshold
    then [Candidate((pairs[k].value + pairs[Anchor(pairs, k)].value) / 2.0, sc.value)]
    else []
  }

  /** The candidates emitted by rows 1 to `n - 1`, in row order. */
  function Found(pairs: seq<Entry>, running0: seq<nat>, totals: seq<nat>, threshold: real, n: nat): seq<Candidate>
    requires 1 <= n <= |pairs| && ScanReady(running0, totals)
  {
    if n == 1 then [] else Found(pairs, running0, totals, threshold, n - 1) + Emitted(pairs, running0, totals, threshold, n - 1)
  }

  /** Counting row `k` raises its slot's running count by one. */
  lemma CountsStep(running0: seq<nat>, pairs: seq<Entry>, k: nat)
    requires k < |pairs| && Slot(pairs, k) < |running0|
    ensures var c := CountsBefore(running0, pairs, k);
            CountsBefore(running0, pairs, k + 1) == c[Slot(pairs, k) := c[Slot(pairs, k)] + 1]
  {
  }

  /** The boundary moves to row `k` exactly when row `k` crosses it. */
  lemma AnchorStep(pairs: seq<Entry>, k: nat)
    requires 1 <= k < |pairs|
    ensures Anchor(pairs, k + 1) == if Crosses(pairs, k) then k else Anchor(pairs, k)
  {
  }

  /** The state of the scan when row `k` is reached: the slots of earlier
      rows were in range, the running counts are `CountsBefore`, the boundary
      is row `Anchor(k)` and the candidates are `Found(k)`. */
  predicate ScanAt(pairs: seq<Entry>, running0: seq<nat>, totals: seq<nat>, threshold: real, k: nat,
                   running: seq<nat>, cps: seq<Candidate>, prevValue: real, prevLabel: Label)
  {
    && 1 <= k <= |pairs| && ScanReady(running0, totals)
    && SlotsFit(pairs, k, |running0|)
    && running == CountsBefore(running0, pairs, k)
    && prevValue == pairs[Anchor(pairs, k)].value && prevLabel == pairs[Anchor(pairs, k)].cls
    && cps == Found(pairs, running0, totals, threshold, k)
  }

  /** The inner loop of `generate_cutpoints` on one sorted column: the
      running counts move on by one per row (slot of row 0 first), the score
      of every later row is taken before the row is counted, and candidates
      are those of `Found`. The scan panics exactly when some row's slot is
      out of range. */
  method ScanColumn(pairs: seq<Entry>, running0: seq<nat>, totals: seq<nat>, threshold: real)
    returns (running: seq<nat>, cps: seq<Candidate>, panicked: bool)
    requires |pairs| > 0 && ScanReady(running0, totals)
    ensures panicked <==> Panics(pairs, |running0|)
    ensures |running| == |running0|
    ensures !panicked ==> running == CountsBefore(running0, pairs, |pairs|)
    ensures !panicked ==> Sum(running) == Sum(running0) + |pairs|
    ensures !panicked ==> cps == Found(pairs, running0, totals, threshold, |pairs|)
  {
    var sortedLabels := LabelsOf(pairs);
    assert Slot(pairs, 0) == 0;
    running := running0[0 := running0[0] + 1];
    var prevValue, prevLabel := pairs[0].value, pairs[0].cls;
    SlotsFitStep(pairs, 0, |running0|);
    cps := [];
    panicked := false;
    var k := 1;
    while k < |pairs|
      invariant ScanAt(pairs, running0, totals, threshold, k, running, cps, prevValue, prevLabel)
      invariant |running| == |running0|
    {
      var slot := FirstPos(sortedLabels, pairs[k].cls);
      assert slot == Slot(pairs, k);
      if slot >= |running| {
        panicked := true;
        return;
      }
      running, cps, prevValue, prevLabel := ScanRow(pairs, running0, totals, threshold, k, slot, running, cps, prevValue, prevLabel);
      k := k + 1;
    }
    CountsBeforeSum(running0, pairs, k);
  }

  /** Row `k >= 1` of the scan: the score is taken from the running counts,
      then the row is counted in its slot, then the candidate step runs. */
  method ScanRow(pairs: seq<Entry>, running0: seq<nat>, totals: seq<nat>, threshold: real, k: nat, slot: nat,
                 running: seq<nat>, cps: seq<Candidate>, prevValue: real, prevLabel: Label)
    returns (running': seq<nat>, cps': seq<Candidate>, prevValue': real, prevLabel': Label)
    requires k < |pairs| && slot == Slot(pairs, k) && slot < |running0|
    requires ScanAt(pairs, running0, totals, threshold, k, running, cps, prevValue, prevLabel)
    ensures ScanAt(pairs, running0, totals, threshold, k + 1, running', cps', prevValue', prevLabel')
    ensures |running'| == |running0|
  {
    SlotsFitStep(pairs, k, |running0|);
    var score := Score(running, totals);
    CountsStep(running0, pairs, k);
    running' := running[slot := running[slot] + 1];
    cps', prevValue', prevLabel' := EmitRow(pairs, running0, totals, threshold, k, score, cps, prevValue, prevLabel);
  }

  /** The candidate step of row `k >= 1`, given the score taken before the
      row was counted: when the row differs from the boundary in both label
      and value, a candidate is pushed if the score is a number at least
      `threshold`, and the row becomes the boundary. */
  method EmitRow(pairs: seq<Entry>, running0: seq<nat>, totals: seq<nat>, threshold: real, k: nat,
                 score: Option<real>, cps: seq<Candidate>, prevValue: real, prevLabel: Label)
    returns (cps': seq<Candidate>, prevValue': real, prevLabel': Label)
    requires 1 <= k < |pairs| && ScanReady(running0, totals)
    requires score == Score(CountsBefore(running0, pairs, k), totals)
    requires prevValue == pairs[Anchor(pairs, k)].value && prevLabel == pairs[Anchor(pairs, k)].cls
    requires cps == Found(pairs, running0, totals, threshold, k)
    ensures prevValue' == pairs[Anchor(pairs, k + 1)].value && prevLabel' == pairs[Anchor(pairs, k + 1)].cls
    ensures cps' == Found(pairs, running0, totals, threshold, k + 1)
  {
    AnchorStep(pairs, k);
    ghost var e := Emitted(pairs, running0, totals, threshold, k);
    assert Found(pairs, running0, totals, threshold, k + 1) == cps + e;
    cps', prevValue', prevLabel' := cps, prevValue, prevLabel;
    if pairs[k].cls != prevLabel && pairs[k].value != prevValue {
      assert Crosses(pairs, k);
      if score.Some? && score.value >= threshold {
        cps' := cps + [Candidate((pairs[k].value + prevValue) / 2.0, score.value)];
      } else {
        assert e == [];
      }
      prevValue', prevLabel' := pairs[k].value, pairs[k].cls;
    } else {
      assert !Crosses(pairs, k) && e == [];
    }
  }

  /* ---------------------------------------------------------------- */
  /* Properties of the scan                                             */
  /* ---------------------------------------------------------------- */

  /** A candidate is the midpoint of two rows `a < b` whose labels and values
      differ, and its score is the score at row `b`, taken before row `b` is
      counted, and reaches the threshold. */
  predicate Justified(pairs: seq<Entry>, running0: seq<nat>, totals: seq<nat>, threshold: real, c: Candidate)
    requires ScanReady(running0, totals)
  {
    exists a, b :: 0 <= a < b < |pairs| && pairs[a].cls != pairs[b].cls && pairs[a].value != pairs[b].value
      && c.value == (pairs[a].value + pairs[b].value) / 2.0
      && Score(CountsBefore(running0, pairs, b), totals).Some?
      && c.score == Score(CountsBefore(running0, pairs, b), totals).value
      && c.score >= threshold
  }

  /** Every candidate of `f` is justified. */
  predicate AllJustified(pairs: seq<Entry>, running0: seq<nat>, totals: seq<nat>, threshold: real, f: seq<Candidate>)
    requires ScanReady(running0, totals)
  {
    forall i :: 0 <= i < |f| ==> Justified(pairs, running0, totals, threshold, f[i])
  }

  /** The candidate of a row is justified by the row and its boundary. */
  lemma EmittedJustified(pairs: seq<Entry>, running0: seq<nat>, totals: seq<nat>, threshold: real, k: nat)
    requires 1 <= k < |pairs| && ScanReady(running0, totals)
    ensures AllJustified(pairs, running0, totals, threshold, Emitted(pairs, running0, totals, threshold, k))
  {
    var e := Emitted(pairs, running0, totals, threshold, k);
    if e != [] {
      var a := Anchor(pairs, k);
      assert Justified(pairs, running0, totals, threshold, e[0]) by {
        assert 0 <= a < k < |pairs|;
      }
    }
  }

  lemma AllJustifiedConcat(pairs: seq<Entry>, running0: seq<nat>, totals: seq<nat>, threshold: real, f: seq<Candidate>, g: seq<Candidate>)
    requires ScanReady(running0, totals)
    requires AllJustified(pairs, running0, totals, threshold, f) && AllJustified(pairs, running0, totals, threshold, g)
    ensures AllJustified(pairs, running0, totals, threshold, f + g)
  {
    forall i | 0 <= i < |f + g|
      ensures Justified(pairs, running0, totals, threshold, (f + g)[i])
    {
      if i >= |f| {
        assert (f + g)[i] == g[i - |f|];
      }
    }
  }

  /** Fewer candidates than rows, each justified. */
  lemma {:induction false} FoundJustified(pairs: seq<Entry>, running0: seq<nat>, totals: seq<nat>, threshold: real, n: nat)
    requires 1 <= n <= |pairs| && ScanReady(running0, totals)
    ensures |Found(pairs, running0, totals, threshold, n)| < n
    ensures AllJustified(pairs, running0, totals, threshold, Found(pairs, running0, totals, threshold, n))
  {
    if n > 1 {
      var k := n - 1;
      FoundJustified(pairs, running0, totals, threshold, k);
      EmittedJustified(pairs, running0, totals, threshold, k);
      AllJustifiedConcat(pairs, running0, totals, threshold,
                         Found(pairs, running0, totals, threshold, k), Emitted(pairs, running0, totals, threshold, k));
    }
  }

  /** Candidate values strictly increase. */
  predicate Increasing(f: seq<Candidate>)
  {
    forall i, j :: 0 <= i < j < |f| ==> f[i].value < f[j].value
  }

  /** Candidate values lie strictly between `lo` and `hi`. */
  predicate Between(f: seq<Candidate>, lo: real, hi: real)
  {
    forall i :: 0 <= i < |f| ==> lo < f[i].value < hi
  }

  /** On a column sorted by value, the candidates strictly increase and lie
      strictly between the smallest value and the boundary row's value. */
  lemma {:induction false} FoundIncreasing(pairs: seq<Entry>, running0: seq<nat>, totals: seq<nat>, threshold: real, n: nat)
    requires 1 <= n <= |pairs| && ScanReady(running0, totals) && SortedByValue(pairs)
    ensures Increasing(Found(pairs, running0, totals, threshold, n))
    ensures Between(Found(pairs, running0, totals, threshold, n), pairs[0].value, pairs[Anchor(pairs, n)].value)
  {
    if n > 1 {
      var k := n - 1;
      FoundIncreasing(pairs, running0, totals, threshold, k);
      AnchorStep(pairs, k);
      var f := Found(pairs, running0, totals, threshold, n);
      var prev := Found(pairs, running0, totals, threshold, k);
      var a := Anchor(pairs, k);
      if Crosses(pairs, k) {
        assert pairs[a].value < pairs[k].value;
        assert pairs[0].value <= pairs[a].value;
        if |f| > |prev| {
          ExtendCandidates(prev, f[|f| - 1], pairs[0].value, pairs[a].value, pairs[k].value);
          assert f == prev + [f[|f| - 1]];
        } else {
          BetweenWiden(prev, pairs[0].value, pairs[a].value, pairs[k].value);
        }
      }
    }
  }

  /** Appending a value above the current range keeps the candidates
      increasing and within the wider range. */
  lemma ExtendCandidates(f: seq<Candidate>, c: Candidate, lo: real, mid: real, hi: real)
    requires Increasing(f) && Between(f, lo, mid)
    requires lo <= mid < c.value < hi
    ensures Increasing(f + [c]) && Between(f + [c], lo, hi)
  {
  }

  lemma BetweenWiden(f: seq<Candidate>, lo: real, mid: real, hi: real)
    requires Between(f, lo, mid) && mid <= hi
    ensures Between(f, lo, hi)
  {
  }

  /** A column whose rows all carry one label yields no candidate. */
  lemma {:induction false} FoundOneLabel(pairs: seq<Entry>, running0: seq<nat>, totals: seq<nat>, threshold: real, n: nat)
    requires 1 <= n <= |pairs| && ScanReady(running0, totals)
    requires forall k :: 0 <= k < |pairs| ==> pairs[k].cls == pairs[0].cls
    ensures Found(pairs, running0, totals, threshold, n) == []
  {
    if n > 1 {
      FoundOneLabel(pairs, running0, totals, threshold, n - 1);
      assert !Crosses(pairs, n - 1);
    }
  }

  /** With no more rows than running counts, no slot is out of range. */
  lemma NoPanicShort(pairs: seq<Entry>, n: nat)
    requires |pairs| <= n
    ensures !Panics(pairs, n)
  {
  }

  /** With a single label in the column, every slot is 0. */
  lemma NoPanicOneLabel(pairs: seq<Entry>, n: nat)
    requires n >= 1
    requires forall k :: 0 <= k < |pairs| ==> pairs[k].cls == pairs[0].cls
    ensures !Panics(pairs, n)
  {
    forall k | 0 <= k < |pairs|
      ensures Slot(pairs, k) == 0
    {
      assert pairs[0].cls == pairs[k].cls;
    }
  }

  /** For a column carrying exactly two labels and two running counts, the
      scan panics exactly when the two smallest rows carry the same label:
      the other label then first appears at position 2 or later. */
  lemma TwoLabelsPanic(pairs: seq<Entry>, l1: Label, l2: Label)
    requires |pairs| >= 2 && l1 != l2
    requires forall k :: 0 <= k < |pairs| ==> pairs[k].cls == l1 || pairs[k].cls == l2
    requires exists k :: 0 <= k < |pairs| && pairs[k].cls == l1
    requires exists k :: 0 <= k < |pairs| && pairs[k].cls == l2
    ensures Panics(pairs, 2) <==> pairs[0].cls == pairs[1].cls
  {
    if pairs[0].cls == pairs[1].cls {
      var other := if pairs[0].cls == l1 then l2 else l1;
      var k :| 0 <= k < |pairs| && pairs[k].cls == other;
      var s := Slot(pairs, k);
      assert pairs[s].cls == other;
      assert s != 0 && s != 1;
    } else {
      forall k | 0 <= k < |pairs|
        ensures Slot(pairs, k) < 2
      {
        if pairs[k].cls != pairs[0].cls {
          assert pairs[k].cls == pairs[1].cls;
        }
      }
    }
  }

  /** Perfectly separated two-class data panics: sorted labels `A, A, B, B`
      give `B` the slot 2 with only two running counts. */
  lemma SeparatedPanics()
    ensures Panics([Entry(1.0, "A"), Entry(2.0, "A"), Entry(3.0, "B"), Entry(4.0, "B")], 2)
  {
    var pairs := [Entry(1.0, "A"), Entry(2.0, "A"), Entry(3.0, "B"), Entry(4.0, "B")];
    assert pairs[0].cls == "A" && pairs[2].cls == "B";
    TwoLabelsPanic(pairs, "A", "B");
  }

  /* ---------------------------------------------------------------- */
  /* generate_cutpoints                                                 */
  /* ---------------------------------------------------------------- */

  /** What the candidates of one numeric column satisfy: every score reaches
      the threshold, the values strictly increase, and every value lies
      strictly between two values of the column. */
  predicate WellPlaced(values: seq<real>, cps: seq<Candidate>, threshold: real)
  {
    && (forall i :: 0 <= i < |cps| ==> cps[i].score >= threshold)
    && (forall i, j :: 0 <= i < j < |cps| ==> cps[i].value < cps[j].value)
    && (forall i :: 0 <= i < |cps| ==>
          exists a, b :: 0 <= a < |values| && 0 <= b < |values| && values[a] < cps[i].value < values[b])
  }

  /** The scan's candidates for a sorted numeric column are well placed. */
  lemma ColumnCandidates(values: seq<real>, y: seq<Label>, running0: seq<nat>, totals: seq<nat>, threshold: real)
    requires |values| == |y| > 0 && ScanReady(running0, totals)
    ensures WellPlaced(values, Found(SortedPairs(values, y), running0, totals, threshold, |y|), threshold)
  {
    var pairs := SortedPairs(values, y);
    var n := |y|;
    var f := Found(pairs, running0, totals, threshold, n);
    FoundJustified(pairs, running0, totals, threshold, n);
    FoundIncreasing(pairs, running0, totals, threshold, n);
    var lo := SortedRowFrom(values, y, 0);
    var hi := SortedRowFrom(values, y, n - 1);
    assert pairs[Anchor(pairs, n)].value <= pairs[n - 1].value;
    BetweenWiden(f, values[lo], pairs[Anchor(pairs, n)].value, values[hi]);
    forall i | 0 <= i < |f|
      ensures f[i].score >= threshold
    {
      assert Justified(pairs, running0, totals, threshold, f[i]);
    }
    forall i | 0 <= i < |f|
      ensures exists a, b :: 0 <= a < |values| && 0 <= b < |values| && values[a] < f[i].value < values[b]
    {
      assert values[lo] < f[i].value < values[hi];
    }
  }

  /** One column of `generate_cutpoints`: it is paired with the label
      column; a numeric column is then sorted and scanned, continuing from
      the running counts left by earlier columns. */
  method ProcessColumn(col: Column, y: seq<Label>, yName: string, totals: seq<nat>,
                       running: seq<nat>, threshold: real)
    returns (status: Outcome, running': seq<nat>, cps: seq<Candidate>)
    requires |running| == |totals| && PositiveTotals(totals)
    requires |y| > 0 ==> |totals| >= 1
    ensures status.Failed? <==> ColumnError(col, yName, |y|).Some?
    ensures status.Failed? ==> ColumnError(col, yName, |y|) == Some(status.err)
    ensures status.Panicked? <==>
              ColumnError(col, yName, |y|).None? && col.data.Numeric?
              && Panics(SortedPairs(col.data.values, y), |running|)
    ensures |running'| == |running|
    ensures status.Completed? ==> Sum(running') == Sum(running) + (if col.data.Numeric? then |y| else 0)
    ensures status.Completed? && col.data.NonNumeric? ==> cps == []
    ensures status.Completed? && col.data.Numeric? ==> WellPlaced(col.data.values, cps, threshold)
    ensures status.Failed? || (status.Completed? && col.data.NonNumeric?) ==> running' == running
    ensures status.Completed? && col.data.Numeric? ==>
              running' == CountsBefore(running, SortedPairs(col.data.values, y), |y|) &&
              cps == Found(SortedPairs(col.data.values, y), running, totals, threshold, |y|)
  {
    running', cps := running, [];
    var err := ColumnError(col, yName, |y|);
    if err.Some? {
      return Failed(err.value), running', cps;
    }
    status := Completed;
    if col.data.Numeric? {
      var values := col.data.values;
      var pairs := SortedPairs(values, y);
      var panicked;
      running', cps, panicked := ScanColumn(pairs, running, totals, threshold);
      if panicked {
        status := Panicked;
      } else {
        ColumnCandidates(values, y, running, totals, threshold);
      }
    }
  }

  /** A column that neither fails nor panics. */
  predicate ColumnFine(col: Column, y: seq<Label>, yName: string, n: nat)
  {
    ColumnError(col, yName, |y|).None? && (col.data.Numeric? ==> !Panics(SortedPairs(col.data.values, y), n))
  }

  /** The candidates found for each processed column: none for a
      non-numeric column, well placed ones for a numeric column. */
  predicate FoundFits(x: seq<Column>, found: seq<seq<Candidate>>, threshold: real)
  {
    forall i :: 0 <= i < |found| && i < |x| ==>
      (x[i].data.NonNumeric? ==> found[i] == [])
      && (x[i].data.Numeric? ==> WellPlaced(x[i].data.values, found[i], threshold))
  }

  lemma FoundFitsSnoc(x: seq<Column>, found: seq<seq<Candidate>>, threshold: real, cps: seq<Candidate>)
    requires |found| < |x| && FoundFits(x, found, threshold)
    requires x[|found|].data.NonNumeric? ==> cps == []
    requires x[|found|].data.Numeric? ==> WellPlaced(x[|found|].data.values, cps, threshold)
    ensures FoundFits(x, found + [cps], threshold)
  {
  }

  /** The running counts when column `i` is reached: they start at zero,
      and every earlier numeric column raised the count of each of its rows'
      slots by one, so later columns are scored from counts that include the
      earlier ones. */
  function RunningBefore(x: seq<Column>, y: seq<Label>, n: nat, i: nat): (r: seq<nat>)
    requires i <= |x|
    ensures |r| == n
  {
    if i == 0 then Zeros(n)
    else
      var r := RunningBefore(x, y, n, i - 1);
      var col := x[i - 1];
      if col.data.Numeric? && |col.data.values| == |y| then CountsBefore(r, SortedPairs(col.data.values, y), |y|)
      else r
  }

  /** Each numeric column raises the count of slot `j` by the number of its
      rows with that slot; other columns leave it as it is. */
  lemma RunningBeforeStep(x: seq<Column>, y: seq<Label>, n: nat, i: nat, j: nat)
    requires i < |x| && j < n
    ensures RunningBefore(x, y, n, i + 1)[j] == RunningBefore(x, y, n, i)[j] +
              (if x[i].data.Numeric? && |x[i].data.values| == |y| then Hits(SortedPairs(x[i].data.values, y), |y|, j) else 0)
  {
    if x[i].data.Numeric? && |x[i].data.values| == |y| {
      CountsBeforeHits(RunningBefore(x, y, n, i), SortedPairs(x[i].data.values, y), |y|);
    }
  }

  lemma RunningBeforeStepGrows(x: seq<Column>, y: seq<Label>, n: nat, i: nat, j: nat)
    requires i < |x| && j < n
    ensures RunningBefore(x, y, n, i)[j] <= RunningBefore(x, y, n, i + 1)[j]
  {
    RunningBeforeStep(x, y, n, i, j);
  }

  /** Across columns the running counts only grow, slot by slot. */
  lemma RunningBeforeGrows(x: seq<Column>, y: seq<Label>, n: nat, i: nat, k: nat, j: nat)
    requires i <= k <= |x| && j < n
    ensures RunningBefore(x, y, n, i)[j] <= RunningBefore(x, y, n, k)[j]
    decreases k - i
  {
    if i < k {
      RunningBeforeStepGrows(x, y, n, i, j);
      RunningBeforeGrows(x, y, n, i + 1, k, j);
    }
  }

  /** A first numeric column that does not panic leaves one count per row
      for the columns after it. */
  lemma FirstColumnCarries(x: seq<Column>, y: seq<Label>, n: nat)
    requires |x| >= 1 && x[0].data.Numeric? && |x[0].data.values| == |y|
    requires !Panics(SortedPairs(x[0].data.values, y), n)
    ensures Sum(RunningBefore(x, y, n, 1)) == |y|
  {
    var pairs := SortedPairs(x[0].data.values, y);
    assert SlotsFit(pairs, |y|, n);
    CountsBeforeSum(Zeros(n), pairs, |y|);
  }

  /** The candidates of each processed numeric column are those its scan
      finds when it starts from the running counts the earlier columns left. */
  predicate FoundFromRunning(x: seq<Column>, y: seq<Label>, totals: seq<nat>, threshold: real,
                             found: seq<seq<Candidate>>)
  {
    forall i :: 0 <= i < |found| && i < |x| && x[i].data.Numeric? && |x[i].data.values| == |y| > 0
                && |totals| >= 1 && PositiveTotals(totals) ==>
      found[i] == Found(SortedPairs(x[i].data.values, y), RunningBefore(x, y, |totals|, i), totals, threshold, |y|)
  }

  lemma FoundFromRunningSnoc(x: seq<Column>, y: seq<Label>, totals: seq<nat>, threshold: real,
                             found: seq<seq<Candidate>>, cps: seq<Candidate>)
    requires |found| < |x| && FoundFromRunning(x, y, totals, threshold, found)
    requires x[|found|].data.Numeric? && |x[|found|].data.values| == |y| > 0 && |totals| >= 1 && PositiveTotals(totals) ==>
               cps == Found(SortedPairs(x[|found|].data.values, y), RunningBefore(x, y, |totals|, |found|),
                            totals, threshold, |y|)
    ensures FoundFromRunning(x, y, totals, threshold, found + [cps])
  {
    var f := found + [cps];
    forall i | 0 <= i < |f| && i < |x| && x[i].data.Numeric? && |x[i].data.values| == |y| > 0
               && |totals| >= 1 && PositiveTotals(totals)
      ensures f[i] == Found(SortedPairs(x[i].data.values, y), RunningBefore(x, y, |totals|, i), totals, threshold, |y|)
    {
      if i < |found| {
        assert f[i] == found[i];
      }
    }
  }

  /** Index of the first column that fails or panics, or the number of
      columns when none does. */
  function FirstUnfit(x: seq<Column>, y: seq<Label>, yName: string, n: nat): (i: nat)
    ensures i <= |x|
    ensures forall j :: 0 <= j < i ==> ColumnFine(x[j], y, yName, n)
    ensures i < |x| ==> !ColumnFine(x[i], y, yName, n)
  {
    if |x| == 0 || !ColumnFine(x[0], y, yName, n) then 0
    else
      var i := 1 + FirstUnfit(x[1..], y, yName, n);
      assert forall j :: 1 <= j < |x| ==> x[j] == x[1..][j - 1];
      i
  }

  /** `outcome` is how column `col` stops the loop: with the column's own
      error, or, for a numeric column without one, by the panic of its scan. */
  predicate StoppedAt(col: Column, y: seq<Label>, yName: string, n: nat, outcome: Outcome)
  {
    match outcome
    case Completed => false
    case Failed(e) => ColumnError(col, yName, |y|) == Some(e)
    case Panicked =>
      ColumnError(col, yName, |y|).None? && col.data.Numeric? && Panics(SortedPairs(col.data.values, y), n)
  }

  /** Rows of the numeric columns up to column `i`, for columns of height `h`. */
  lemma NumericCountSnoc(x: seq<Column>, i: nat, h: nat)
    requires i < |x|
    ensures NumericCount(x[..i + 1]) * h == NumericCount(x[..i]) * h + (if x[i].data.Numeric? then h else 0)
  {
    assert x[..i + 1][..i] == x[..i];
    MulSucc(NumericCount(x[..i]), h);
  }

  lemma MulSucc(c: nat, n: nat)
    ensures (c + 1) * n == c * n + n
  {
  }

  /** The per-column loop of `generate_cutpoints`, with the label totals
      computed and the running counts starting from zero. It stops at the
      first column that fails or panics. */
  method ColumnLoop(x: seq<Column>, y: seq<Label>, yName: string, totals: seq<nat>, threshold: real)
    returns (outcome: Outcome, found: seq<seq<Candidate>>, running: seq<nat>)
    requires PositiveTotals(totals) && (|y| > 0 ==> |totals| >= 1)
    ensures |found| == FirstUnfit(x, y, yName, |totals|) && |running| == |totals|
    ensures outcome.Completed? <==> |found| == |x|
    ensures !outcome.Completed? ==> StoppedAt(x[|found|], y, yName, |totals|, outcome)
    ensures outcome.Completed? ==> Sum(running) == NumericCount(x) * |y|
    ensures FoundFits(x, found, threshold)
    ensures FoundFromRunning(x, y, totals, threshold, found)
    ensures outcome.Completed? || outcome.Failed? ==> running == RunningBefore(x, y, |totals|, |found|)
  {
    running := Zeros(|totals|);
    found := [];
    outcome := Completed;
    var idx := 0;
    while idx < |x|
      invariant 0 <= idx <= |x| && |found| == idx && |running| == |totals|
      invariant forall i :: 0 <= i < idx ==> ColumnFine(x[i], y, yName, |totals|)
      invariant Sum(running) == NumericCount(x[..idx]) * |y|
      invariant FoundFits(x, found, threshold)
      invariant FoundFromRunning(x, y, totals, threshold, found)
      invariant running == RunningBefore(x, y, |totals|, idx)
    {
      var status, cps;
      status, running, cps := ProcessColumn(x[idx], y, yName, totals, running, threshold);
      if !status.Completed? {
        assert StoppedAt(x[idx], y, yName, |totals|, status);
        outcome := status;
        return;
      }
      NumericCountSnoc(x, idx, |y|);
      assert ColumnFine(x[idx], y, yName, |totals|);
      FoundFitsSnoc(x, found, threshold, cps);
      FoundFromRunningSnoc(x, y, totals, threshold, found, cps);
      found := found + [cps];
      idx := idx + 1;
    }
    assert x[..idx] == x;
  }

  /** `Binarizer::generate_cutpoints` with an explicit `threshold`. The
      cutpoints are reset and stay empty whatever the outcome. Besides the
      outcome, the result exposes the candidates computed for each column
      that was processed and the running counts at the end. */
  method GenerateCutpoints(b: Binarizer, x: seq<Column>, y: seq<Label>, yName: string, threshold: real)
    returns (b': Binarizer, outcome: Outcome, found: seq<seq<Candidate>>, running: seq<nat>)
    ensures GetCutpoints(b') == [] && b'.threshold == b.threshold
    ensures |running| == |UniqueStable(y)|
    ensures |found| == FirstUnfit(x, y, yName, |running|)
    ensures outcome.Completed? <==> |found| == |x|
    ensures !outcome.Completed? ==> StoppedAt(x[|found|], y, yName, |running|, outcome)
    ensures outcome.Completed? ==> Sum(running) == NumericCount(x) * |y|
    ensures FoundFits(x, found, threshold)
    ensures FoundFromRunning(x, y, CountsOf(y, UniqueStable(y)), threshold, found)
    ensures outcome.Completed? || outcome.Failed? ==> running == RunningBefore(x, y, |running|, |found|)
  {
    b' := b.(cutpoints := []);
    var labels, counts := LabelCounts(y);
    assert counts == CountsOf(y, labels);
    outcome, found, running := ColumnLoop(x, y, yName, counts, threshold);
  }
}
