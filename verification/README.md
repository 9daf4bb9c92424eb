# lad_rs binarization core in Dafny

This project models the two algorithms at the heart of `lad_rs`, a Rust
library for Logical Analysis of Data.

**Cutpoint generation.** `Binarizer::generate_cutpoints` counts the rows of
each class label once. Then, for every numeric feature column, it:

- sorts the rows by the column's value;
- scans them with running per-label counts;
- emits a candidate cutpoint, the midpoint between a row and the last
  boundary row, where both the label and the value change and the
  separation `score` reaches the threshold.

**Prime-rule search.** `RuleGenerator::fit` splits the boolean rows into one
group per distinct label, then runs a level-wise search over conjunctions of
literals of degree 1, 2, … up to a normalised maximum.

- **Candidates.** At each degree, every pattern of the previous frontier is
  extended by one literal. The extension is kept only when every sub-pattern
  with one literal removed is in the frontier.
- **Decision.** Each kept candidate is counted against every group:
  - when exactly one group has covered rows, the candidate is *recorded* as
    a rule for that group's label, and those rows are claimed out of the
    group;
  - when no group has covered rows, it is *discarded*;
  - otherwise it is *carried* into the next frontier.
- **Stop.** The search stops early once no group has rows left.

The model keeps three behaviours of the code exactly as written:

1. **Cutpoints end empty.** The candidates found per column are never stored
   on the binarizer. `generate_cutpoints` resets `cutpoints` to an empty
   vector and leaves it so (binarize.rs:50, 70, 82-87).
2. **Running counts carry over.** The running counts are allocated once per
   call and are never reset between columns. Scores for later columns are
   computed from counts that already include earlier columns (binarize.rs:54).
3. **Slots can panic.** The running-count slot of a row is the first
   position of its label in the *sorted label column*, not in the list of
   distinct labels. It is therefore within range only while that position is
   smaller than the number of labels. Otherwise the call panics (binarize.rs:72, 75, 78).
   - `Binarize.TwoLabelsPanic` shows that two-label data panics exactly when
     the two smallest rows share a label.
   - `Binarize.SeparatedPanics` shows that perfectly separated data such as
     `A, A, B, B` panics.

Modules, one per file:

| File | Module | Contents |
|---|---|---|
| `sums.dfy` | `Sums` | sums of natural-number sequences |
| `labels.dfy` | `Labels` | `unique_stable`, first positions, per-label counts and row selection |
| `patterns.dfy` | `Patterns` | literals, patterns, coverage masks, claiming of covered rows |
| `candidates.dfy` | `Frontier` | candidate generation for one degree |
| `rule_generation.dfy` | `RuleGeneration` | decisions, the degree search and `fit` |
| `score.dfy` | `Separation` | the separation score over reals |
| `binarize.dfy` | `Binarize` | label counting, sorting, the column scan and `generate_cutpoints` |

A Polars data frame is represented as follows:

- **Feature columns** are named by index, and a row is a `seq<bool>`.
- **For `generate_cutpoints`,** each column is a `Column` with a name and
  either numeric values or a non-numeric height.
- **The label series** is a `seq<string>`.
- **Failures** appear in the result:
  - Polars errors as `Failed(err)`;
  - index-out-of-bounds panics as `Panicked`.

## Model

| member | source | states |
|---|---|---|
| Labels.UniqueStable | src/binarization/binarize.rs:52 | the distinct labels: no repeats, exactly the labels occurring in `y`, first label first |
| Labels.UniqueStableOrder | src/binarization/rule_generation.rs:39-40 | the distinct labels appear in order of their first occurrence in `y` |
| Labels.FirstPos | src/binarization/binarize.rs:75 | `position(...)`: the index of the first occurrence, or the length when absent |
| Labels.Select | src/binarization/rule_generation.rs:46-58 | filtering rows by a label keeps as many rows as the label occurs, all drawn from the input |
| Labels.SelectMembers | src/binarization/rule_generation.rs:48-49 | a row is kept exactly when it sits at a position carrying the label |
| Labels.SumCountsIsLength | src/binarization/binarize.rs:53-62 | the per-label counts over the distinct labels sum to the number of rows |
| Patterns.CoverageMask | src/binarization/rule_generation.rs:94-112 | the mask has one entry per row, true exactly when every literal of the pattern holds on that row |
| Patterns.CountTrueOfMask | src/binarization/rule_generation.rs:115-118 | the height of the mask-filtered group equals the number of its rows the pattern covers |
| Patterns.CountCovered | src/binarization/rule_generation.rs:117-119 | the covered count is at most the group size, and it is zero exactly when no row of the group is covered |
| Patterns.Uncovered | src/binarization/rule_generation.rs:129-133 | filtering by the negated mask keeps exactly the uncovered rows; kept plus covered equals the group size |
| Patterns.UnclaimedMeaning | src/binarization/rule_generation.rs:129-135 | after a sequence of claims, a row remains exactly when it was in the group and no claiming pattern covers it |
| Frontier.CandidateShape | src/binarization/rule_generation.rs:75-93 | from a frontier of `k`-literal patterns, every candidate has `k + 1` literals over existing features and all its one-literal-removed sub-patterns in the frontier |
| Frontier.CandidateComplete | src/binarization/rule_generation.rs:75-93 | every non-empty pattern over existing features whose one-literal-removed sub-patterns are all in the frontier is generated |
| RuleGeneration.NormalizeMax | src/binarization/rule_generation.rs:67-69 | a maximum of 0, or one above the feature count, becomes the feature count; otherwise it is kept |
| RuleGeneration.GroupByLabel | src/binarization/rule_generation.rs:46-58 | one group per distinct label, group `i` being exactly the rows labelled `labels[i]` in input order, as large as that label's count; the groups together hold every row |
| RuleGeneration.Claim | src/binarization/rule_generation.rs:129-133 | only the chosen group changes; it loses exactly its covered rows, and the total shrinks by the covered count |
| RuleGeneration.Decide | src/binarization/rule_generation.rs:119-142 | the candidate is recorded exactly when one group has covered rows (and for that group), discarded exactly when none has, and carried exactly when two have |
| RuleGeneration.GroupCounts | src/binarization/rule_generation.rs:113-118 | one count per group, each the number of that group's rows the candidate covers |
| RuleGeneration.RecordKeepsInv | src/binarization/rule_generation.rs:129-135 | recording a rule keeps the search invariant: remaining rows are the unclaimed ones, claims are positive, rows are conserved and no rule covers a remaining row |
| RuleGeneration.Evaluate | src/binarization/rule_generation.rs:113-142 | one candidate: recorded, with its group claimed, exactly when only one group has covered rows; discarded or carried otherwise, leaving groups and rules unchanged; the decision is the one `DecisionOf` defines; the search invariant holds |
| RuleGeneration.Advance | src/binarization/rule_generation.rs:113-142 | one candidate moves the state exactly as `Step` defines: a recorded candidate appends its rule and claims, a carried one is appended to the next frontier, a discarded one changes nothing |
| RuleGeneration.SearchDegree | src/binarization/rule_generation.rs:74-142 | over one degree's candidates in order, the resulting groups, rules, claims and next frontier are those of `Evaluated`: the recorded candidates' rules appended in candidate order and the carried candidates forming the next frontier in order; rules are only appended and the invariant is kept |
| RuleGeneration.EvaluatedAppends | src/binarization/rule_generation.rs:128-140 | evaluating candidates keeps the earlier rules as a prefix, and every appended rule and every carried pattern is one of the candidates |
| RuleGeneration.RunDegree | src/binarization/rule_generation.rs:74-145 | degree `d` evaluates exactly the candidates built from the frontier, in order; the rules recorded and patterns carried have exactly `d` literals, and all their one-literal-removed sub-patterns are in the frontier |
| RuleGeneration.SearchFromStep | src/binarization/rule_generation.rs:71-153 | one degree of the loop: with no rows left the loop ends at the new state, otherwise it resumes at the next degree with the carried candidates as frontier |
| RuleGeneration.Search | src/binarization/rule_generation.rs:64-156 | the degree loop yields the state and per-degree totals of `SearchFrom` from the empty-pattern frontier, each degree's frontier being the previous degree's carried candidates; it runs at most the maximum number of degrees, the rows left never increase and are positive before the last degree, an early stop means none are left, and rules come in nondecreasing degree |
| RuleGeneration.Round | src/binarization/rule_generation.rs:71-153 | one round of the loop records the rows left after degree `d` and keeps the loop's invariants, including how the rest of the loop continues |
| RuleGeneration.Fit | src/binarization/rule_generation.rs:33-159 | the rules, remaining groups, claims and totals are those of `FitResult` (the degree loop over the label groups up to the normalised bound); labels are the distinct labels in order of appearance; rows are conserved between claims and remaining groups; each remaining group is its label's rows minus those covered by that label's rules; no rule covers a remaining row; every rule claimed rows; degrees are bounded and ordered |
| Separation.Score | src/binarization/binarize.rs:100-118 | the score is not a number exactly when there is a single label |
| Separation.RateScoreClosed | src/binarization/binarize.rs:101-117 | the code's score equals `S - (S * S - Q) / (n - 1)`, with `S` the sum and `Q` the sum of squares of the rates |
| Separation.ScoreBounds | src/binarization/binarize.rs:100-118 | when no running count exceeds its total, the score lies between 0 and the sum of the rates |
| Separation.ScoreEqualRates | src/binarization/binarize.rs:100-118 | when every label has the same rate `q`, the score is `n * q * (1 - q)` |
| Separation.ScoreTwoLabels | src/binarization/binarize.rs:100-118 | for two labels the score is `r1 + r2 - 2 * r1 * r2` |
| Separation.ScoreSeparated | src/binarization/binarize.rs:100-118 | a split holding all of one label and none of the other scores 1 |
| Binarize.ColumnError | src/binarization/binarize.rs:65-74 | a column is rejected exactly when its name clashes with the label column, its height differs, or it is numeric and empty |
| Binarize.FindLabel | src/binarization/binarize.rs:56-61 | the inner search stops at the first distinct label equal to the row's label |
| Binarize.CountLabels | src/binarization/binarize.rs:55-62 | each count is the number of rows whose label first matches that distinct label |
| Binarize.LabelCounts | src/binarization/binarize.rs:52-62 | the totals are the distinct labels' occurrence counts, all positive, summing to the number of rows |
| Binarize.HitsAreCounts | src/binarization/binarize.rs:55-62 | over distinct labels, first-match counting counts every occurrence |
| Binarize.SortByValue | src/binarization/binarize.rs:69 | the sort is a permutation of the rows, ordered by value |
| Binarize.InsertSorted | src/binarization/binarize.rs:69 | inserting into a sorted sequence keeps it sorted |
| Binarize.SortedRowFrom | src/binarization/binarize.rs:69-72 | every sorted (value, label) pair is a row of the original frame |
| Binarize.Slot | src/binarization/binarize.rs:72-78 | a row's slot is at or before the row and carries the same label |
| Binarize.CountsBeforeHits | src/binarization/binarize.rs:75-78 | each running count is its starting value plus the number of rows so far with that slot |
| Binarize.CountsBeforeSum | src/binarization/binarize.rs:75-78 | when no slot is out of range, the running counts grow by exactly one per row |
| Binarize.EmitRow | src/binarization/binarize.rs:79-91 | a row adds a candidate exactly when it crosses the boundary and its score is a number at least the threshold; the candidate is the midpoint of the row and the boundary |
| Binarize.ScanRow | src/binarization/binarize.rs:76-91 | one row of the scan: the score uses the counts before the row, then the row's slot count rises by one |
| Binarize.ScanColumn | src/binarization/binarize.rs:70-93 | the scan panics exactly when some row's slot is out of range; otherwise the running counts grow by the column's rows and the candidates are those the rows emit |
| Binarize.FoundJustified | src/binarization/binarize.rs:79-88 | there are fewer candidates than rows, and each is the midpoint of two rows that differ in label and value and whose score reaches the threshold |
| Binarize.FoundIncreasing | src/binarization/binarize.rs:82-90 | on a sorted column the candidate values strictly increase and lie strictly between the smallest value and the boundary value |
| Binarize.FoundOneLabel | src/binarization/binarize.rs:79 | a column whose rows all carry one label yields no candidate |
| Binarize.NoPanicShort | src/binarization/binarize.rs:75-78 | a column no longer than the number of labels never panics |
| Binarize.NoPanicOneLabel | src/binarization/binarize.rs:75-78 | a single-label column never panics |
| Binarize.TwoLabelsPanic | src/binarization/binarize.rs:72-78 | with two labels, the scan panics exactly when the two smallest rows share a label |
| Binarize.SeparatedPanics | src/binarization/binarize.rs:72-78 | the sorted labels `A, A, B, B` give `B` slot 2, out of range for two counts |
| Binarize.ColumnCandidates | src/binarization/binarize.rs:69-93 | every candidate of a numeric column scores at least the threshold and lies strictly between two of the column's values |
| Binarize.ProcessColumn | src/binarization/binarize.rs:65-93 | one column fails exactly with its column error (leaving the counts), panics exactly when a slot is out of range, leaves the counts of a non-numeric column unchanged; a completed numeric column continues the scan from the counts it was given: its counts become those counts raised by the column's rows and its candidates are exactly those the scan finds from them, all well placed |
| Binarize.RunningBeforeStep | src/binarization/binarize.rs:75-78 | across columns, a numeric column raises each slot's count by the number of its rows with that slot, and any other column leaves it as it is |
| Binarize.RunningBeforeGrows | src/binarization/binarize.rs:54-78 | the running counts are never reset between columns: from one column to any later one, every slot's count only grows |
| Binarize.FirstColumnCarries | src/binarization/binarize.rs:54-78 | a first numeric column that does not panic hands one count per row to the columns after it |
| Binarize.ColumnLoop | src/binarization/binarize.rs:54-96 | columns run in order: every column before the stop is fine, the call completes exactly when all are, and otherwise the stop is at the first column that fails or panics, with that column's own error or panic; each processed numeric column's candidates are those its scan finds from the counts `RunningBefore` left by the earlier columns, and the final counts are `RunningBefore` at the stop (unless a panic cut the scan short); on completion the counts sum to the numeric columns' rows |
| Binarize.FirstUnfit | src/binarization/binarize.rs:64-96 | the index of the first column that fails or panics: every earlier column is fine and the one at the index is not |
| Binarize.GenerateCutpoints | src/binarization/binarize.rs:43-98 | the stored cutpoints end empty and the threshold is kept; the call stops at the first failing or panicking column with that column's outcome, or completes when there is none, over the distinct labels of `y` and their counts; each numeric column's candidates are scanned from the counts the earlier columns left |

## Left out

- Python bindings are left out: the PyO3 wrappers `generate_cutpoints_py` (binarize.rs:28-34) and the mapping of a Polars error to a Python `RuntimeError`. The model returns the outcome directly.
- `test_function` (binarize.rs:36-39) and the module registration in `lib.rs` are not part of this model; they are scaffolding, not algorithm.
- `Binarize.New`, `Binarize.GetCutpoints`, `RuleGeneration.New` and `RuleGeneration.GetRules` are plain constructors and accessors without contracts of their own. `GetCutpoints` is used in the contract of `GenerateCutpoints`.
- RuleGeneration.Fit: requires `|rows| == |y|`. The source skips a label whose `filter` call fails (rule_generation.rs:49-55). That error only arises from a mask whose length differs from the frame's, so the error path is not modelled.
- Binarize.SortByValue: Polars' default sort is not guaranteed stable. The model uses a stable insertion sort. Properties of the scan that depend on the order among equal values hold for this one order only.
- Separation.Score: computed over exact reals, not IEEE `f64`. `None` stands for the not-a-number of `0 / 0` with a single label; rounding is not modelled. The score formula is the one in the code, `S - sum_i r_i * (S - r_i) / (n - 1)`, not a mean pairwise difference of rates.
- Column values (`Binarize.ColumnData`): numeric column values are exact `real`s, with no nulls and no NaN, and the midpoint `mean` of binarize.rs:83-85 is exact rather than an `f64` rounding. Polars' default sort puts nulls first and NaN after every number; such values would reorder the sorted label column, change the slots at binarize.rs:75 and 78, and so can change whether the call panics. The model promises nothing for such columns.
- Separation.ScoreBounds: holds only when no running count exceeds its label total, and that premise can fail already in the first numeric column. With `y = A, B, B, B` the totals are `[1, 3]`; if sorting the column by value gives the labels `B, A, B, B`, the slot of `B` is 0 (the counter of `A`), which reaches 2, above its total 1, at the third row without any panic. Later columns also start from counts that already include earlier numeric columns.
- Binarize.ColumnError: assumes that `DataFrame::new` reports a duplicate column name before a height mismatch. A `dtype` that is not numeric is represented by its height only.
- Integer widths are not modelled: `u128` counts and `usize` sizes are unbounded naturals. No realistic input reaches their limits.
- The `cast(&DataType::Boolean)` of feature values (rule_generation.rs:103) is not modelled. Rows are already boolean; a value that does not cast compares unequal in the source, and this case is left out.
- Labels are strings compared by equality. `format!("{x}")` (rule_generation.rs:40) is taken as the identity on the label's text.
- `println!`/`eprintln!` logging is not modelled.
