# physio-data-pipeline, modelled in Dafny

This project models the analysis core of `physio-data-pipeline`. The pipeline turns breath-by-breath gas-exchange data (VO2 and VCO2 in mL/min, body mass, treadmill speed, a phase label and a time stamp per row) into one summary row per subject. It then describes the cohort in a few facts.

- **Pipeline** (`pipeline.dfy`, from `src/pipeline.py`) covers four steps:
  - Brockway (1987) metabolic power in W.
  - The two power columns (W and W/kg) added to every row.
  - The trailing window: the rows whose time is at least the latest time minus n seconds.
  - The per-subject summary: the mean W/kg over the last 120 s of the `"rest"` rows and of the `"run"` rows, their difference (net power), and the mean run speed in that window.
- **PipelineCore** (`pipeline_core.dfy`, from `src/pipeline_core.py`) covers two steps:
  - The cohort table: one summary per subject, in `groupby` order. This is an imperative loop that appends to a list. It is proved equal to the `CohortTable` specification function, whose shape is proved separately.
  - The decisions behind the group narration: the subject count, the three column means, the association sentence chosen from Pearson's r, and the most and least economical runners.
- Supporting modules:
  - **Seqs**: boolean-mask selection `df[mask]` as an order-preserving filter.
  - **Stats**: the NaN-skipping `mean`, `idxmin` and `idxmax`.
  - **Correlation**: `np.corrcoef` for two columns.
  - **SubjectOrder**: Python's string order, which decides the order of `groupby` keys.
  - **Wrappers**: `Option` and `Result`.

Conventions:

- A NaN in a computed value (a mean of no rows, a difference with a NaN, an undefined r) is `None`. The raw measurements are exact reals and are never NaN.
- An operation that raises on an input the pipeline can produce returns `Failure` (`summarize_group_text` without running-economy values). Raising on inputs the pipeline never produces is excluded by a precondition instead (see "Left out").
- Floating point is modelled by exact reals.

Where the code and its documentation differ, the model follows the code:

- `df.groupby("subject_id")` sorts its keys, so the cohort table comes in ascending id order (`Below`, code-point lexicographic), not in first-seen order.
- `summarize_subject` emits no running-economy column, although `summarize_group_text` and the app read one. The narration therefore takes a table of `CohortRecord`s that carries the economy column as an input.
- Metabolic power is plain Brockway. No net-power or energy policy beyond `run - rest` exists in the code.

Dafny's `real` type has no square-root operation, which r = Sxy / sqrt(Sxx * Syy) needs. The model therefore keeps the three co-moments (Sxy, Sxx, Syy) and tests r > t through Sxy > 0 and Sxy^2 > t^2 * Sxx * Syy; r < -t is tested the same way with Sxy < 0. `Correlation.ThresholdByMoments` proves these tests equivalent to the comparisons on r for any s > 0 with s^2 = Sxx * Syy and r * s = Sxy. Products of two unknowns are written `Mul(a, b)`, which is `a * b`.

## Model

| member | source | states |
|---|---|---|
| Pipeline.BrockwayMetabolicPower | src/pipeline.py:8-23 | Power is 0.27500298 W per mL/min of O2 plus 0.07717668 W per mL/min of CO2 (3.941 and 1.106 kcal/L, /1000, x 69.78). |
| Pipeline.BrockwayZero | src/pipeline.py:8-23 | No gas exchange gives zero power. |
| Pipeline.BrockwayHomogeneous | src/pipeline.py:8-23 | Scaling both rates by k scales the power by k. |
| Pipeline.BrockwayAdditive | src/pipeline.py:8-23 | The power of summed rates is the sum of the powers. |
| Pipeline.BrockwayNonNegative | src/pipeline.py:8-23 | Non-negative rates give non-negative power. |
| Pipeline.BrockwayMonotone | src/pipeline.py:8-23 | Raising either rate never lowers the power. |
| Seqs.Filter | src/pipeline.py:67-68 | A mask selection is no longer than its table. |
| Seqs.FilterIsMaskedSubsequence | src/pipeline.py:67-68 | A mask selection keeps the table's order, holds only rows that satisfy the mask, and keeps each such row with its multiplicity. |
| Pipeline.AddMetabolicColumns | src/pipeline.py:26-38 | Same rows in the same order, each with power W from Brockway and W/kg with W/kg x mass = W. |
| Pipeline.AddMetabolicColumnsCommutesWithPhase | src/pipeline.py:64-68 | Adding the columns and then selecting a phase equals selecting the phase and then adding the columns. |
| Pipeline.MaxTime | src/pipeline.py:48 | The maximum time bounds every row's time. |
| Pipeline.MaxTimeAttained | src/pipeline.py:48 | Some row sits at the maximum time; the lemma returns its position. |
| Pipeline.MaxTimeIs | src/pipeline.py:48 | Any attained upper bound of the times is the maximum. |
| Pipeline.SelectLastNSeconds | src/pipeline.py:41-49 | The window is no longer than its table. |
| Pipeline.WindowEmptyIff | src/pipeline.py:41-49 | The window is empty exactly when the table is empty or n < 0. |
| Pipeline.WindowIsTrailingInterval | src/pipeline.py:41-49 | The window is an order-preserving subsequence that keeps each row, with its multiplicity, exactly when its time lies in [max - n, max]. |
| Pipeline.WindowKeepsLatest | src/pipeline.py:48-49 | For n >= 0, every row at the latest time is in the window. |
| Pipeline.WindowKeepsMaxTime | src/pipeline.py:48-49 | A non-empty window has the table's latest time. |
| Pipeline.WindowIdempotent | src/pipeline.py:41-49 | Selecting the last n seconds twice equals selecting once. |
| Pipeline.WindowGrowsWithLength | src/pipeline.py:41-49 | A longer window is a supersequence of a shorter one. |
| Pipeline.PhaseWindowEmptyIff | src/pipeline.py:67-72 | A phase window is empty exactly when n < 0 or no row has that phase label. |
| Pipeline.PhaseWindowRows | src/pipeline.py:67-72 | Every row of a phase window comes from the table and carries exactly that phase label. |
| Pipeline.SummarizeSubject | src/pipeline.py:52-88 | The id is the first row's. Rest or run power is NaN exactly when n < 0 or the phase is absent. Speed is NaN exactly when run power is. Net power is present exactly when both are, and equals run - rest. |
| Pipeline.SummaryIsWindowMeans | src/pipeline.py:70-78 | Rest and run power are the means of W/kg over the last `window_s` seconds of their phase, and speed is the mean speed over the same run window. |
| Pipeline.SummaryWithinPhaseRanges | src/pipeline.py:74-78 | Bounds on the rows' W/kg and run speed bound the rest, run and speed means, and bound net power by the spread. |
| Pipeline.OnlyPhaseRowsContribute | src/pipeline.py:61-72 | Two tables with the same first id and the same rest rows and run rows have equal summaries; rows of any other label are ignored. |
| Stats.Mean | src/pipeline.py:74-78 | The mean is NaN exactly for no values; otherwise mean x count = sum. |
| Stats.MeanBounds | src/pipeline.py:74-78 | A mean lies within any bounds of its values. |
| Stats.MeanOfConstant | src/pipeline.py:74-78 | The mean of a constant column is that constant. |
| Stats.Difference | src/pipeline.py:76 | `run_mean - rest_mean` is present exactly when both operands are, and then difference + rest = run. |
| Stats.ColumnMean | src/pipeline_core.py:274-276 | A NaN-skipping mean is NaN exactly when every entry is NaN; otherwise mean x (number of present values) = their sum. |
| Stats.PresentKeepsValues | src/pipeline_core.py:274-276 | The values a NaN-skipping mean averages are exactly the non-NaN entries, each as often as it occurs. |
| Stats.ColumnMeanBounds | src/pipeline_core.py:274-276 | A NaN-skipping mean lies within any bounds of the present values. |
| Stats.ArgMin | src/pipeline_core.py:303 | No index exactly when all entries are NaN. Otherwise the index holds a present value that is at most every present value and strictly below every present value before it (first occurrence). |
| Stats.ArgMax | src/pipeline_core.py:304 | The same, for the largest value. |
| Stats.ArgMinBelowArgMax | src/pipeline_core.py:303-304 | idxmin and idxmax exist together, and the minimum is at most the maximum. |
| SubjectOrder.Below | src/pipeline_core.py:19 | No id sorts before itself. |
| SubjectOrder.BelowIsLexicographic | src/pipeline_core.py:19 | An id sorts before another exactly when, at the first position where they differ, it has the smaller code point or has already ended. |
| SubjectOrder.BelowTransitive | src/pipeline_core.py:19 | The string order is transitive. |
| SubjectOrder.BelowTotal | src/pipeline_core.py:19 | Any two distinct ids are ordered one way or the other. |
| SubjectOrder.InsertKey | src/pipeline_core.py:19 | Inserting into a strictly ascending key list keeps it strictly ascending and adds exactly that key. |
| SubjectOrder.AscendingCardinality | src/pipeline_core.py:19 | A set with exactly the members of a strictly ascending list has as many elements as the list. |
| PipelineCore.GroupKeys | src/pipeline_core.py:19 | The groupby keys are strictly ascending and are exactly the distinct subject ids. |
| PipelineCore.GroupKeysCount | src/pipeline_core.py:19 | There is one key per distinct subject id. |
| PipelineCore.GroupRows | src/pipeline_core.py:19 | A subject's group keeps the table's order and holds exactly the rows with that id. |
| PipelineCore.GroupRowsMultiplicity | src/pipeline_core.py:19 | Each row of a subject's group occurs there as often as in the table, so duplicated rows count twice downstream. |
| PipelineCore.GroupOfPresentId | src/pipeline_core.py:19 | An occurring id's group is non-empty and starts with that id, and its masses are non-zero if the table's are. |
| PipelineCore.GroupSummary | src/pipeline_core.py:19-21 | The summary of an occurring id's group carries that id. |
| PipelineCore.Summaries | src/pipeline_core.py:17-21 | One summary per key, in key order, each with its key's id. |
| PipelineCore.SummariesSnoc | src/pipeline_core.py:20-21 | Summarising one more key appends exactly that key's summary. |
| PipelineCore.SummariesOfGroups | src/pipeline_core.py:17-21 | Each summary is `summarize_subject` of its key's group. |
| PipelineCore.CohortTable | src/pipeline_core.py:17-26 | The table holds one row per groupby key, in key order, each carrying its key. |
| PipelineCore.CohortTableSize | src/pipeline_core.py:11-26 | The table is empty exactly when the input is, and has one row per distinct subject. |
| PipelineCore.CohortTableIds | src/pipeline_core.py:17-21 | An id has a row of the table exactly when it occurs in the input. |
| PipelineCore.CohortTableAscending | src/pipeline_core.py:17-21 | The rows are in strictly ascending id order, so no subject appears twice. |
| PipelineCore.CohortTableRows | src/pipeline_core.py:11-26 | Every row of the table is `summarize_subject` of its subject's rows. |
| PipelineCore.SummarizeAllSubjects | src/pipeline_core.py:11-26 | The loop over groups, appending each summary, returns exactly the cohort table. |
| Correlation.VarianceZeroIffConstant | src/pipeline_core.py:281-284 | The sum of squared deviations is non-negative, and zero exactly when the column is constant. |
| Correlation.PearsonMoments | src/pipeline_core.py:281-284 | r is NaN exactly when a column has a NaN or is constant (or empty); otherwise both variances are positive. |
| Correlation.ThresholdByMoments | src/pipeline_core.py:285-291 | For r = Sxy / s with s^2 = Sxx * Syy, r > t and r < -t agree with the co-moment tests. |
| Correlation.PearsonSymmetric | src/pipeline_core.py:281-284 | Swapping the columns keeps Sxy and swaps the variances. |
| Correlation.PearsonNegated | src/pipeline_core.py:281-284 | Negating one column negates Sxy and keeps whether r is defined. |
| Correlation.PearsonSelf | src/pipeline_core.py:281-284 | A NaN-free non-constant column against itself has r > t for every t < 1. |
| PipelineCore.ClassifyAssociation | src/pipeline_core.py:279-300 | "Not enough data" exactly when n < 2. With n >= 2, a NaN r is "weak or none". |
| PipelineCore.GroupAssociation | src/pipeline_core.py:279-300 | "Not enough data" exactly when the table has fewer than two rows. A positive or negative sentence needs both columns NaN-free and non-constant, as r is defined only then. |
| PipelineCore.ClassifyByCoefficient | src/pipeline_core.py:279-300 | Read on r itself, the sentence is: n < 2 not enough data; else r > 0.3 positive; else r < -0.3 negative; else weak or none. |
| PipelineCore.AssociationSymmetric | src/pipeline_core.py:281-300 | Exchanging power and speed does not change the sentence. |
| PipelineCore.AssociationMirror | src/pipeline_core.py:281-300 | Negating one column swaps positive and negative and keeps the other two sentences. |
| PipelineCore.AssociationSelf | src/pipeline_core.py:281-300 | A non-constant NaN-free column against itself, with n >= 2, is a positive association. |
| PipelineCore.SummarizeGroupText | src/pipeline_core.py:264-307 | Fails exactly when no running economy is present (an empty table included). On success it reports: count = rows; the NaN-skipping means; the association of net power with speed; the positions of the most and least economical runners, both rows with an economy value. |
| PipelineCore.NarratedRunners | src/pipeline_core.py:303-304 | The most economical runner is the first row of lowest economy and the least economical the first row of highest economy; together they bound every present economy. |

## Left out

- `main` (`src/pipeline.py:91-117`): reading and writing CSV files is I/O.
- `make_speed_vs_power_figure` (with its OLS fit, confidence band and R²), `make_vo2_time_figure` (with its inner `phase_mean_ci`) and `make_vo2_compare_figure`: plotting, which the summary and narration do not use.
- `streamlit_app.py`: the user interface and its filtering.
- Markdown wording in `summarize_group_text`: the model returns the facts the text is built from, not the string or its two-decimal rounding.
- Floating point: NaN is `None`. Infinities, rounding and IEEE comparisons are not modelled.
- Raw samples are NaN-free: time, VO2, VCO2, body mass and speed are plain reals. pandas skips NaN in `.max()` (`src/pipeline.py:48`) and `.mean()` (`src/pipeline.py:74-78`); with NaN measurements the window could differ, and the speed mean could be NaN while run power is defined. `Pipeline.SummarizeSubject`'s "speed is NaN exactly when run power is" holds only for NaN-free rows.
- Pipeline.AddMetabolicColumns: requires every body mass to be non-zero, because pandas would give inf or NaN W/kg, and infinities are not modelled.
- Pipeline.SummarizeSubject: inherits the non-zero-mass precondition for every row, including rows of phases the summary ignores, which the source would accept whatever their mass.
- PipelineCore.CohortTable: inherits the same non-zero-mass precondition for every row of the input.
- PipelineCore.SummarizeAllSubjects: inherits the same non-zero-mass precondition for every row of the input.
- Pipeline.SummarizeSubject: requires a non-empty table, because `iloc[0]` raises on an empty frame, and `groupby` never passes one.
- PipelineCore.SummarizeAllSubjects: `groupby` drops rows whose subject id is NaN; ids here are always strings.
- PipelineCore.SummarizeGroupText: `.loc` on a duplicated index label would return several rows. The model reports row positions, as for a table with a unique index.
- The running-economy column is an input of the narration: no code in the repository computes it.
