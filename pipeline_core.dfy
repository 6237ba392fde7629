/** The cohort step: one summary per subject, and the structured facts behind
    the group narration (count, column means, association class, most and
    least economical runner). */
module PipelineCore {
  import opened Wrappers
  import opened Seqs
  import opened Stats
  import opened SubjectOrder
  import opened Pipeline
  import opened Correlation

  // ---------------------------------------------------------------------
  // Cohort aggregation

  /** The distinct subject ids of a raw table. */
  function SubjectIds(rows: seq<Sample>): set<string>
  {
    set i | 0 <= i < |rows| :: rows[i].subjectId
  }

  /** The keys `df.groupby("subject_id")` visits: every distinct id once, sorted. */
  function GroupKeys(rows: seq<Sample>): (keys: seq<string>)
    ensures StrictlyAscending(keys)
    ensures forall k :: k in keys <==> k in SubjectIds(rows)
  {
    if rows == [] then []
    else
      var keys := InsertKey(rows[0].subjectId, GroupKeys(rows[1..]));
      assert forall k :: k in SubjectIds(rows) <==> k == rows[0].subjectId || k in SubjectIds(rows[1..]) by {
        forall k | k in SubjectIds(rows) ensures k == rows[0].subjectId || k in SubjectIds(rows[1..]) {
          var i :| 0 <= i < |rows| && rows[i].subjectId == k;
          if i > 0 { assert rows[1..][i - 1].subjectId == k; }
        }
        forall k | k in SubjectIds(rows[1..]) ensures k in SubjectIds(rows) {
          var i :| 0 <= i < |rows[1..]| && rows[1..][i].subjectId == k;
          assert rows[i + 1].subjectId == k;
        }
      }
      keys
  }

  /** There are as many group keys as distinct subject ids. */
  lemma {:induction false} GroupKeysCount(rows: seq<Sample>)
    ensures |GroupKeys(rows)| == |SubjectIds(rows)|
  {
    AscendingCardinality(GroupKeys(rows), SubjectIds(rows));
  }

  /** The mask `df["subject_id"] == id`. */
  function SubjectIs(id: string): Sample -> bool
  {
    (r: Sample) => r.subjectId == id
  }

  /** The group `groupby` hands over for one id: that subject's rows, in order. */
  function GroupRows(rows: seq<Sample>, id: string): (g: seq<Sample>)
    ensures IsSubsequence(g, rows)
    ensures forall x :: x in g <==> x in rows && x.subjectId == id
  {
    FilterIsMaskedSubsequence(rows, SubjectIs(id));
    FilterMembership(rows, SubjectIs(id));
    Filter(rows, SubjectIs(id))
  }

  /** A subject's group keeps each of its rows as often as the table has it. */
  lemma {:induction false} GroupRowsMultiplicity(rows: seq<Sample>, id: string)
    ensures forall x :: multiset(GroupRows(rows, id))[x] == if x.subjectId == id then multiset(rows)[x] else 0
  {
    FilterIsMaskedSubsequence(rows, SubjectIs(id));
  }

  /** A group of an id that occurs is non-empty, starts with that id, and
      keeps the masses of the table. */
  lemma {:induction false} GroupOfPresentId(rows: seq<Sample>, id: string)
    requires id in SubjectIds(rows)
    ensures GroupRows(rows, id) != [] && GroupRows(rows, id)[0].subjectId == id
    ensures MassesNonZero(rows) ==> MassesNonZero(GroupRows(rows, id))
  {
    var g := GroupRows(rows, id);
    var i :| 0 <= i < |rows| && rows[i].subjectId == id;
    FilterEmptyIff(rows, SubjectIs(id));
    assert SubjectIs(id)(rows[i]);
    var j := FilterOrigin(rows, SubjectIs(id), 0);
    if MassesNonZero(rows) {
      forall k | 0 <= k < |g| ensures g[k].bodyMassKg != 0.0 {
        var l := FilterOrigin(rows, SubjectIs(id), k);
      }
    }
  }

  /** `s` is the cohort row for subject `id`: `summarize_subject` with its
      default phases and window applied to that subject's group. */
  predicate SummarizesGroup(rows: seq<Sample>, id: string, s: SubjectSummary)
  {
    var g := GroupRows(rows, id);
    g != [] && MassesNonZero(g) && s == SummarizeSubject(g, RestPhase, RunPhase, WindowSeconds)
  }

  /** The row `summarize_subject` produces for an occurring subject's group. */
  function GroupSummary(rows: seq<Sample>, id: string): (s: SubjectSummary)
    requires MassesNonZero(rows) && id in SubjectIds(rows)
    ensures s.subjectId == id
  {
    GroupOfPresentId(rows, id);
    SummarizeSubject(GroupRows(rows, id), RestPhase, RunPhase, WindowSeconds)
  }

  /** The cohort row of each occurring subject. */
  function SummaryOf(rows: seq<Sample>): string --> SubjectSummary
  {
    id requires MassesNonZero(rows) && id in SubjectIds(rows) => GroupSummary(rows, id)
  }

  /** The summaries of the groups of `keys`, in that order. */
  function Summaries(rows: seq<Sample>, keys: seq<string>): (t: seq<SubjectSummary>)
    requires MassesNonZero(rows)
    requires forall j :: 0 <= j < |keys| ==> keys[j] in SubjectIds(rows)
    ensures |t| == |keys|
    ensures forall j :: 0 <= j < |t| ==> t[j].subjectId == keys[j]
  {
    MapSeqAt(keys, SummaryOf(rows));
    MapSeq(keys, SummaryOf(rows))
  }

  /** Extending the keys by one extends the summaries by that key's row. */
  lemma {:induction false} SummariesSnoc(rows: seq<Sample>, keys: seq<string>, n: nat)
    requires MassesNonZero(rows)
    requires forall j :: 0 <= j < |keys| ==> keys[j] in SubjectIds(rows)
    requires n < |keys|
    ensures Summaries(rows, keys[..n + 1]) == Summaries(rows, keys[..n]) + [GroupSummary(rows, keys[n])]
  {
    MapSeqSnoc(keys, SummaryOf(rows), n);
  }

  /** Each entry of `Summaries` is the summary of its key's group. */
  lemma {:induction false} SummariesOfGroups(rows: seq<Sample>, keys: seq<string>)
    requires MassesNonZero(rows)
    requires forall j :: 0 <= j < |keys| ==> keys[j] in SubjectIds(rows)
    ensures forall j :: 0 <= j < |keys| ==> SummarizesGroup(rows, keys[j], Summaries(rows, keys)[j])
  {
    MapSeqAt(keys, SummaryOf(rows));
    forall j | 0 <= j < |keys| ensures SummarizesGroup(rows, keys[j], Summaries(rows, keys)[j]) {
      GroupOfPresentId(rows, keys[j]);
    }
  }

  /** The table `summarize_all_subjects` returns. */
  function CohortTable(rows: seq<Sample>): (table: seq<SubjectSummary>)
    requires MassesNonZero(rows)
    ensures |table| == |GroupKeys(rows)|
    ensures forall j :: 0 <= j < |table| ==> table[j].subjectId == GroupKeys(rows)[j]
  {
    Summaries(rows, GroupKeys(rows))
  }

  /** The cohort table is empty exactly when there are no rows, and it has
      one row per distinct subject. */
  lemma {:induction false} CohortTableSize(rows: seq<Sample>)
    requires MassesNonZero(rows)
    ensures CohortTable(rows) == [] <==> rows == []
    ensures |CohortTable(rows)| == |SubjectIds(rows)|
  {
    GroupKeysCount(rows);
    if rows != [] {
      assert rows[0].subjectId in SubjectIds(rows);
    }
  }

  /** Each occurring subject has a row of the cohort table, and no other id does. */
  lemma {:induction false} CohortTableIds(rows: seq<Sample>)
    requires MassesNonZero(rows)
    ensures forall k :: k in SubjectIds(rows) <==>
      exists j :: 0 <= j < |CohortTable(rows)| && CohortTable(rows)[j].subjectId == k
  {
    var keys := GroupKeys(rows);
    var table := CohortTable(rows);
    forall k | k in SubjectIds(rows) ensures exists j :: 0 <= j < |table| && table[j].subjectId == k {
      var j :| 0 <= j < |keys| && keys[j] == k;
      assert table[j].subjectId == k;
    }
  }

  /** The cohort rows come in ascending subject order, so no subject repeats. */
  lemma {:induction false} CohortTableAscending(rows: seq<Sample>)
    requires MassesNonZero(rows)
    ensures forall i, j :: 0 <= i < j < |CohortTable(rows)| ==>
      Below(CohortTable(rows)[i].subjectId, CohortTable(rows)[j].subjectId)
  {
    var keys := GroupKeys(rows);
    var table := CohortTable(rows);
    forall i, j | 0 <= i < j < |table| ensures Below(table[i].subjectId, table[j].subjectId) {
      assert table[i].subjectId == keys[i] && table[j].subjectId == keys[j];
    }
  }

  /** Every row of the cohort table is the summary of its subject's group. */
  lemma {:induction false} CohortTableRows(rows: seq<Sample>)
    requires MassesNonZero(rows)
    ensures forall j :: 0 <= j < |CohortTable(rows)| ==>
      SummarizesGroup(rows, CohortTable(rows)[j].subjectId, CohortTable(rows)[j])
  {
    SummariesOfGroups(rows, GroupKeys(rows));
  }

  /** `summarize_all_subjects`: `summarize_subject` with its defaults on each
      group, in groupby order, collected in a list; an empty table when there
      are no groups. */
  method SummarizeAllSubjects(rows: seq<Sample>) returns (table: seq<SubjectSummary>)
    requires MassesNonZero(rows)
    ensures table == CohortTable(rows)
  {
    var keys := GroupKeys(rows);
    var summaries: seq<SubjectSummary> := [];
    for n := 0 to |keys|
      invariant summaries == Summaries(rows, keys[..n])
    {
      SummariesSnoc(rows, keys, n);
      summaries := summaries + [GroupSummary(rows, keys[n])];
    }
    assert keys[..|keys|] == keys;
    if |summaries| == 0 {
      return [];
    }
    return summaries;
  }

  // ---------------------------------------------------------------------
  // Group narration

  /** One row of the table the narration reads: a subject's net power and
      speed, and its running economy (mL/kg/min). */
  datatype CohortRecord = CohortRecord(subjectId: string, netMetabolicPowerWkg: Option<real>,
                                       speedMPerS: Option<real>, runningEconomyMlKgMin: Option<real>)

  function NetPowerColumn(table: seq<CohortRecord>): (c: seq<Option<real>>)
    ensures |c| == |table| && forall i :: 0 <= i < |table| ==> c[i] == table[i].netMetabolicPowerWkg
  {
    seq(|table|, i requires 0 <= i < |table| => table[i].netMetabolicPowerWkg)
  }

  function CohortSpeedColumn(table: seq<CohortRecord>): (c: seq<Option<real>>)
    ensures |c| == |table| && forall i :: 0 <= i < |table| ==> c[i] == table[i].speedMPerS
  {
    seq(|table|, i requires 0 <= i < |table| => table[i].speedMPerS)
  }

  function EconomyColumn(table: seq<CohortRecord>): (c: seq<Option<real>>)
    ensures |c| == |table| && forall i :: 0 <= i < |table| ==> c[i] == table[i].runningEconomyMlKgMin
  {
    seq(|table|, i requires 0 <= i < |table| => table[i].runningEconomyMlKgMin)
  }

  /** The four sentences the narration can give about power against speed. */
  datatype Association = NotEnoughData | Positive | Negative | WeakOrNone

  /** |r| above this counts as an association. */
  const AssociationThreshold: real := 0.3

  /** The correlation sentence for `n` subjects and coefficient `r` (None
      when `np.corrcoef` yields NaN, which fails both comparisons). */
  function ClassifyAssociation(n: nat, r: Option<Moments>): (a: Association)
    ensures a == NotEnoughData <==> n < 2
    ensures n >= 2 && r.None? ==> a == WeakOrNone
  {
    if n < 2 then NotEnoughData
    else if r.Some? && Exceeds(r.value, AssociationThreshold) then Positive
    else if r.Some? && FallsBelow(r.value, AssociationThreshold) then Negative
    else WeakOrNone
  }

  /** Read on the coefficient r = Sxy / s itself, the classification is the
      source's chain: fewer than two subjects, then r > 0.3, then r < -0.3,
      else weak or none. */
  lemma {:induction false} ClassifyByCoefficient(n: nat, mo: Moments, s: real, r: real)
    requires s > 0.0 && Mul(s, s) == Mul(mo.sxx, mo.syy) && Mul(r, s) == mo.sxy
    ensures ClassifyAssociation(n, Some(mo)) ==
      if n < 2 then NotEnoughData
      else if r > 0.3 then Positive
      else if r < -0.3 then Negative
      else WeakOrNone
  {
    ThresholdByMoments(mo, s, r, AssociationThreshold);
  }

  /** The association between net power and speed over the table. */
  function GroupAssociation(table: seq<CohortRecord>): (a: Association)
    ensures a == NotEnoughData <==> |table| < 2
    ensures a == Positive || a == Negative ==>
      && AllPresent(NetPowerColumn(table)) && !IsConstant(Values(NetPowerColumn(table)))
      && AllPresent(CohortSpeedColumn(table)) && !IsConstant(Values(CohortSpeedColumn(table)))
  {
    ClassifyAssociation(|table|, PearsonMoments(NetPowerColumn(table), CohortSpeedColumn(table)))
  }

  /** Which column is x and which is y does not change the sentence. */
  lemma {:induction false} AssociationSymmetric(n: nat, xs: seq<Option<real>>, ys: seq<Option<real>>)
    requires |xs| == |ys|
    ensures ClassifyAssociation(n, PearsonMoments(xs, ys)) == ClassifyAssociation(n, PearsonMoments(ys, xs))
  {
    PearsonSymmetric(xs, ys);
    if PearsonMoments(xs, ys).Some? {
      var m := PearsonMoments(xs, ys).value;
      MulCommutes(m.sxx, m.syy);
    }
  }

  /** Positive and negative trade places. */
  function Mirror(a: Association): Association
  {
    match a
    case Positive => Negative
    case Negative => Positive
    case _ => a
  }

  /** Negating one column mirrors the sentence: a positive association
      becomes a negative one and back; the other two stay. */
  lemma {:induction false} AssociationMirror(n: nat, xs: seq<Option<real>>, ys: seq<Option<real>>)
    requires |xs| == |ys|
    ensures ClassifyAssociation(n, PearsonMoments(xs, Negated(ys))) ==
      Mirror(ClassifyAssociation(n, PearsonMoments(xs, ys)))
  {
    PearsonNegated(xs, ys);
    if PearsonMoments(xs, ys).Some? {
      var m := PearsonMoments(xs, ys).value;
      MulNegates(m.sxy, m.sxy);
    }
  }

  /** Power against itself, non-constant and NaN-free, over at least two
      subjects reads as a positive association. */
  lemma {:induction false} AssociationSelf(n: nat, xs: seq<Option<real>>)
    requires n >= 2 && AllPresent(xs) && !IsConstant(Values(xs))
    ensures ClassifyAssociation(n, PearsonMoments(xs, xs)) == Positive
  {
    PearsonSelf(xs, AssociationThreshold);
  }

  /** What `summarize_group_text` fails with instead of a text. */
  datatype NarrationError = NoEconomyValues

  /** Everything `summarize_group_text` puts into its text; the two runners
      are row positions of the table. */
  datatype GroupFacts = GroupFacts(subjectCount: nat, meanNetPowerWkg: Option<real>,
                                   meanSpeedMPerS: Option<real>, meanRunningEconomy: Option<real>,
                                   association: Association, mostEconomical: nat, leastEconomical: nat)

  /** `summarize_group_text` without its wording. `idxmin`/`idxmax` raise when
      no running economy is present (an empty table included); otherwise
      the most economical runner is the first row of lowest economy and the
      least economical the first row of highest economy. */
  function SummarizeGroupText(table: seq<CohortRecord>): (res: Result<GroupFacts, NarrationError>)
    ensures res.Failure? <==> forall i :: 0 <= i < |table| ==> table[i].runningEconomyMlKgMin.None?
    ensures res.Success? ==>
      var f := res.value;
      && f.subjectCount == |table|
      && f.meanNetPowerWkg == ColumnMean(NetPowerColumn(table))
      && f.meanSpeedMPerS == ColumnMean(CohortSpeedColumn(table))
      && f.meanRunningEconomy == ColumnMean(EconomyColumn(table))
      && f.meanRunningEconomy.Some?
      && f.association == GroupAssociation(table)
      && f.mostEconomical < |table| && table[f.mostEconomical].runningEconomyMlKgMin.Some?
      && f.leastEconomical < |table| && table[f.leastEconomical].runningEconomyMlKgMin.Some?
  {
    var economy := EconomyColumn(table);
    var best := ArgMin(economy);
    var worst := ArgMax(economy);
    if best.None? || worst.None? then Failure(NoEconomyValues)
    else
      Success(GroupFacts(|table|, ColumnMean(NetPowerColumn(table)), ColumnMean(CohortSpeedColumn(table)),
                         ColumnMean(economy), GroupAssociation(table), best.value, worst.value))
  }

  /** The most economical runner has the lowest running economy of the
      cohort and no earlier row ties it; the least economical has the
      highest, again the first such row. */
  lemma {:induction false} NarratedRunners(table: seq<CohortRecord>)
    requires SummarizeGroupText(table).Success?
    ensures var f := SummarizeGroupText(table).value;
      && (forall i :: 0 <= i < |table| && table[i].runningEconomyMlKgMin.Some? ==>
            table[f.mostEconomical].runningEconomyMlKgMin.value <= table[i].runningEconomyMlKgMin.value
            <= table[f.leastEconomical].runningEconomyMlKgMin.value)
      && (forall i :: 0 <= i < f.mostEconomical && table[i].runningEconomyMlKgMin.Some? ==>
            table[f.mostEconomical].runningEconomyMlKgMin.value < table[i].runningEconomyMlKgMin.value)
      && (forall i :: 0 <= i < f.leastEconomical && table[i].runningEconomyMlKgMin.Some? ==>
            table[i].runningEconomyMlKgMin.value < table[f.leastEconomical].runningEconomyMlKgMin.value)
  {
  }
}
