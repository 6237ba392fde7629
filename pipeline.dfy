/** Per-subject metabolic summary: Brockway power per sample, the trailing
    steady-state window of a phase, and the one-row subject summary. */
module Pipeline {
  import opened Wrappers
  import opened Seqs
  import opened Stats

  /** One breath-by-breath row of the raw table. */
  datatype Sample = Sample(
    subjectId: string,
    phase: string,
    timeS: real,
    vo2MlMin: real,
    vco2MlMin: real,
    bodyMassKg: real,
    speedMPerS: real)

  /** A raw row extended with the two metabolic power columns. */
  datatype MetabolicSample = MetabolicSample(sample: Sample, powerW: real, powerWKg: real)

  /** One row of the summary table. A missing value stands for NaN. */
  datatype SubjectSummary = SubjectSummary(
    subjectId: string,
    restMetabolicPowerWkg: Option<real>,
    runMetabolicPowerWkg: Option<real>,
    netMetabolicPowerWkg: Option<real>,
    speedMPerS: Option<real>)

  /** Brockway (1987): kcal per litre of O2 and of CO2, and W per kcal/min. */
  const KcalPerLitreO2: real := 3.941
  const KcalPerLitreCo2: real := 1.106
  const WattsPerKcalMin: real := 69.78

  /** Defaults of `summarize_subject`. */
  const RestPhase: string := "rest"
  const RunPhase: string := "run"
  const WindowSeconds: int := 120

  // ---------------------------------------------------------------------
  // Energy conversion

  /** Metabolic power in W from VO2 and VCO2 in mL/min: the conversion folds
      into one coefficient per gas. */
  function BrockwayMetabolicPower(vo2MlMin: real, vco2MlMin: real): (watts: real)
    ensures watts == 0.27500298 * vo2MlMin + 0.07717668 * vco2MlMin
  {
    var vo2LMin := vo2MlMin / 1000.0;
    var vco2LMin := vco2MlMin / 1000.0;
    var kcalMin := KcalPerLitreO2 * vo2LMin + KcalPerLitreCo2 * vco2LMin;
    kcalMin * WattsPerKcalMin
  }

  lemma {:induction false} BrockwayZero()
    ensures BrockwayMetabolicPower(0.0, 0.0) == 0.0
  {
  }

  /** Scaling both rates scales the power. */
  lemma {:induction false} BrockwayHomogeneous(vo2: real, vco2: real, k: real)
    ensures BrockwayMetabolicPower(k * vo2, k * vco2) == k * BrockwayMetabolicPower(vo2, vco2)
  {
    calc {
      BrockwayMetabolicPower(k * vo2, k * vco2);
      0.27500298 * (k * vo2) + 0.07717668 * (k * vco2);
      k * (0.27500298 * vo2 + 0.07717668 * vco2);
    }
  }

  /** The power of summed rates is the sum of the powers. */
  lemma {:induction false} BrockwayAdditive(vo2: real, vco2: real, vo2': real, vco2': real)
    ensures BrockwayMetabolicPower(vo2 + vo2', vco2 + vco2')
         == BrockwayMetabolicPower(vo2, vco2) + BrockwayMetabolicPower(vo2', vco2')
  {
  }

  lemma {:induction false} BrockwayNonNegative(vo2: real, vco2: real)
    requires vo2 >= 0.0 && vco2 >= 0.0
    ensures BrockwayMetabolicPower(vo2, vco2) >= 0.0
  {
  }

  /** Power never decreases when either rate increases. */
  lemma {:induction false} BrockwayMonotone(vo2: real, vco2: real, vo2': real, vco2': real)
    requires vo2 <= vo2' && vco2 <= vco2'
    ensures BrockwayMetabolicPower(vo2, vco2) <= BrockwayMetabolicPower(vo2', vco2')
  {
  }

  predicate MassesNonZero(rows: seq<Sample>)
  {
    forall i :: 0 <= i < |rows| ==> rows[i].bodyMassKg != 0.0
  }

  /** `add_metabolic_columns`: a new table with the same rows, in order, each
      extended with its power in W and in W/kg. */
  function AddMetabolicColumns(rows: seq<Sample>): (r: seq<MetabolicSample>)
    requires MassesNonZero(rows)
    ensures |r| == |rows|
    ensures forall i :: 0 <= i < |rows| ==> r[i].sample == rows[i]
    ensures forall i :: 0 <= i < |rows| ==>
      r[i].powerW == BrockwayMetabolicPower(rows[i].vo2MlMin, rows[i].vco2MlMin)
    ensures forall i :: 0 <= i < |rows| ==> r[i].powerWKg * rows[i].bodyMassKg == r[i].powerW
  {
    if rows == [] then []
    else
      var w := BrockwayMetabolicPower(rows[0].vo2MlMin, rows[0].vco2MlMin);
      [MetabolicSample(rows[0], w, w / rows[0].bodyMassKg)] + AddMetabolicColumns(rows[1..])
  }

  /** `df[df["phase"] == phaseLabel]` on the raw rows. */
  function SamplePhaseIs(phaseLabel: string): Sample -> bool
  {
    (r: Sample) => r.phase == phaseLabel
  }

  /** Adding the power columns commutes with selecting a phase. */
  lemma {:induction false} AddMetabolicColumnsCommutesWithPhase(rows: seq<Sample>, phaseLabel: string)
    requires MassesNonZero(rows)
    ensures MassesNonZero(Filter(rows, SamplePhaseIs(phaseLabel)))
    ensures Filter(AddMetabolicColumns(rows), PhaseIs(phaseLabel))
         == AddMetabolicColumns(Filter(rows, SamplePhaseIs(phaseLabel)))
  {
    var p, q := SamplePhaseIs(phaseLabel), PhaseIs(phaseLabel);
    if rows != [] {
      AddMetabolicColumnsCommutesWithPhase(rows[1..], phaseLabel);
      var m := AddMetabolicColumns(rows);
      var head := m[0];
      assert m == [head] + AddMetabolicColumns(rows[1..]);
      assert m[1..] == AddMetabolicColumns(rows[1..]);
      assert q(head) == p(rows[0]);
      var tail := Filter(rows[1..], p);
      if p(rows[0]) {
        assert Filter(rows, p) == [rows[0]] + tail;
        assert Filter(m, q) == [head] + Filter(m[1..], q);
      } else {
        assert Filter(rows, p) == tail;
        assert Filter(m, q) == Filter(m[1..], q);
      }
    }
  }

  // ---------------------------------------------------------------------
  // Steady-state window

  /** `df[time_col].max()` of a non-empty table: no row is later. */
  function MaxTime(rows: seq<MetabolicSample>): (m: real)
    requires rows != []
    ensures forall i :: 0 <= i < |rows| ==> rows[i].sample.timeS <= m
  {
    if |rows| == 1 then rows[0].sample.timeS
    else
      var later := MaxTime(rows[1..]);
      if rows[0].sample.timeS >= later then rows[0].sample.timeS else later
  }

  /** The maximum is attained: some row sits at the latest time. */
  lemma {:induction false} MaxTimeAttained(rows: seq<MetabolicSample>) returns (i: nat)
    requires rows != []
    ensures i < |rows| && rows[i].sample.timeS == MaxTime(rows)
  {
    if |rows| == 1 || rows[0].sample.timeS >= MaxTime(rows[1..]) {
      i := 0;
    } else {
      var j := MaxTimeAttained(rows[1..]);
      i := j + 1;
    }
  }

  /** The mask `df[time_col] >= threshold`. */
  function AtOrAfter(threshold: real): MetabolicSample -> bool
  {
    (r: MetabolicSample) => r.sample.timeS >= threshold
  }

  /** `select_last_n_seconds`: the rows whose time is at least the latest time
      minus `nSeconds`; no rows when the table is empty (the maximum is NaN). */
  function SelectLastNSeconds(rows: seq<MetabolicSample>, nSeconds: int): (w: seq<MetabolicSample>)
    ensures |w| <= |rows|
  {
    if rows == [] then [] else Filter(rows, AtOrAfter(MaxTime(rows) - nSeconds as real))
  }

  /** The window is empty exactly when the table is empty or the length negative. */
  lemma {:induction false} WindowEmptyIff(rows: seq<MetabolicSample>, nSeconds: int)
    ensures SelectLastNSeconds(rows, nSeconds) == [] <==> rows == [] || nSeconds < 0
  {
    if rows != [] {
      var m := MaxTime(rows);
      var p := AtOrAfter(m - nSeconds as real);
      if nSeconds >= 0 {
        var i := MaxTimeAttained(rows);
        FilterKeeps(rows, p, i);
      } else if Filter(rows, p) != [] {
        var i := FilterOrigin(rows, p, 0);
        assert false;
      }
    }
  }

  /** The window is an order-preserving subsequence that keeps a row (with its
      multiplicity) exactly when it lies in [max time - n, max time]. */
  lemma {:induction false} WindowIsTrailingInterval(rows: seq<MetabolicSample>, nSeconds: int)
    requires rows != []
    ensures IsSubsequence(SelectLastNSeconds(rows, nSeconds), rows)
    ensures forall x :: multiset(SelectLastNSeconds(rows, nSeconds))[x] ==
                        if x.sample.timeS >= MaxTime(rows) - nSeconds as real then multiset(rows)[x] else 0
    ensures forall x :: x in SelectLastNSeconds(rows, nSeconds) <==>
      x in rows && MaxTime(rows) - nSeconds as real <= x.sample.timeS <= MaxTime(rows)
  {
    var p := AtOrAfter(MaxTime(rows) - nSeconds as real);
    FilterIsMaskedSubsequence(rows, p);
    FilterMembership(rows, p);
  }

  /** With a non-negative window every row at the latest time survives. */
  lemma {:induction false} WindowKeepsLatest(rows: seq<MetabolicSample>, nSeconds: int)
    requires rows != [] && nSeconds >= 0
    ensures forall i :: 0 <= i < |rows| && rows[i].sample.timeS == MaxTime(rows) ==>
      rows[i] in SelectLastNSeconds(rows, nSeconds)
  {
    forall i | 0 <= i < |rows| && rows[i].sample.timeS == MaxTime(rows)
      ensures rows[i] in SelectLastNSeconds(rows, nSeconds)
    {
      FilterKeeps(rows, AtOrAfter(MaxTime(rows) - nSeconds as real), i);
    }
  }

  /** A table whose rows are bounded by a time they attain has that maximum. */
  lemma {:induction false} MaxTimeIs(rows: seq<MetabolicSample>, m: real)
    requires rows != []
    requires forall i :: 0 <= i < |rows| ==> rows[i].sample.timeS <= m
    requires exists i :: 0 <= i < |rows| && rows[i].sample.timeS == m
    ensures MaxTime(rows) == m
  {
    var k := MaxTimeAttained(rows);
  }

  /** Re-windowing with the same length changes nothing. */
  lemma {:induction false} WindowIdempotent(rows: seq<MetabolicSample>, nSeconds: int)
    ensures SelectLastNSeconds(SelectLastNSeconds(rows, nSeconds), nSeconds)
         == SelectLastNSeconds(rows, nSeconds)
  {
    var w := SelectLastNSeconds(rows, nSeconds);
    if w != [] {
      WindowKeepsMaxTime(rows, nSeconds);
      FilterIdempotent(rows, AtOrAfter(MaxTime(rows) - nSeconds as real));
    }
  }

  /** A non-empty window has the same latest time as the table it came from. */
  lemma {:induction false} WindowKeepsMaxTime(rows: seq<MetabolicSample>, nSeconds: int)
    requires SelectLastNSeconds(rows, nSeconds) != []
    ensures MaxTime(SelectLastNSeconds(rows, nSeconds)) == MaxTime(rows)
  {
    var w := SelectLastNSeconds(rows, nSeconds);
    var m := MaxTime(rows);
    var p := AtOrAfter(m - nSeconds as real);
    assert w == Filter(rows, p);
    forall j | 0 <= j < |w| ensures w[j].sample.timeS <= m {
      var i := FilterOrigin(rows, p, j);
    }
    var i0 := FilterOrigin(rows, p, 0);
    var k := MaxTimeAttained(rows);
    FilterKeeps(rows, p, k);
    MaxTimeIs(w, m);
  }

  /** A longer window keeps a supersequence of a shorter one. */
  lemma {:induction false} WindowGrowsWithLength(rows: seq<MetabolicSample>, n1: int, n2: int)
    requires n1 <= n2
    ensures IsSubsequence(SelectLastNSeconds(rows, n1), SelectLastNSeconds(rows, n2))
  {
    if rows != [] {
      var m := MaxTime(rows);
      FilterWeakerMask(rows, AtOrAfter(m - n1 as real), AtOrAfter(m - n2 as real));
    }
  }

  // ---------------------------------------------------------------------
  // Subject summary

  /** `df[df["phase"] == phaseLabel]` on the extended rows. */
  function PhaseIs(phaseLabel: string): MetabolicSample -> bool
  {
    (r: MetabolicSample) => r.sample.phase == phaseLabel
  }

  function PowerPerKgColumn(rows: seq<MetabolicSample>): (c: seq<real>)
    ensures |c| == |rows| && forall i :: 0 <= i < |rows| ==> c[i] == rows[i].powerWKg
  {
    seq(|rows|, i requires 0 <= i < |rows| => rows[i].powerWKg)
  }

  function SpeedColumn(rows: seq<MetabolicSample>): (c: seq<real>)
    ensures |c| == |rows| && forall i :: 0 <= i < |rows| ==> c[i] == rows[i].sample.speedMPerS
  {
    seq(|rows|, i requires 0 <= i < |rows| => rows[i].sample.speedMPerS)
  }

  /** The last `windowS` seconds of one phase. */
  function PhaseWindow(rows: seq<MetabolicSample>, phaseLabel: string, windowS: int): seq<MetabolicSample>
  {
    SelectLastNSeconds(Filter(rows, PhaseIs(phaseLabel)), windowS)
  }

  predicate HasPhase(rows: seq<Sample>, phaseLabel: string)
  {
    exists i :: 0 <= i < |rows| && rows[i].phase == phaseLabel
  }

  lemma {:induction false} PhaseWindowEmptyIff(rows: seq<Sample>, phaseLabel: string, windowS: int)
    requires MassesNonZero(rows)
    ensures PhaseWindow(AddMetabolicColumns(rows), phaseLabel, windowS) == []
        <==> windowS < 0 || !HasPhase(rows, phaseLabel)
  {
    var m := AddMetabolicColumns(rows);
    FilterEmptyIff(m, PhaseIs(phaseLabel));
    WindowEmptyIff(Filter(m, PhaseIs(phaseLabel)), windowS);
    if HasPhase(rows, phaseLabel) {
      var i :| 0 <= i < |rows| && rows[i].phase == phaseLabel;
      assert PhaseIs(phaseLabel)(m[i]);
    }
  }

  /** Every row of a phase window has that phase and comes from the table. */
  lemma {:induction false} PhaseWindowRows(rows: seq<MetabolicSample>, phaseLabel: string, windowS: int)
    ensures forall x :: x in PhaseWindow(rows, phaseLabel, windowS) ==> x in rows && x.sample.phase == phaseLabel
  {
    var part := Filter(rows, PhaseIs(phaseLabel));
    FilterMembership(rows, PhaseIs(phaseLabel));
    if part != [] {
      WindowIsTrailingInterval(part, windowS);
    }
  }

  /** `summarize_subject`: the subject id of the first row, the mean W/kg of
      the rest and run windows, their difference, and the mean run-window speed. */
  function SummarizeSubject(rows: seq<Sample>, restPhase: string, runPhase: string, windowS: int): (s: SubjectSummary)
    requires rows != [] && MassesNonZero(rows)
    ensures s.subjectId == rows[0].subjectId
    ensures s.restMetabolicPowerWkg.None? <==> windowS < 0 || !HasPhase(rows, restPhase)
    ensures s.runMetabolicPowerWkg.None? <==> windowS < 0 || !HasPhase(rows, runPhase)
    ensures s.speedMPerS.None? <==> s.runMetabolicPowerWkg.None?
    ensures s.netMetabolicPowerWkg.Some? <==> s.restMetabolicPowerWkg.Some? && s.runMetabolicPowerWkg.Some?
    ensures s.netMetabolicPowerWkg.Some? ==>
      s.netMetabolicPowerWkg.value == s.runMetabolicPowerWkg.value - s.restMetabolicPowerWkg.value
  {
    var m := AddMetabolicColumns(rows);
    var restWin := PhaseWindow(m, restPhase, windowS);
    var runWin := PhaseWindow(m, runPhase, windowS);
    PhaseWindowEmptyIff(rows, restPhase, windowS);
    PhaseWindowEmptyIff(rows, runPhase, windowS);
    var restMean := Mean(PowerPerKgColumn(restWin));
    var runMean := Mean(PowerPerKgColumn(runWin));
    SubjectSummary(rows[0].subjectId, restMean, runMean, Difference(runMean, restMean),
                   Mean(SpeedColumn(runWin)))
  }

  /** The three values are the means over the trailing windows: the rest and
      run W/kg averaged over the last `windowS` seconds of each phase, and
      the speed averaged over the same run window. */
  lemma {:induction false} SummaryIsWindowMeans(rows: seq<Sample>, restPhase: string, runPhase: string, windowS: int)
    requires rows != [] && MassesNonZero(rows)
    ensures var s := SummarizeSubject(rows, restPhase, runPhase, windowS);
      var m := AddMetabolicColumns(rows);
      && s.restMetabolicPowerWkg == Mean(PowerPerKgColumn(PhaseWindow(m, restPhase, windowS)))
      && s.runMetabolicPowerWkg == Mean(PowerPerKgColumn(PhaseWindow(m, runPhase, windowS)))
      && s.speedMPerS == Mean(SpeedColumn(PhaseWindow(m, runPhase, windowS)))
  {
  }

  /** Bounds on the W/kg of the rest and run rows, and on the run speeds, bound
      the summary's means, and the net value by their spread. */
  lemma {:induction false} SummaryWithinPhaseRanges(rows: seq<Sample>, restPhase: string, runPhase: string, windowS: int,
                                 lo: real, hi: real, slo: real, shi: real)
    requires rows != [] && MassesNonZero(rows)
    requires forall i :: 0 <= i < |rows| && (rows[i].phase == restPhase || rows[i].phase == runPhase) ==>
      lo <= AddMetabolicColumns(rows)[i].powerWKg <= hi
    requires forall i :: 0 <= i < |rows| && rows[i].phase == runPhase ==> slo <= rows[i].speedMPerS <= shi
    ensures var s := SummarizeSubject(rows, restPhase, runPhase, windowS);
      && (s.restMetabolicPowerWkg.Some? ==> lo <= s.restMetabolicPowerWkg.value <= hi)
      && (s.runMetabolicPowerWkg.Some? ==> lo <= s.runMetabolicPowerWkg.value <= hi)
      && (s.netMetabolicPowerWkg.Some? ==> lo - hi <= s.netMetabolicPowerWkg.value <= hi - lo)
      && (s.speedMPerS.Some? ==> slo <= s.speedMPerS.value <= shi)
  {
    var m := AddMetabolicColumns(rows);
    var restWin := PhaseWindow(m, restPhase, windowS);
    var runWin := PhaseWindow(m, runPhase, windowS);
    PhaseWindowRows(m, restPhase, windowS);
    PhaseWindowRows(m, runPhase, windowS);
    forall x | x in restWin || x in runWin ensures lo <= x.powerWKg <= hi {
      var i :| 0 <= i < |m| && m[i] == x;
    }
    forall x | x in runWin ensures slo <= x.sample.speedMPerS <= shi {
      var i :| 0 <= i < |m| && m[i] == x;
    }
    var rc, uc, sc := PowerPerKgColumn(restWin), PowerPerKgColumn(runWin), SpeedColumn(runWin);
    forall k | 0 <= k < |rc| ensures lo <= rc[k] <= hi {
      assert restWin[k] in restWin;
    }
    forall k | 0 <= k < |uc| ensures lo <= uc[k] <= hi && slo <= sc[k] <= shi {
      assert runWin[k] in runWin;
    }
    MeanBounds(rc, lo, hi);
    MeanBounds(uc, lo, hi);
    MeanBounds(sc, slo, shi);
  }

  /** Only the rows labelled exactly with the rest or run phase contribute:
      tables with the same first subject id and the same rest and run rows
      have the same summary. */
  lemma {:induction false} OnlyPhaseRowsContribute(rows: seq<Sample>, rows': seq<Sample>,
                                restPhase: string, runPhase: string, windowS: int)
    requires rows != [] && MassesNonZero(rows)
    requires rows' != [] && MassesNonZero(rows')
    requires rows[0].subjectId == rows'[0].subjectId
    requires Filter(rows, SamplePhaseIs(restPhase)) == Filter(rows', SamplePhaseIs(restPhase))
    requires Filter(rows, SamplePhaseIs(runPhase)) == Filter(rows', SamplePhaseIs(runPhase))
    ensures SummarizeSubject(rows, restPhase, runPhase, windowS)
         == SummarizeSubject(rows', restPhase, runPhase, windowS)
  {
    AddMetabolicColumnsCommutesWithPhase(rows, restPhase);
    AddMetabolicColumnsCommutesWithPhase(rows, runPhase);
    AddMetabolicColumnsCommutesWithPhase(rows', restPhase);
    AddMetabolicColumnsCommutesWithPhase(rows', runPhase);
  }
}
