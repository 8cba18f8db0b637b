// The date-range additional surcharge over IEX excess (test_surcharge.py):
// four tariff-order periods, each with a rate per kWh; the IEX excess of
// the report rows dated inside a period is summed, rounded half away from
// zero and charged at that period's rate.

module Surcharge {
  import opened Wrappers
  import Tables
  import Calendar

  /** One report row: its parsed `Slot_Date` (`None` when unreadable, `NaT`) and its IEX excess. */
  datatype Entry = Entry(date: Option<Calendar.Date>, iex: real)

  /** The report's rows and which of the two columns the computation reads it has. */
  datatype Report = Report(rows: seq<Entry>, hasDates: bool, hasIex: bool)

  /** A tariff-order period: first and last day (both inclusive), rate and order reference. */
  datatype Period = Period(start: Calendar.Date, end: Calendar.Date, rate: real, note: string)

  /** One breakdown entry: the period, its rounded IEX sum and the amount it adds. */
  datatype Component = Component(period: Period, iexSum: int, amount: real)

  /** The surcharge and its breakdown. */
  datatype Outcome = Outcome(total: real, breakdown: seq<Component>)

  /** The surcharge periods, in table order. */
  const Periods: seq<Period> := [
    Period(Calendar.Date(2021, 4, 16), Calendar.Date(2022, 3, 31), 0.70, "TNERC M.P.No.18 of 2020 dt.15.04.2021"),
    Period(Calendar.Date(2023, 2, 25), Calendar.Date(2023, 3, 31), 0.83, "TNERC M.P.No.32 of 2021 dt.08.02.2022"),
    Period(Calendar.Date(2024, 12, 12), Calendar.Date(2025, 3, 31), 0.54, "TNERC M.P.No.44 of 2024 dt.12.12.2024"),
    Period(Calendar.Date(2025, 4, 29), Calendar.Date(2025, 9, 30), 0.10, "TNERC M.P.No.13 of 2025 dt.29.04.2025")
  ]

  // ---------------------------------------------------------------------
  // Rounding
  // ---------------------------------------------------------------------

  /** Python's `int()` on a real: truncation toward zero. */
  function Trunc(x: real): (n: int)
    ensures x >= 0.0 ==> n as real <= x < n as real + 1.0
    ensures x < 0.0 ==> n as real - 1.0 < x <= n as real
  {
    if x >= 0.0 then x.Floor else -((-x).Floor)
  }

  /** `int(x + 0.5)` for non-negative `x`, `int(x - 0.5)` otherwise. */
  function RoundHalfAway(x: real): (n: int)
    ensures x >= 0.0 ==> n >= 0 && -0.5 <= x - n as real < 0.5
    ensures x < 0.0 ==> n <= 0 && -0.5 < x - n as real <= 0.5
  {
    if x >= 0.0 then Trunc(x + 0.5) else Trunc(x - 0.5)
  }

  /** Rounding is symmetric about zero, so halves go away from zero on both sides. */
  lemma RoundOdd(x: real)
    ensures RoundHalfAway(-x) == -RoundHalfAway(x)
  {
    if x > 0.0 {
      assert RoundHalfAway(-x) == -((x + 0.5).Floor);
    }
  }

  /** A half rounds to the integer farther from zero. */
  lemma RoundHalf(k: nat)
    ensures RoundHalfAway(k as real + 0.5) == k + 1
    ensures RoundHalfAway(-(k as real) - 0.5) == -(k + 1)
  {
    RoundOdd(k as real + 0.5);
  }

  /** Whole numbers are left alone. */
  lemma RoundWhole(n: int)
    ensures RoundHalfAway(n as real) == n
  {
  }

  // ---------------------------------------------------------------------
  // Periods and masks
  // ---------------------------------------------------------------------

  /** `start <= date <= end`; an unreadable date compares false and is in no period. */
  predicate InPeriod(p: Period, e: Entry) {
    e.date.Some? && Calendar.DateLe(p.start, e.date.value) && Calendar.DateLe(e.date.value, p.end)
  }

  function Mask(p: Period): (m: Entry -> bool)
    ensures forall e :: m(e) == InPeriod(p, e)
  {
    e => InPeriod(p, e)
  }

  function IexOf(e: Entry): real { e.iex }

  function AmountOf(c: Component): real { c.amount }

  /** Each period ends before the next one starts. */
  predicate Ascending(ps: seq<Period>) {
    forall i, j :: 0 <= i < j < |ps| ==> Calendar.DateLt(ps[i].end, ps[j].start)
  }

  /** Every period is a non-empty span of days. */
  predicate Spans(ps: seq<Period>) {
    forall i :: 0 <= i < |ps| ==> Calendar.DateLe(ps[i].start, ps[i].end)
  }

  lemma PeriodsAscending()
    ensures Ascending(Periods) && Spans(Periods)
  {
  }

  /** Ascending periods are disjoint: a date lies in at most one of them. */
  lemma AtMostOnePeriod(ps: seq<Period>, e: Entry, i: nat, j: nat)
    requires Ascending(ps) && i < |ps| && j < |ps|
    requires InPeriod(ps[i], e) && InPeriod(ps[j], e)
    ensures i == j
  {
  }

  // ---------------------------------------------------------------------
  // Components
  // ---------------------------------------------------------------------

  /** A period adds an entry when some row is dated in it and the excess column exists. */
  predicate Hits(r: Report, p: Period) {
    (exists i :: 0 <= i < |r.rows| && InPeriod(p, r.rows[i])) && r.hasIex
  }

  /** The rows of `r` dated in `p`. */
  function InPeriodRows(r: Report, p: Period): (rows: seq<Entry>)
    ensures forall i :: 0 <= i < |rows| ==> InPeriod(p, rows[i])
    ensures |rows| > 0 <==> exists i :: 0 <= i < |r.rows| && InPeriod(p, r.rows[i])
  {
    var rows := Tables.Filter(r.rows, Mask(p));
    Tables.FilterMembers(r.rows, Mask(p));
    assert |rows| > 0 ==> exists i :: 0 <= i < |r.rows| && InPeriod(p, r.rows[i]) by {
      if |rows| > 0 {
        assert rows[0] in rows;
        var i :| 0 <= i < |r.rows| && r.rows[i] == rows[0];
      }
    }
    rows
  }

  /** `iex_sum * rate`. */
  function Charge(n: int, rate: real): real { n as real * rate }

  /** The period's entry: its rows' IEX excess rounded half away from zero, times the rate. */
  function ComponentOf(r: Report, p: Period): (c: Component)
    ensures c.period == p && c.amount == Charge(c.iexSum, p.rate)
    ensures c.iexSum as real - 0.5 <= Tables.Sum(InPeriodRows(r, p), IexOf) <= c.iexSum as real + 0.5
  {
    var n := RoundHalfAway(Tables.Sum(InPeriodRows(r, p), IexOf));
    Component(p, n, Charge(n, p.rate))
  }

  /** The entry `p` adds to the breakdown: one when it is hit, none otherwise. */
  function EntryFor(r: Report, p: Period): (cs: seq<Component>)
    ensures |cs| <= 1 && (|cs| == 1 <==> Hits(r, p))
  {
    if Hits(r, p) then [ComponentOf(r, p)] else []
  }

  /** The breakdown over `ps`: each period's entry, in the order of `ps`. */
  function Components(r: Report, ps: seq<Period>): (cs: seq<Component>)
    ensures |cs| <= |ps|
    decreases |ps|
  {
    if |ps| == 0 then []
    else
      EntryFor(r, ps[0]) + Components(r, ps[1..])
  }

  /** Each breakdown entry is the entry of a period of `ps` that is hit. */
  lemma {:induction false} ComponentsSound(r: Report, ps: seq<Period>)
    ensures forall i :: 0 <= i < |Components(r, ps)| ==>
      var c := Components(r, ps)[i]; c.period in ps && Hits(r, c.period) && c == ComponentOf(r, c.period)
    decreases |ps|
  {
    if |ps| > 0 {
      var cs := Components(r, ps);
      var head := EntryFor(r, ps[0]);
      var rest := Components(r, ps[1..]);
      assert cs == head + rest;
      ComponentsSound(r, ps[1..]);
      forall i | 0 <= i < |cs| ensures cs[i].period in ps && Hits(r, cs[i].period) && cs[i] == ComponentOf(r, cs[i].period) {
        if i >= |head| {
          assert cs[i] == rest[i - |head|];
          var k :| 0 <= k < |ps[1..]| && ps[1..][k] == cs[i].period;
          assert ps[k + 1] == cs[i].period;
        }
      }
    }
  }

  /** Every period that is hit has its entry in the breakdown. */
  lemma {:induction false} ComponentsComplete(r: Report, ps: seq<Period>, p: Period)
    requires p in ps && Hits(r, p)
    ensures exists i :: 0 <= i < |Components(r, ps)| && Components(r, ps)[i].period == p
    decreases |ps|
  {
    var cs := Components(r, ps);
    var head := EntryFor(r, ps[0]);
    var rest := Components(r, ps[1..]);
    assert cs == head + rest;
    if p == ps[0] {
      assert cs[0].period == p;
    } else {
      assert p in ps[1..];
      ComponentsComplete(r, ps[1..], p);
      var i :| 0 <= i < |rest| && rest[i].period == p;
      assert cs[|head| + i] == rest[i];
    }
  }

  /** The periods a breakdown names, in its order. */
  function PeriodsOf(cs: seq<Component>): (ps: seq<Period>)
    ensures |ps| == |cs| && forall i :: 0 <= i < |cs| ==> ps[i] == cs[i].period
  {
    seq(|cs|, i requires 0 <= i < |cs| => cs[i].period)
  }

  function HitMask(r: Report): (m: Period -> bool)
    ensures forall p :: m(p) == Hits(r, p)
  {
    p => Hits(r, p)
  }

  /**
   * The breakdown names exactly the periods that are hit, in table order:
   * it is the table filtered by `Hits`.
   */
  lemma {:induction false} ComponentsInOrder(r: Report, ps: seq<Period>)
    ensures PeriodsOf(Components(r, ps)) == Tables.Filter(ps, HitMask(r))
    decreases |ps|
  {
    if |ps| > 0 {
      ComponentsInOrder(r, ps[1..]);
      var head := EntryFor(r, ps[0]);
      var rest := Components(r, ps[1..]);
      assert PeriodsOf(head) == if Hits(r, ps[0]) then [ps[0]] else [];
      PeriodsOfAppend(head, rest);
      Tables.FilterCons(ps, HitMask(r));
    }
  }

  lemma PeriodsOfAppend(a: seq<Component>, b: seq<Component>)
    ensures PeriodsOf(a + b) == PeriodsOf(a) + PeriodsOf(b)
  {
  }

  /** The breakdown of one more period extends the breakdown so far. */
  lemma {:induction false} ComponentsAppend(r: Report, ps: seq<Period>, p: Period)
    ensures Components(r, ps + [p]) == Components(r, ps) + EntryFor(r, p)
    decreases |ps|
  {
    if |ps| == 0 {
      assert ps + [p] == [p];
      assert [p][1..] == [];
    } else {
      assert (ps + [p])[1..] == ps[1..] + [p];
      assert (ps + [p])[0] == ps[0];
      ComponentsAppend(r, ps[1..], p);
    }
  }

  /**
   * The surcharge and its breakdown over the fixed periods; a report
   * without a date column raises inside the `try` and yields nothing.
   */
  function SurchargeOf(r: Report): (o: Outcome)
    ensures !r.hasDates ==> o == Outcome(0.0, [])
    ensures r.hasDates ==> o.breakdown == Components(r, Periods)
    ensures o.total == Tables.Sum(o.breakdown, AmountOf)
  {
    if !r.hasDates then Outcome(0.0, [])
    else
      var cs := Components(r, Periods);
      Outcome(Tables.Sum(cs, AmountOf), cs)
  }

  /** The loop over `ps`: each entry appended and its amount added, in turn. */
  method Accumulate(r: Report, ps: seq<Period>) returns (total: real, breakdown: seq<Component>)
    ensures breakdown == Components(r, ps)
    ensures total == Tables.Sum(breakdown, AmountOf)
  {
    total := 0.0;
    breakdown := [];
    var k := 0;
    while k < |ps|
      invariant 0 <= k <= |ps|
      invariant breakdown == Components(r, ps[..k])
      invariant total == Tables.Sum(breakdown, AmountOf)
    {
      var p := ps[k];
      AccumulateStep(r, ps, k, breakdown);
      if Hits(r, p) {
        var c := ComponentOf(r, p);
        breakdown := breakdown + [c];
        total := total + c.amount;
      }
      k := k + 1;
    }
    assert ps[..k] == ps;
  }

  /** One turn of the loop: the next period's entry extends the breakdown and adds its amount. */
  lemma AccumulateStep(r: Report, ps: seq<Period>, k: nat, breakdown: seq<Component>)
    requires k < |ps| && breakdown == Components(r, ps[..k])
    ensures Components(r, ps[..k + 1]) == breakdown + (if Hits(r, ps[k]) then [ComponentOf(r, ps[k])] else [])
    ensures Tables.Sum(breakdown + [ComponentOf(r, ps[k])], AmountOf)
      == Tables.Sum(breakdown, AmountOf) + ComponentOf(r, ps[k]).amount
  {
    ComponentsAppend(r, ps[..k], ps[k]);
    assert ps[..k + 1] == ps[..k] + [ps[k]];
    Tables.SumAppend(breakdown, [ComponentOf(r, ps[k])], AmountOf);
  }

  /**
   * `compute_additional_surcharge`: the loop over the fixed periods, or
   * nothing when the report has no date column.
   */
  method ComputeSurcharge(r: Report) returns (total: real, breakdown: seq<Component>)
    ensures Outcome(total, breakdown) == SurchargeOf(r)
  {
    if !r.hasDates {
      return 0.0, [];
    }
    total, breakdown := Accumulate(r, Periods);
  }

  // ---------------------------------------------------------------------
  // The worked example
  // ---------------------------------------------------------------------

  /** Five rows over two 2021 days, two 2023 days and one 2024 day. */
  const SampleRows: seq<Entry> := [
    Entry(Some(Calendar.Date(2021, 4, 16)), 1000.0),
    Entry(Some(Calendar.Date(2021, 4, 17)), 500.0),
    Entry(Some(Calendar.Date(2023, 3, 1)), 200.0),
    Entry(Some(Calendar.Date(2023, 2, 26)), 800.0),
    Entry(Some(Calendar.Date(2024, 12, 15)), 1200.0)
  ]

  const Sample: Report := Report(SampleRows, true, true)

  /** Of the sample, the 2021 period holds the first two rows. */
  lemma SampleFirstPeriod()
    ensures InPeriodRows(Sample, Periods[0]) == SampleRows[..2]
  {
    var m := Mask(Periods[0]);
    assert Tables.Filter(SampleRows[4..], m) == [];
    assert Tables.Filter(SampleRows[3..], m) == [];
    assert Tables.Filter(SampleRows[2..], m) == [];
    assert Tables.Filter(SampleRows[1..], m) == [SampleRows[1]];
  }

  /** Of the sample, the 2023 period holds the third and fourth rows. */
  lemma SampleSecondPeriod()
    ensures InPeriodRows(Sample, Periods[1]) == SampleRows[2..4]
  {
    var m := Mask(Periods[1]);
    assert Tables.Filter(SampleRows[4..], m) == [];
    assert Tables.Filter(SampleRows[3..], m) == [SampleRows[3]];
    assert Tables.Filter(SampleRows[2..], m) == [SampleRows[2], SampleRows[3]];
    assert Tables.Filter(SampleRows[1..], m) == [SampleRows[2], SampleRows[3]];
  }

  /** Of the sample, the 2024-25 period holds the last row. */
  lemma SampleThirdPeriod()
    ensures InPeriodRows(Sample, Periods[2]) == SampleRows[4..]
  {
    var m := Mask(Periods[2]);
    assert Tables.Filter(SampleRows[4..], m) == [SampleRows[4]];
    assert Tables.Filter(SampleRows[3..], m) == [SampleRows[4]];
    assert Tables.Filter(SampleRows[2..], m) == [SampleRows[4]];
    assert Tables.Filter(SampleRows[1..], m) == [SampleRows[4]];
  }

  /** No sample row is dated in the 2025 period. */
  lemma SampleFourthPeriod()
    ensures !Hits(Sample, Periods[3])
  {
  }

  /** A period whose rows' IEX excess sums to a whole number charges exactly that number. */
  lemma WholeEntry(r: Report, p: Period, n: int)
    requires r.hasIex && |InPeriodRows(r, p)| > 0
    requires Tables.Sum(InPeriodRows(r, p), IexOf) == n as real
    ensures EntryFor(r, p) == [Component(p, n, Charge(n, p.rate))]
  {
    RoundWhole(n);
  }

  /** The sample's 2021 entry: 1000 + 500 kWh. */
  lemma SampleFirstEntry()
    ensures EntryFor(Sample, Periods[0]) == [Component(Periods[0], 1500, Charge(1500, 0.70))]
  {
    SampleFirstPeriod();
    assert Tables.Sum(SampleRows[..2], IexOf) == 1500.0;
    WholeEntry(Sample, Periods[0], 1500);
  }

  /** The sample's 2023 entry: 200 + 800 kWh. */
  lemma SampleSecondEntry()
    ensures EntryFor(Sample, Periods[1]) == [Component(Periods[1], 1000, Charge(1000, 0.83))]
  {
    SampleSecondPeriod();
    assert Tables.Sum(SampleRows[2..4], IexOf) == 1000.0;
    WholeEntry(Sample, Periods[1], 1000);
  }

  /** The sample's 2024-25 entry: 1200 kWh. */
  lemma SampleThirdEntry()
    ensures EntryFor(Sample, Periods[2]) == [Component(Periods[2], 1200, Charge(1200, 0.54))]
  {
    SampleThirdPeriod();
    assert Tables.Sum(SampleRows[4..], IexOf) == 1200.0;
    WholeEntry(Sample, Periods[2], 1200);
  }

  /** The sample's three entries: the rows' IEX sums are whole, so rounding keeps them. */
  lemma SampleEntries()
    ensures EntryFor(Sample, Periods[0]) == [Component(Periods[0], 1500, Charge(1500, 0.70))]
    ensures EntryFor(Sample, Periods[1]) == [Component(Periods[1], 1000, Charge(1000, 0.83))]
    ensures EntryFor(Sample, Periods[2]) == [Component(Periods[2], 1200, Charge(1200, 0.54))]
    ensures EntryFor(Sample, Periods[3]) == []
  {
    SampleFirstEntry();
    SampleSecondEntry();
    SampleThirdEntry();
    SampleFourthPeriod();
  }

  /** The breakdown of the sample: 1500, 1000 and 1200 kWh at 0.70, 0.83 and 0.54. */
  lemma SampleBreakdown()
    ensures Components(Sample, Periods) ==
      [Component(Periods[0], 1500, Charge(1500, 0.70)), Component(Periods[1], 1000, Charge(1000, 0.83)),
       Component(Periods[2], 1200, Charge(1200, 0.54))]
  {
    SampleEntries();
    FourEntries(Sample, Periods);
  }

  /** The breakdown over four periods is their four entries in turn. */
  lemma FourEntries(r: Report, ps: seq<Period>)
    requires |ps| == 4
    ensures Components(r, ps) == EntryFor(r, ps[0]) + EntryFor(r, ps[1]) + EntryFor(r, ps[2]) + EntryFor(r, ps[3])
  {
    var e0, e1, e2, e3 := EntryFor(r, ps[0]), EntryFor(r, ps[1]), EntryFor(r, ps[2]), EntryFor(r, ps[3]);
    assert ps[3..][0] == ps[3] && ps[3..][1..] == [];
    assert Components(r, ps[3..]) == e3 + [];
    assert ps[2..][0] == ps[2] && ps[2..][1..] == ps[3..];
    assert Components(r, ps[2..]) == e2 + e3;
    assert ps[1..][0] == ps[1] && ps[1..][1..] == ps[2..];
    assert Components(r, ps[1..]) == e1 + (e2 + e3);
    assert Components(r, ps) == e0 + (e1 + (e2 + e3));
  }

  /**
   * On the sample the surcharge is 1500 x 0.70 + 1000 x 0.83 + 1200 x 0.54
   * = 2528, with three entries and none for the 2025 period.
   */
  lemma SampleSurcharge()
    ensures SurchargeOf(Sample).total == 2528.0
    ensures |SurchargeOf(Sample).breakdown| == 3
    ensures forall c :: c in SurchargeOf(Sample).breakdown ==> c.period != Periods[3]
  {
    SampleBreakdown();
    var cs := Components(Sample, Periods);
    assert cs[1..][1..][1..] == [];
    assert Tables.Sum(cs[1..][1..], AmountOf) == 648.0;
    assert Tables.Sum(cs[1..], AmountOf) == 830.0 + 648.0;
    assert Tables.Sum(cs, AmountOf) == 1050.0 + 830.0 + 648.0;
  }
}
