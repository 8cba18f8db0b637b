/**
 * The Streamlit handler (`process_and_generate`): the same selection and
 * join as the Flask handlers, but with the excess clamped at zero, textual
 * missing-side tags, 20 % / 10 % TOD surcharges instead of a bill, rows
 * sorted by date and start minute, a day-wise table with a per-day
 * surcharge, and up to three reports packed into one download.
 */
module StreamlitReport {
  import opened Wrappers
  import Tables
  import Calendar
  import Readings
  import Tod
  import SlotClock
  import Selections
  import opened Downloads

  const GenEmpty := "No data for the selected filter in the GENERATED file."
  const ConsEmpty := "No data for the selected filter in the CONSUMED file."
  const NeedYear := "Please either enter a year or enable auto-detect month and year."
  const NoDates := "Neither start nor end can be NaT"

  // ---------------------------------------------------------------------
  // Joined rows
  // ---------------------------------------------------------------------

  /** A joined slot with its clamped excess, missing-side tags and TOD category. */
  datatype Row = Row(key: Readings.Key, kwhGen: real, afterLoss: real, cons: real, excess: real,
                     missing: string, category: Tod.Category)


  function Annotate(s: Readings.Slot, genKeys: seq<Readings.Key>, consKeys: seq<Readings.Key>): (r: Row)
    ensures r.key == s.key && r.kwhGen == s.kwhGen && r.afterLoss == s.afterLoss && r.cons == s.cons
    ensures r.excess >= 0.0 && r.excess >= s.afterLoss - s.cons
    ensures r.excess > 0.0 ==> r.excess == s.afterLoss - s.cons
    ensures r.missing == Readings.MissingTags(s.key in genKeys, s.key in consKeys)
    ensures r.category == Tod.ClassifyLoose(s.key.time)
  {
    Row(s.key, s.kwhGen, s.afterLoss, s.cons, Readings.Clamp(s.afterLoss - s.cons),
        Readings.MissingTags(s.key in genKeys, s.key in consKeys), Tod.ClassifyLoose(s.key.time))
  }

  /**
   * The joined table over the union of the two key sets. Every excess is
   * non-negative, and a row is tagged missing on at most one side, exactly
   * when its key is absent from that side, which then contributes zeros.
   */
  function Rows(gs: seq<Readings.GenSlot>, cs: seq<Readings.ConsSlot>): (rows: seq<Row>)
    ensures |rows| == |Readings.Merge(gs, cs)|
    ensures forall i :: 0 <= i < |rows| ==> rows[i].key == Readings.Merge(gs, cs)[i].key
    ensures forall i :: 0 <= i < |rows| ==> rows[i].category == Tod.ClassifyLoose(rows[i].key.time)
    ensures forall i :: 0 <= i < |rows| ==> rows[i].excess >= 0.0
    ensures forall i :: 0 <= i < |rows| ==> rows[i].missing in {"", Readings.MissingGen, Readings.MissingCons}
    ensures forall i :: 0 <= i < |rows| ==> (rows[i].missing == Readings.MissingGen <==> rows[i].key !in Readings.GenKeys(gs))
    ensures forall i :: 0 <= i < |rows| ==> (rows[i].missing == Readings.MissingCons <==> rows[i].key !in Readings.ConsKeys(cs))
    ensures forall i :: 0 <= i < |rows| && rows[i].missing == Readings.MissingGen ==> rows[i].afterLoss == 0.0 && rows[i].kwhGen == 0.0
    ensures forall i :: 0 <= i < |rows| && rows[i].missing == Readings.MissingCons ==> rows[i].cons == 0.0
  {
    var merged := Readings.Merge(gs, cs);
    var gk := Readings.GenKeys(gs);
    var ck := Readings.ConsKeys(cs);
    seq(|merged|, i requires 0 <= i < |merged| => Annotate(merged[i], gk, ck))
  }

  function ExcessOf(r: Row): real { r.excess }
  function AfterLossOf(r: Row): real { r.afterLoss }
  function ConsOf(r: Row): real { r.cons }
  function InjectionOf(r: Row): real { r.kwhGen }
  function RowDate(r: Row): Calendar.Date { r.key.date }
  predicate PositiveExcess(r: Row) { r.excess > 0.0 }

  // ---------------------------------------------------------------------
  // Ordering
  // ---------------------------------------------------------------------

  /** `sort_values(['Slot_Date_dt', 'Slot_Time_min'])` */
  function SortKey(r: Row): seq<int> {
    Readings.SlotRank(r.key)
  }

  /** Rows in date order, and within a date by the minute the slot starts. */
  function SortRows(rows: seq<Row>): (sorted: seq<Row>)
    ensures multiset(sorted) == multiset(rows)
    ensures forall i, j :: 0 <= i < j < |sorted| ==> Calendar.DateLe(sorted[i].key.date, sorted[j].key.date)
    ensures forall i, j :: 0 <= i < j < |sorted| && sorted[i].key.date == sorted[j].key.date ==>
      SlotClock.SlotMinutes(sorted[i].key.time) <= SlotClock.SlotMinutes(sorted[j].key.time)
  {
    var sorted := Tables.SortBy(rows, SortKey);
    forall i, j | 0 <= i < j < |sorted|
      ensures Calendar.DateLe(sorted[i].key.date, sorted[j].key.date)
      ensures sorted[i].key.date == sorted[j].key.date ==>
        SlotClock.SlotMinutes(sorted[i].key.time) <= SlotClock.SlotMinutes(sorted[j].key.time)
    {
      Readings.SlotRankOrder(sorted[i].key, sorted[j].key);
    }
    sorted
  }

  // ---------------------------------------------------------------------
  // TOD surcharges and the summary
  // ---------------------------------------------------------------------

  function CategoryOf(r: Row): Tod.Category { r.category }

  /** One group of `groupby('TOD_Category')['Excess'].sum()`. */
  function CategoryTotal(rows: seq<Row>, k: Tod.Category): (t: real)
    ensures t == Tables.KeyTotal(rows, CategoryOf, ExcessOf, k)
  {
    Tables.Sum(Tables.Filter(rows, Tables.KeyIs(CategoryOf, k)), ExcessOf)
  }

  /** The surcharge rate of a category: 20 % on C1 and C2, 10 % on C5, none otherwise. */
  function Rate(k: Tod.Category): real {
    match k
    case C1 => 0.20
    case C2 => 0.20
    case C5 => 0.10
    case _ => 0.0
  }

  function SurchargeOf(r: Row): real { Rate(CategoryOf(r)) * r.excess }

  /** C1+C2 additional plus C5 additional, from the category groups. */
  function Additional(rows: seq<Row>): real {
    (CategoryTotal(rows, Tod.C1) + CategoryTotal(rows, Tod.C2)) * 0.20 + CategoryTotal(rows, Tod.C5) * 0.10
  }

  const Categories: seq<Tod.Category> := [Tod.C1, Tod.C2, Tod.C4, Tod.C5, Tod.Unknown]

  /** Every category is one of the five listed. */
  lemma CategoryListed(c: Tod.Category)
    ensures c in Categories
  {
    match c {
      case C1 => assert Categories[0] == c;
      case C2 => assert Categories[1] == c;
      case C4 => assert Categories[2] == c;
      case C5 => assert Categories[3] == c;
      case Unknown => assert Categories[4] == c;
    }
  }

  lemma CategoriesCover(rows: seq<Row>)
    ensures forall i :: 0 <= i < |rows| ==> CategoryOf(rows[i]) in Categories
  {
    forall i | 0 <= i < |rows| ensures CategoryOf(rows[i]) in Categories {
      CategoryListed(CategoryOf(rows[i]));
    }
  }

  /** A total over the five categories, written out. */
  lemma SumCategories(f: Tod.Category -> real)
    ensures Tables.Sum(Categories, f) == f(Tod.C1) + f(Tod.C2) + f(Tod.C4) + f(Tod.C5) + f(Tod.Unknown)
  {
    assert Categories[1..][1..][1..][1..][1..] == [];
  }

  /** The five categories are different from one another. */
  lemma CategoriesDistinct()
    ensures Tables.Distinct(Categories)
  {
  }

  /** `groupby('TOD_Category')` of the surcharge column: the five groups make up the whole. */
  lemma SurchargeByCategory(rows: seq<Row>)
    ensures Tables.Sum(rows, SurchargeOf) ==
      Tables.KeyTotal(rows, CategoryOf, SurchargeOf, Tod.C1) + Tables.KeyTotal(rows, CategoryOf, SurchargeOf, Tod.C2)
      + Tables.KeyTotal(rows, CategoryOf, SurchargeOf, Tod.C4) + Tables.KeyTotal(rows, CategoryOf, SurchargeOf, Tod.C5)
      + Tables.KeyTotal(rows, CategoryOf, SurchargeOf, Tod.Unknown)
  {
    CategoriesCover(rows);
    CategoriesDistinct();
    Tables.SumByKey(Categories, rows, CategoryOf, SurchargeOf);
    SumCategories(k => Tables.KeyTotal(rows, CategoryOf, SurchargeOf, k));
  }

  /** Within one category group the surcharge column is the rate times the excess. */
  lemma GroupSurcharge(rows: seq<Row>, k: Tod.Category)
    ensures Tables.KeyTotal(rows, CategoryOf, SurchargeOf, k) == Rate(k) * CategoryTotal(rows, k)
  {
    var g := Tables.Filter(rows, Tables.KeyIs(CategoryOf, k));
    forall i | 0 <= i < |g| ensures SurchargeOf(g[i]) == Rate(k) * ExcessOf(g[i]) {
      assert CategoryOf(g[i]) == k;
    }
    Tables.SumScale(g, ExcessOf, Rate(k), SurchargeOf);
  }

  /**
   * The category-wise surcharge equals the surcharge charged row by row at
   * each row's rate: C4 and Unknown rows add nothing.
   */
  lemma AdditionalByRow(rows: seq<Row>)
    ensures Additional(rows) == Tables.Sum(rows, SurchargeOf)
  {
    SurchargeByCategory(rows);
    GroupSurcharge(rows, Tod.C1);
    GroupSurcharge(rows, Tod.C2);
    GroupSurcharge(rows, Tod.C4);
    GroupSurcharge(rows, Tod.C5);
    GroupSurcharge(rows, Tod.Unknown);
  }

  /** A row's surcharge is at most a fifth of its excess, and never negative on non-negative excess. */
  lemma SurchargeBounds(r: Row)
    requires r.excess >= 0.0
    ensures 0.0 <= SurchargeOf(r) <= Fifth(r)
  {
    var k := Rate(r.category);
    assert 0.0 <= k <= 0.20;
    assert k * r.excess <= 0.20 * r.excess;
  }

  function Fifth(r: Row): real { 0.20 * r.excess }

  /** Row by row, the surcharges on non-negative excess total between none and a fifth of it. */
  lemma SurchargeSumBounds(rows: seq<Row>)
    requires forall i :: 0 <= i < |rows| ==> rows[i].excess >= 0.0
    ensures 0.0 <= Tables.Sum(rows, SurchargeOf) <= 0.20 * Tables.Sum(rows, ExcessOf)
  {
    forall i | 0 <= i < |rows|
      ensures 0.0 <= SurchargeOf(rows[i]) <= Fifth(rows[i])
    {
      SurchargeBounds(rows[i]);
    }
    Tables.SumNonNegative(rows, SurchargeOf);
    Tables.SumMonotone(rows, SurchargeOf, Fifth);
    Tables.SumScale(rows, ExcessOf, 0.20, Fifth);
  }

  /** On non-negative excess the surcharge is between none and 20 % of the excess. */
  lemma AdditionalBounds(rows: seq<Row>)
    requires forall i :: 0 <= i < |rows| ==> rows[i].excess >= 0.0
    ensures 0.0 <= Additional(rows) <= 0.20 * Tables.Sum(rows, ExcessOf)
  {
    AdditionalByRow(rows);
    SurchargeSumBounds(rows);
  }

  datatype Summary = Summary(
    injection: real, afterLoss: real, comparison: real, consumed: real, excess: real, status: string,
    c1c2Additional: real, c5Additional: real, totalAdditional: real, grandTotal: real)

  /** The summary block of a slot-wise report. */
  function Summarize(rows: seq<Row>): (s: Summary)
    ensures s.excess == Tables.Sum(rows, ExcessOf)
    ensures s.comparison == s.injection - s.afterLoss
    ensures s.status == "Excess" <==> s.excess > 0.0
    ensures s.totalAdditional == Tables.Sum(rows, SurchargeOf)
    ensures s.grandTotal == s.excess + s.totalAdditional
    ensures (forall i :: 0 <= i < |rows| ==> rows[i].excess >= 0.0) ==>
      0.0 <= s.excess <= s.grandTotal <= 1.2 * s.excess
  {
    var injection := Tables.Sum(rows, InjectionOf);
    var afterLoss := Tables.Sum(rows, AfterLossOf);
    var excess := Tables.Sum(rows, ExcessOf);
    var c1c2 := (CategoryTotal(rows, Tod.C1) + CategoryTotal(rows, Tod.C2)) * 0.20;
    var c5 := CategoryTotal(rows, Tod.C5) * 0.10;
    AdditionalByRow(rows);
    if forall i :: 0 <= i < |rows| ==> rows[i].excess >= 0.0 then
      AdditionalBounds(rows);
      Tables.SumNonNegative(rows, ExcessOf);
      Summary(injection, afterLoss, injection - afterLoss, Tables.Sum(rows, ConsOf), excess,
              if excess > 0.0 then "Excess" else "No Excess", c1c2, c5, c1c2 + c5, excess + (c1c2 + c5))
    else
      Summary(injection, afterLoss, injection - afterLoss, Tables.Sum(rows, ConsOf), excess,
              if excess > 0.0 then "Excess" else "No Excess", c1c2, c5, c1c2 + c5, excess + (c1c2 + c5))
  }

  /**
   * With clamped excess, the excess-only report carries the same excess and
   * the same surcharges as the all-slots report: the rows it drops are
   * exactly those with zero excess.
   */
  lemma ExcessOnlySameTotals(rows: seq<Row>)
    requires forall i :: 0 <= i < |rows| ==> rows[i].excess >= 0.0
    ensures Tables.Sum(Tables.Filter(rows, PositiveExcess), ExcessOf) == Tables.Sum(rows, ExcessOf)
    ensures Additional(Tables.Filter(rows, PositiveExcess)) == Additional(rows)
  {
    var kept := Tables.Filter(rows, PositiveExcess);
    forall i | 0 <= i < |rows| && !PositiveExcess(rows[i])
      ensures ExcessOf(rows[i]) == 0.0 && SurchargeOf(rows[i]) == 0.0
    {
    }
    Tables.SumFilterZero(rows, PositiveExcess, ExcessOf);
    Tables.SumFilterZero(rows, PositiveExcess, SurchargeOf);
    AdditionalByRow(rows);
    AdditionalByRow(kept);
  }

  // ---------------------------------------------------------------------
  // Day-wise table
  // ---------------------------------------------------------------------

  /** One row of the day-wise table: the day's totals and its surcharge. */
  datatype DayRow = DayRow(date: Calendar.Date, afterLoss: real, cons: real, excess: real, additional: real)

  /** One column of `groupby('Slot_Date')`, reindexed: 0 for a day without rows. */
  function DayTotal(rows: seq<Row>, d: Calendar.Date, f: Row -> real): (t: real)
    ensures t == Tables.KeyTotal(rows, RowDate, f, d)
    ensures (forall i :: 0 <= i < |rows| ==> rows[i].key.date != d) ==> t == 0.0
  {
    var group := Tables.Filter(rows, Tables.KeyIs(RowDate, d));
    assert (forall i :: 0 <= i < |rows| ==> rows[i].key.date != d) ==> group == [] by {
      if |group| > 0 {
        assert group[0] in multiset(group);
      }
    }
    Tables.Sum(group, f)
  }

  /**
   * The day's surcharge as the source builds it, from the day's category
   * groups: the same as charging each of the day's rows at its own rate.
   */
  function DayAdditional(rows: seq<Row>, d: Calendar.Date): (t: real)
    ensures t == Tables.KeyTotal(rows, RowDate, SurchargeOf, d)
  {
    var group := Tables.Filter(rows, Tables.KeyIs(RowDate, d));
    AdditionalByRow(group);
    Additional(group)
  }

  function DayRowOf(rows: seq<Row>, d: Calendar.Date): DayRow {
    DayRow(d, DayTotal(rows, d, AfterLossOf), DayTotal(rows, d, ConsOf), DayTotal(rows, d, ExcessOf),
           DayAdditional(rows, d))
  }

  function DayTable(rows: seq<Row>, days: seq<Calendar.Date>): (t: seq<DayRow>)
    ensures |t| == |days| && forall i :: 0 <= i < |days| ==> t[i] == DayRowOf(rows, days[i])
  {
    seq(|days|, i requires 0 <= i < |days| => DayRowOf(rows, days[i]))
  }

  function RowDates(rows: seq<Row>): (ds: seq<Calendar.Date>)
    ensures |ds| == |rows| && forall i :: 0 <= i < |rows| ==> ds[i] == rows[i].key.date
  {
    seq(|rows|, i requires 0 <= i < |rows| => rows[i].key.date)
  }

  /** The row dates `to_datetime` can read; `min()` and `max()` skip the rest. */
  function ValidRowDates(rows: seq<Row>): (ds: seq<Calendar.Date>)
    ensures forall d :: d in ds <==> Calendar.ValidDate(d) && d in RowDates(rows)
  {
    var ds := Tables.Filter(RowDates(rows), Calendar.ValidDate);
    Tables.FilterMembers(RowDates(rows), Calendar.ValidDate);
    ds
  }

  /** `date_range(datetime(y, m, 1), first of next month - 1 day)` */
  function MonthIndex(y: int, m: int): (days: Result<seq<Calendar.Date>>)
    ensures days.Ok? <==> Calendar.ValidMonth(m)
    ensures days.Ok? ==> Tables.Distinct(days.value)
    ensures days.Ok? ==> |days.value| == Calendar.LastDay(y, m)
    ensures days.Ok? ==> forall i :: 0 <= i < |days.value| ==> days.value[i] == Calendar.Date(y, m, i + 1)
  {
    if Calendar.ValidMonth(m) then
      Calendar.DaysUntilNextMonth(y, m, 1);
      Calendar.DaysUntilDistinct(Calendar.Date(y, m, 1), Calendar.NextMonthFirst(y, m));
      Ok(Calendar.DaysUntil(Calendar.Date(y, m, 1), Calendar.NextMonthFirst(y, m)))
    else
      Err(MonthRange)
  }

  const MonthRange := "month must be in 1..12"

  /**
   * The day index of the day-wise report: every day of the selected month
   * when both year and month are given; otherwise every day from the
   * earliest to the latest readable row date.
   */
  function DayIndex(rows: seq<Row>, sel: Selections.Selection): (days: Result<seq<Calendar.Date>>)
    ensures sel.year.Some? && sel.month.Some? ==> days == MonthIndex(sel.year.value, sel.month.value)
    ensures !(sel.year.Some? && sel.month.Some?) ==> days == RangeIndex(rows)
  {
    if sel.year.Some? && sel.month.Some? then MonthIndex(sel.year.value, sel.month.value)
    else RangeIndex(rows)
  }

  /**
   * `date_range(min, max)` over the readable row dates: the days from the
   * earliest to the latest, each once, so every readable row date among
   * them; no readable date at all is an error.
   */
  function RangeIndex(rows: seq<Row>): (days: Result<seq<Calendar.Date>>)
    ensures days.Ok? <==> exists i :: 0 <= i < |rows| && Calendar.ValidDate(rows[i].key.date)
    ensures days.Ok? ==> Tables.Distinct(days.value)
    ensures days.Ok? ==> forall d :: d in days.value <==>
      Calendar.ValidDate(d)
      && Calendar.DateLe(Calendar.MinDate(ValidRowDates(rows)), d)
      && Calendar.DateLe(d, Calendar.MaxDate(ValidRowDates(rows)))
    ensures days.Ok? ==> forall i :: 0 <= i < |rows| && Calendar.ValidDate(rows[i].key.date) ==>
      rows[i].key.date in days.value
  {
    var vs := ValidRowDates(rows);
    if |vs| == 0 then
      assert forall i :: 0 <= i < |rows| ==> !Calendar.ValidDate(rows[i].key.date) by {
        forall i | 0 <= i < |rows| ensures !Calendar.ValidDate(rows[i].key.date) {
          assert RowDates(rows)[i] == rows[i].key.date;
        }
      }
      Err(NoDates)
    else
      var lo := Calendar.MinDate(vs);
      var hi := Calendar.MaxDate(vs);
      var days := Calendar.DaysThrough(lo, hi);
      forall i | 0 <= i < |rows| && Calendar.ValidDate(rows[i].key.date)
        ensures rows[i].key.date in days
      {
        assert RowDates(rows)[i] == rows[i].key.date;
        var k :| 0 <= k < |vs| && vs[k] == rows[i].key.date;
      }
      assert exists i :: 0 <= i < |rows| && Calendar.ValidDate(rows[i].key.date) by {
        var i :| 0 <= i < |RowDates(rows)| && RowDates(rows)[i] == lo;
        assert rows[i].key.date == lo;
      }
      Ok(days)
  }

  /** Every row carries a real date. */
  predicate AllDated(rows: seq<Row>) {
    forall i :: 0 <= i < |rows| ==> Calendar.ValidDate(rows[i].key.date)
  }

  /** With a full month selected, every row is dated in it. */
  predicate WithinMonth(rows: seq<Row>, sel: Selections.Selection) {
    sel.year.Some? && sel.month.Some? ==> forall i :: 0 <= i < |rows| ==>
      rows[i].key.date.year == sel.year.value && rows[i].key.date.month == sel.month.value
  }

  /** The day-wise table: one row per indexed day with the sums of that day's rows. */
  function DayWise(rows: seq<Row>, sel: Selections.Selection): (t: Result<seq<DayRow>>)
    ensures t.Ok? <==> DayIndex(rows, sel).Ok?
    ensures t.Ok? ==> |t.value| == |DayIndex(rows, sel).value|
    ensures t.Ok? ==> forall i :: 0 <= i < |t.value| ==> t.value[i].date == DayIndex(rows, sel).value[i]
  {
    var days := DayIndex(rows, sel);
    if days.Ok? then Ok(DayTable(rows, days.value)) else Err(days.msg)
  }

  function DayAfterLoss(d: DayRow): real { d.afterLoss }
  function DayCons(d: DayRow): real { d.cons }
  function DayExcess(d: DayRow): real { d.excess }
  function DaySurcharge(d: DayRow): real { d.additional }

  /**
   * When every row's date is in the day index, the day-wise table keeps the
   * totals of all columns, the surcharge included.
   */
  lemma DayTableConserves(rows: seq<Row>, days: seq<Calendar.Date>)
    requires Tables.Distinct(days)
    requires forall i :: 0 <= i < |rows| ==> rows[i].key.date in days
    ensures Tables.Sum(DayTable(rows, days), DayAfterLoss) == Tables.Sum(rows, AfterLossOf)
    ensures Tables.Sum(DayTable(rows, days), DayCons) == Tables.Sum(rows, ConsOf)
    ensures Tables.Sum(DayTable(rows, days), DayExcess) == Tables.Sum(rows, ExcessOf)
    ensures Tables.Sum(DayTable(rows, days), DaySurcharge) == Additional(rows)
  {
    var t := DayTable(rows, days);
    Tables.SumCorrespond(t, DayAfterLoss, days, k => Tables.KeyTotal(rows, RowDate, AfterLossOf, k));
    Tables.SumByKey(days, rows, RowDate, AfterLossOf);
    Tables.SumCorrespond(t, DayCons, days, k => Tables.KeyTotal(rows, RowDate, ConsOf, k));
    Tables.SumByKey(days, rows, RowDate, ConsOf);
    Tables.SumCorrespond(t, DayExcess, days, k => Tables.KeyTotal(rows, RowDate, ExcessOf, k));
    Tables.SumByKey(days, rows, RowDate, ExcessOf);
    Tables.SumCorrespond(t, DaySurcharge, days, k => Tables.KeyTotal(rows, RowDate, SurchargeOf, k));
    Tables.SumByKey(days, rows, RowDate, SurchargeOf);
    AdditionalByRow(rows);
  }

  /**
   * The day-wise totals add up to the report's totals when every row has a
   * real date and, with a full month selected, lies in that month.
   */
  lemma DayWiseConserves(rows: seq<Row>, sel: Selections.Selection)
    requires DayWise(rows, sel).Ok?
    requires AllDated(rows) && WithinMonth(rows, sel)
    ensures Tables.Sum(DayWise(rows, sel).value, DayAfterLoss) == Tables.Sum(rows, AfterLossOf)
    ensures Tables.Sum(DayWise(rows, sel).value, DayCons) == Tables.Sum(rows, ConsOf)
    ensures Tables.Sum(DayWise(rows, sel).value, DayExcess) == Tables.Sum(rows, ExcessOf)
    ensures Tables.Sum(DayWise(rows, sel).value, DaySurcharge) == Additional(rows)
  {
    var days := DayIndex(rows, sel).value;
    DayIndexCovers(rows, sel);
    assert DayWise(rows, sel).value == DayTable(rows, days);
    DayTableConserves(rows, days);
  }

  /**
   * Every row is dated on one of the indexed days when the rows have real
   * dates and, with a full month selected, lie in that month.
   */
  lemma DayIndexCovers(rows: seq<Row>, sel: Selections.Selection)
    requires DayIndex(rows, sel).Ok?
    requires AllDated(rows) && WithinMonth(rows, sel)
    ensures Tables.Distinct(DayIndex(rows, sel).value)
    ensures forall i :: 0 <= i < |rows| ==> rows[i].key.date in DayIndex(rows, sel).value
  {
    if sel.year.Some? && sel.month.Some? {
      var days := MonthIndex(sel.year.value, sel.month.value).value;
      MonthRowsIndexed(rows, days, sel.year.value, sel.month.value);
    }
  }

  /** A row dated in the month is listed among the month's days. */
  lemma MonthRowsIndexed(rows: seq<Row>, days: seq<Calendar.Date>, y: int, m: int)
    requires forall i :: 0 <= i < |days| ==> days[i] == Calendar.Date(y, m, i + 1)
    requires |days| == Calendar.LastDay(y, m)
    requires forall i :: 0 <= i < |rows| ==> Calendar.ValidDate(rows[i].key.date)
    requires forall i :: 0 <= i < |rows| ==> rows[i].key.date.year == y && rows[i].key.date.month == m
    ensures forall i :: 0 <= i < |rows| ==> rows[i].key.date in days
  {
    forall i | 0 <= i < |rows| ensures rows[i].key.date in days {
      var d := rows[i].key.date;
      assert days[d.day - 1] == d;
    }
  }

  // ---------------------------------------------------------------------
  // Reports and the download
  // ---------------------------------------------------------------------

  /** The content of a report; its page layout is not modelled. */
  datatype Pdf =
    | SlotPdf(rows: seq<Row>, summary: Summary)
    | DayPdf(days: seq<DayRow>, summary: Summary)

  /** A report under its file name. */
  datatype File = File(kind: ReportKind, pdf: Pdf) {
    function Name(): string { FileName(kind) }
  }

  function Kinds(files: seq<File>): (ks: seq<ReportKind>)
    ensures |ks| == |files| && forall i :: 0 <= i < |files| ==> ks[i] == files[i].kind
  {
    seq(|files|, i requires 0 <= i < |files| => files[i].kind)
  }

  /** Every excess in the table is non-negative, as the clamp guarantees. */
  predicate NonNegative(rows: seq<Row>) {
    forall i :: 0 <= i < |rows| ==> rows[i].excess >= 0.0
  }

  /**
   * A report's summary speaks for the whole table: with non-negative excess
   * its excess and surcharge are those of all rows, whichever rows it lists.
   */
  predicate SummaryOfAll(f: File, rows: seq<Row>) {
    f.pdf.summary.excess == Tables.Sum(rows, ExcessOf)
    && f.pdf.summary.totalAdditional == Tables.Sum(rows, SurchargeOf)
  }

  /** The day-wise report's days add up to its summary. */
  predicate DaysAddUp(f: File) {
    f.pdf.DayPdf? ==>
      Tables.Sum(f.pdf.days, DayExcess) == f.pdf.summary.excess
      && Tables.Sum(f.pdf.days, DaySurcharge) == f.pdf.summary.totalAdditional
  }

  /** With a full month selected, the day-wise report lists each of its days in order. */
  predicate MonthListed(f: File, sel: Selections.Selection) {
    f.pdf.DayPdf? && sel.year.Some? && sel.month.Some? ==>
      |f.pdf.days| == Calendar.LastDay(sel.year.value, sel.month.value)
      && forall i :: 0 <= i < |f.pdf.days| ==>
        f.pdf.days[i].date == Calendar.Date(sel.year.value, sel.month.value, i + 1)
  }

  /** Only rows with positive excess appear in the excess-only report. */
  predicate ExcessRowsOnly(f: File) {
    f.kind == ExcessOnly ==> f.pdf.SlotPdf? && forall i :: 0 <= i < |f.pdf.rows| ==> f.pdf.rows[i].excess > 0.0
  }

  /** The excess-only report: the rows with positive excess and their summary. */
  function ExcessFile(rows: seq<Row>, sel: Selections.Selection): (f: File)
    ensures f.kind == ExcessOnly && ExcessRowsOnly(f) && DaysAddUp(f) && MonthListed(f, sel)
    ensures NonNegative(rows) ==> SummaryOfAll(f, rows)
  {
    var excess := Tables.Filter(rows, PositiveExcess);
    var f := File(ExcessOnly, SlotPdf(excess, Summarize(excess)));
    assert NonNegative(rows) ==> SummaryOfAll(f, rows) by {
      if NonNegative(rows) {
        ExcessOnlySameTotals(rows);
        AdditionalByRow(rows);
        AdditionalByRow(excess);
      }
    }
    f
  }

  /** The all-slots report: every row and their summary. */
  function AllSlotsFile(rows: seq<Row>, sel: Selections.Selection): (f: File)
    ensures f.kind == AllSlots && ExcessRowsOnly(f) && DaysAddUp(f) && SummaryOfAll(f, rows) && MonthListed(f, sel)
    ensures f.pdf.SlotPdf? && f.pdf.rows == rows
  {
    File(AllSlots, SlotPdf(rows, Summarize(rows)))
  }

  /** The day-wise report: the day table and the summary of every row. */
  function DayFile(rows: seq<Row>, sel: Selections.Selection, days: seq<DayRow>): (f: File)
    requires DayWise(rows, sel) == Ok(days)
    ensures f.kind == DayWiseReport && ExcessRowsOnly(f) && SummaryOfAll(f, rows) && MonthListed(f, sel)
    ensures AllDated(rows) && WithinMonth(rows, sel) ==> DaysAddUp(f)
  {
    var f := File(DayWiseReport, DayPdf(days, Summarize(rows)));
    assert AllDated(rows) && WithinMonth(rows, sel) ==> DaysAddUp(f) by {
      if AllDated(rows) && WithinMonth(rows, sel) {
        DayWiseConserves(rows, sel);
        AdditionalByRow(rows);
      }
    }
    f
  }

  /** A property of every file of a list. */
  predicate Each(files: seq<File>, rows: seq<Row>, sel: Selections.Selection) {
    forall i :: 0 <= i < |files| ==>
      ExcessRowsOnly(files[i])
      && (NonNegative(rows) ==> SummaryOfAll(files[i], rows))
      && (AllDated(rows) && WithinMonth(rows, sel) ==> DaysAddUp(files[i]))
      && MonthListed(files[i], sel)
  }

  /** The report `f` when it is asked for, else nothing. */
  function IfAsked(ask: bool, f: File): (fs: seq<File>)
    ensures Kinds(fs) == if ask then [f.kind] else []
  {
    if ask then [f] else []
  }

  /** The day-wise report when it is asked for and its day index exists. */
  function IfDayWise(rows: seq<Row>, sel: Selections.Selection, ask: bool): (fs: seq<File>)
    ensures Kinds(fs) == if ask && DayWise(rows, sel).Ok? then [DayWiseReport] else []
    ensures Each(fs, rows, sel)
  {
    var t := DayWise(rows, sel);
    if ask && t.Ok? then [DayFile(rows, sel, t.value)] else []
  }

  /**
   * The reports asked for, in order. The excess-only report keeps the rows
   * with positive excess, the other two all rows; the day-wise one fails
   * when its day index does.
   */
  function Reports(rows: seq<Row>, sel: Selections.Selection, o: Options): (files: Result<seq<File>>)
    ensures files.Ok? <==> !o.daywise || DayWise(rows, sel).Ok?
  {
    var t := DayWise(rows, sel);
    if o.daywise && t.Err? then Err(t.msg)
    else
      Ok(IfAsked(o.excessOnly, ExcessFile(rows, sel)) + IfAsked(o.allSlots, AllSlotsFile(rows, sel))
         + IfDayWise(rows, sel, o.daywise))
  }

  /** The reports come in the fixed order, each one asked for. */
  lemma ReportsInOrder(rows: seq<Row>, sel: Selections.Selection, o: Options)
    requires Reports(rows, sel, o).Ok?
    ensures Kinds(Reports(rows, sel, o).value) == Wanted(o)
  {
    var e := IfAsked(o.excessOnly, ExcessFile(rows, sel));
    var a := IfAsked(o.allSlots, AllSlotsFile(rows, sel));
    var d := IfDayWise(rows, sel, o.daywise);
    assert Reports(rows, sel, o).value == e + a + d;
    KindsAppend(e, a);
    KindsAppend(e + a, d);
    WantedOrder(o);
  }

  /**
   * Every report lists only what it should and speaks for the whole table:
   * the excess-only report shows positive excess only, every summary
   * carries the excess and surcharge of all rows, and the day-wise days add
   * up to the summary.
   */
  lemma ReportsSound(rows: seq<Row>, sel: Selections.Selection, o: Options)
    requires Reports(rows, sel, o).Ok?
    ensures Each(Reports(rows, sel, o).value, rows, sel)
  {
    var e := IfAsked(o.excessOnly, ExcessFile(rows, sel));
    var a := IfAsked(o.allSlots, AllSlotsFile(rows, sel));
    var d := IfDayWise(rows, sel, o.daywise);
    assert Reports(rows, sel, o).value == e + a + d;
    assert Each(e, rows, sel) && Each(a, rows, sel);
    EachAppend(e, a, rows, sel);
    EachAppend(e + a, d, rows, sel);
  }

  lemma EachAppend(xs: seq<File>, ys: seq<File>, rows: seq<Row>, sel: Selections.Selection)
    requires Each(xs, rows, sel) && Each(ys, rows, sel)
    ensures Each(xs + ys, rows, sel)
  {
    forall i | 0 <= i < |xs + ys|
      ensures ExcessRowsOnly((xs + ys)[i])
      ensures NonNegative(rows) ==> SummaryOfAll((xs + ys)[i], rows)
      ensures AllDated(rows) && WithinMonth(rows, sel) ==> DaysAddUp((xs + ys)[i])
    {
      if i < |xs| {
        assert (xs + ys)[i] == xs[i];
      } else {
        assert (xs + ys)[i] == ys[i - |xs|];
      }
    }
  }

  lemma KindsAppend(xs: seq<File>, ys: seq<File>)
    ensures Kinds(xs + ys) == Kinds(xs) + Kinds(ys)
  {
  }

  // ---------------------------------------------------------------------
  // The whole request
  // ---------------------------------------------------------------------

  /** The joined, clamped and sorted table of the two selected sides. */
  function ProcessRows(gen: seq<Readings.Reading>, cons: seq<Readings.Reading>, loss: real, factor: real,
                       sel: Selections.Selection): (rows: Result<seq<Row>>)
    ensures rows.Ok? <==>
      Selections.SelectReadings(gen, sel, GenEmpty).Ok? && Selections.SelectReadings(cons, sel, ConsEmpty).Ok?
    ensures rows.Ok? ==> NonNegative(rows.value)
  {
    match (Selections.SelectReadings(gen, sel, GenEmpty), Selections.SelectReadings(cons, sel, ConsEmpty))
    case (Ok(gf), Ok(cf)) =>
      var merged := Rows(Readings.GenerationRows(gf, loss), Readings.ConsumptionRows(cf, factor));
      var rows := SortRows(merged);
      assert NonNegative(rows) by {
        forall i | 0 <= i < |rows| ensures rows[i].excess >= 0.0 {
          assert rows[i] in multiset(merged);
        }
      }
      Ok(rows)
    case (Err(e), _) => Err(e)
    case (_, Err(e)) => Err(e)
  }

  /**
   * `process_and_generate` behind the button: a year is required (month
   * auto-detection is not modelled), each side is selected, joined and
   * sorted, and the reports asked for are packaged for download.
   */
  function Process(gen: seq<Readings.Reading>, cons: seq<Readings.Reading>, loss: real, factor: real,
                   sel: Selections.Selection, o: Options): (d: Result<Download<File>>)
    ensures sel.year.None? ==> d == Err(NeedYear)
    ensures d.Ok? ==> sel.year.Some? && ProcessRows(gen, cons, loss, factor, sel).Ok?
    ensures d.Ok? ==> Kinds(Contents(d.value)) == Wanted(o)
    ensures d.Ok? ==> (d.value.Zip? <==> |Wanted(o)| > 1) && (d.value.NoDownload? <==> |Wanted(o)| == 0)
    ensures d.Ok? ==> Each(Contents(d.value), ProcessRows(gen, cons, loss, factor, sel).value, sel)
  {
    if sel.year.None? then Err(NeedYear)
    else
      var rows := ProcessRows(gen, cons, loss, factor, sel);
      if rows.Err? then Err(rows.msg)
      else
        var files := Reports(rows.value, sel, o);
        if files.Err? then Err(files.msg)
        else
          ReportsInOrder(rows.value, sel, o);
          ReportsSound(rows.value, sel, o);
          Ok(Package(files.value))
  }

  /** Every reading carries a calendar date (no `NaT`). */
  predicate ReadingsDated(rs: seq<Readings.Reading>) {
    forall i :: 0 <= i < |rs| ==> Calendar.ValidDate(rs[i].date)
  }

  /** A key of the joined table, before sorting, lies in the selected month. */
  lemma MergedKeyInMonth(gen: seq<Readings.Reading>, cons: seq<Readings.Reading>, loss: real, factor: real,
                         sel: Selections.Selection, r: Row)
    requires sel.year.Some? && sel.month.Some?
    requires ReadingsDated(gen) && ReadingsDated(cons)
    requires Selections.SelectReadings(gen, sel, GenEmpty).Ok? && Selections.SelectReadings(cons, sel, ConsEmpty).Ok?
    requires r in Rows(Readings.GenerationRows(Selections.SelectReadings(gen, sel, GenEmpty).value, loss),
                       Readings.ConsumptionRows(Selections.SelectReadings(cons, sel, ConsEmpty).value, factor))
    ensures Calendar.ValidDate(r.key.date) && r.key.date.year == sel.year.value && r.key.date.month == sel.month.value
  {
    var gs := Readings.GenerationRows(Selections.SelectReadings(gen, sel, GenEmpty).value, loss);
    var cs := Readings.ConsumptionRows(Selections.SelectReadings(cons, sel, ConsEmpty).value, factor);
    var merged := Rows(gs, cs);
    var j :| 0 <= j < |merged| && merged[j] == r;
    assert r.key == Readings.Merge(gs, cs)[j].key;
    Selections.KeyInMonth(gen, cons, sel, GenEmpty, ConsEmpty, loss, factor, r.key);
  }

  /** With a full month selected, every row of the table is dated in that month. */
  lemma ProcessRowsInMonth(gen: seq<Readings.Reading>, cons: seq<Readings.Reading>, loss: real, factor: real,
                           sel: Selections.Selection)
    requires sel.year.Some? && sel.month.Some?
    requires ReadingsDated(gen) && ReadingsDated(cons)
    requires ProcessRows(gen, cons, loss, factor, sel).Ok?
    ensures AllDated(ProcessRows(gen, cons, loss, factor, sel).value)
    ensures WithinMonth(ProcessRows(gen, cons, loss, factor, sel).value, sel)
  {
    var gs := Readings.GenerationRows(Selections.SelectReadings(gen, sel, GenEmpty).value, loss);
    var cs := Readings.ConsumptionRows(Selections.SelectReadings(cons, sel, ConsEmpty).value, factor);
    var merged := Rows(gs, cs);
    var rows := ProcessRows(gen, cons, loss, factor, sel).value;
    assert rows == SortRows(merged);
    forall i | 0 <= i < |rows|
      ensures Calendar.ValidDate(rows[i].key.date)
      ensures rows[i].key.date.year == sel.year.value && rows[i].key.date.month == sel.month.value
    {
      assert rows[i] in multiset(merged);
      MergedKeyInMonth(gen, cons, loss, factor, sel, rows[i]);
    }
  }

  /**
   * For a full month with real reading dates, the day-wise report lists
   * every day of the month once, in order, and its days add up to the
   * excess and the surcharge of its summary.
   */
  lemma ProcessMonth(gen: seq<Readings.Reading>, cons: seq<Readings.Reading>, loss: real, factor: real,
                     sel: Selections.Selection, o: Options)
    requires sel.year.Some? && sel.month.Some?
    requires ReadingsDated(gen) && ReadingsDated(cons)
    requires Process(gen, cons, loss, factor, sel, o).Ok?
    ensures forall f :: f in Contents(Process(gen, cons, loss, factor, sel, o).value) ==>
      DaysAddUp(f) && MonthListed(f, sel)
  {
    var files := Contents(Process(gen, cons, loss, factor, sel, o).value);
    var rows := ProcessRows(gen, cons, loss, factor, sel).value;
    assert AllDated(rows) && WithinMonth(rows, sel) by {
      ProcessRowsInMonth(gen, cons, loss, factor, sel);
    }
    EachInMonth(files, rows, sel);
  }

  /** On dated rows of the selected month, every file of a sound list adds up and lists the month. */
  lemma EachInMonth(files: seq<File>, rows: seq<Row>, sel: Selections.Selection)
    requires Each(files, rows, sel) && AllDated(rows) && WithinMonth(rows, sel)
    ensures forall f :: f in files ==> DaysAddUp(f) && MonthListed(f, sel)
  {
    forall f | f in files ensures DaysAddUp(f) && MonthListed(f, sel) {
      var i :| 0 <= i < |files| && files[i] == f;
    }
  }
}
