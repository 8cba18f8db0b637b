/**
 * The period and date selection each handler applies to both sheets before
 * the join: a month date-time window when both year and month are given
 * (the calendar month, or in app.py the slot-end window shifted by 15
 * minutes), separate year and month masks otherwise, then an optional
 * single date; a selection that leaves a sheet empty is reported as an error.
 */
module Selections {
  import opened Wrappers
  import Tables
  import Calendar
  import Readings

  /**
   * The period fields once read as integers (None for an empty field), and
   * the optional single-date filter once read as a date.
   */
  datatype Selection = Selection(year: Option<int>, month: Option<int>, day: Option<Calendar.Date>)

  predicate AnyFilter(sel: Selection) {
    sel.year.Some? || sel.month.Some? || sel.day.Some?
  }

  /** The mask of the year-only and month-only filters used when the period is incomplete. */
  predicate InPeriod(r: Readings.Reading, sel: Selection) {
    (sel.year.None? || r.date.year == sel.year.value)
    && (sel.month.None? || r.date.month == sel.month.value)
  }

  predicate OnDay(r: Readings.Reading, sel: Selection) {
    sel.day.None? || r.date == sel.day.value
  }

  /** The incomplete-period mask as a named function, so that bodies and proofs share it. */
  function PeriodMask(sel: Selection): (p: Readings.Reading -> bool)
    ensures forall r :: p(r) == InPeriod(r, sel)
  {
    r => InPeriod(r, sel)
  }

  function DayMask(sel: Selection): (p: Readings.Reading -> bool)
    ensures forall r :: p(r) == OnDay(r, sel)
  {
    r => OnDay(r, sel)
  }

  /**
   * The month window: 00:00 of the 1st through 23:45 of the last day, or, in
   * the older handler (`shifted`), 00:15 of the 1st through 00:00 of the
   * next month's 1st.
   */
  function MonthWindow(y: int, m: int, shifted: bool): (w: Result<(Calendar.Stamp, Calendar.Stamp)>)
    ensures w.Ok? <==> Calendar.ValidMonth(m)
  {
    if shifted then Calendar.ShiftedMonthWindow(y, m) else Calendar.FullMonthWindow(y, m)
  }

  /** A reading the period part of the filter keeps. */
  predicate PeriodOk(r: Readings.Reading, sel: Selection, shifted: bool := false) {
    if sel.year.Some? && sel.month.Some? then
      Calendar.ValidMonth(sel.month.value)
      && Readings.InWindow(r, MonthWindow(sel.year.value, sel.month.value, shifted).value)
    else InPeriod(r, sel)
  }

  /** A reading the whole selection keeps. */
  predicate Selected(r: Readings.Reading, sel: Selection, shifted: bool := false) {
    PeriodOk(r, sel, shifted) && OnDay(r, sel)
  }

  /** The period part of the filter: the window, or the separate year and month masks. */
  function PeriodFilter(rs: seq<Readings.Reading>, sel: Selection, shifted: bool := false): (kept: Result<seq<Readings.Reading>>)
    ensures sel.year.Some? && sel.month.Some? ==> (kept.Ok? <==> Calendar.ValidMonth(sel.month.value))
    ensures !(sel.year.Some? && sel.month.Some?) ==> kept.Ok?
    ensures sel.year.None? && sel.month.None? ==> kept == Ok(rs)
    ensures kept.Ok? ==> forall r :: multiset(kept.value)[r] == if PeriodOk(r, sel, shifted) then multiset(rs)[r] else 0
  {
    if sel.year.Some? && sel.month.Some? then
      match MonthWindow(sel.year.value, sel.month.value, shifted)
      case Ok(w) => Ok(Readings.WindowFilter(rs, w))
      case Err(e) => Err(e)
    else if sel.year.None? && sel.month.None? then
      Tables.FilterPointwise(rs, PeriodMask(sel), x => true);
      Tables.FilterAll(rs);
      Ok(Tables.Filter(rs, PeriodMask(sel)))
    else
      Ok(Tables.Filter(rs, PeriodMask(sel)))
  }

  /**
   * The filter one side's readings go through: the month window when both
   * year and month are given, the separate year and month filters
   * otherwise, then the single-date filter; a filter that leaves nothing is
   * an error, and so is a month the window cannot be built for.
   */
  function SelectReadings(rs: seq<Readings.Reading>, sel: Selection, message: string, shifted: bool := false)
    : (kept: Result<seq<Readings.Reading>>)
    ensures sel.year.Some? && sel.month.Some? && !Calendar.ValidMonth(sel.month.value) ==> kept.Err?
    ensures kept.Ok? && AnyFilter(sel) ==> |kept.value| > 0
    ensures !AnyFilter(sel) ==> kept == Ok(rs)
    ensures kept.Ok? ==> forall r :: multiset(kept.value)[r] == if Selected(r, sel, shifted) then multiset(rs)[r] else 0
  {
    match PeriodFilter(rs, sel, shifted)
    case Err(e) => Err(e)
    case Ok(p) =>
      var daily := Tables.Filter(p, DayMask(sel));
      if AnyFilter(sel) && |daily| == 0 then Err(message)
      else if !AnyFilter(sel) then
        Tables.FilterPointwise(p, DayMask(sel), x => true);
        Tables.FilterAll(p);
        Ok(daily)
      else
        Ok(daily)
  }

  /** A reading kept by a full-month selection lies in that month. */
  lemma SelectedInMonth(r: Readings.Reading, sel: Selection)
    requires sel.year.Some? && sel.month.Some? && Selected(r, sel) && Calendar.ValidDate(r.date)
    ensures r.date.year == sel.year.value && r.date.month == sel.month.value
  {
    Readings.FullMonthReading(sel.year.value, sel.month.value, r);
  }

  /**
   * A reading kept by the shifted window of the older handler lies in the
   * selected month or is the 00:00 reading of the next month's 1st.
   */
  lemma ShiftedSelectedInMonth(r: Readings.Reading, sel: Selection)
    requires sel.year.Some? && sel.month.Some? && Selected(r, sel, true) && Calendar.ValidDate(r.date)
    ensures (r.date.year == sel.year.value && r.date.month == sel.month.value)
      || r.date == Calendar.NextMonthFirst(sel.year.value, sel.month.value)
  {
    Readings.ShiftedMonthReading(sel.year.value, sel.month.value, r);
  }

  /**
   * With a full month selected, every key either side of the join carries
   * is dated in that month.
   */
  lemma KeyInMonth(gen: seq<Readings.Reading>, cons: seq<Readings.Reading>, sel: Selection,
                   genMessage: string, consMessage: string, loss: real, factor: real, k: Readings.Key)
    requires sel.year.Some? && sel.month.Some?
    requires forall i :: 0 <= i < |gen| ==> Calendar.ValidDate(gen[i].date)
    requires forall i :: 0 <= i < |cons| ==> Calendar.ValidDate(cons[i].date)
    requires SelectReadings(gen, sel, genMessage).Ok? && SelectReadings(cons, sel, consMessage).Ok?
    requires k in Readings.GenKeys(Readings.GenerationRows(SelectReadings(gen, sel, genMessage).value, loss))
      || k in Readings.ConsKeys(Readings.ConsumptionRows(SelectReadings(cons, sel, consMessage).value, factor))
    ensures Calendar.ValidDate(k.date) && k.date.year == sel.year.value && k.date.month == sel.month.value
  {
    var gf := SelectReadings(gen, sel, genMessage).value;
    var cf := SelectReadings(cons, sel, consMessage).value;
    if k in Readings.GenKeys(Readings.GenerationRows(gf, loss)) {
      Readings.GenKeyDate(gf, loss, k);
      var r :| r in gf && r.date == k.date;
      assert r in multiset(gf);
      assert r in gen;
      SelectedInMonth(r, sel);
    } else {
      Readings.ConsKeyDate(cf, factor, k);
      var r :| r in cf && r.date == k.date;
      assert r in multiset(cf);
      assert r in cons;
      SelectedInMonth(r, sel);
    }
  }

  /**
   * The shifted window's analogue of `KeyInMonth`: a key of the join lies in
   * the selected month or is dated the next month's 1st.
   */
  lemma ShiftedKeyInMonth(gen: seq<Readings.Reading>, cons: seq<Readings.Reading>, sel: Selection,
                          genMessage: string, consMessage: string, loss: real, factor: real, k: Readings.Key)
    requires sel.year.Some? && sel.month.Some?
    requires forall i :: 0 <= i < |gen| ==> Calendar.ValidDate(gen[i].date)
    requires forall i :: 0 <= i < |cons| ==> Calendar.ValidDate(cons[i].date)
    requires SelectReadings(gen, sel, genMessage, true).Ok? && SelectReadings(cons, sel, consMessage, true).Ok?
    requires k in Readings.GenKeys(Readings.GenerationRows(SelectReadings(gen, sel, genMessage, true).value, loss))
      || k in Readings.ConsKeys(Readings.ConsumptionRows(SelectReadings(cons, sel, consMessage, true).value, factor))
    ensures (Calendar.ValidDate(k.date) && k.date.year == sel.year.value && k.date.month == sel.month.value)
      || k.date == Calendar.NextMonthFirst(sel.year.value, sel.month.value)
  {
    var gf := SelectReadings(gen, sel, genMessage, true).value;
    var cf := SelectReadings(cons, sel, consMessage, true).value;
    if k in Readings.GenKeys(Readings.GenerationRows(gf, loss)) {
      Readings.GenKeyDate(gf, loss, k);
      var r :| r in gf && r.date == k.date;
      assert r in multiset(gf);
      assert r in gen;
      ShiftedSelectedInMonth(r, sel);
    } else {
      Readings.ConsKeyDate(cf, factor, k);
      var r :| r in cf && r.date == k.date;
      assert r in multiset(cf);
      assert r in cons;
      ShiftedSelectedInMonth(r, sel);
    }
  }
}
