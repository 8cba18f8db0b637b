/**
 * The older Flask handler (`app.py`): the month filter on the 15-minute
 * window that ends at 00:00 of the next month's 1st, the join over the union
 * of both sides' slots with the excess clamped at zero, warnings about days
 * and slots one side lacks, chronological order, the report totals, the
 * day-wise table, and up to three reports sent alone or zipped.
 */
module LegacyReport {
  import opened Wrappers
  import Tables
  import Calendar
  import SlotClock
  import Readings
  import Selections
  import opened Downloads

  const GenEmpty := "No data for the selected filter in the GENERATED file."
  const ConsEmpty := "No data for the selected filter in the CONSUMED file."
  const NoPdf := "Please select at least one PDF output option."

  // ---------------------------------------------------------------------
  // Joined rows
  // ---------------------------------------------------------------------

  /** A joined slot with its clamped excess and its missing-side tags. */
  datatype Row = Row(key: Readings.Key, kwhGen: real, afterLoss: real, cons: real, excess: real, missing: string)

  /** `Excess = max(0, After_Loss - Energy_kWh_cons)` holds on the row. */
  predicate Clamped(r: Row) {
    r.excess == Readings.Clamp(r.afterLoss - r.cons)
  }

  function Annotate(s: Readings.Slot, genKeys: seq<Readings.Key>, consKeys: seq<Readings.Key>): (r: Row)
    ensures r.key == s.key && r.kwhGen == s.kwhGen && r.afterLoss == s.afterLoss && r.cons == s.cons
    ensures Clamped(r) && r.excess >= 0.0
    ensures r.missing == Readings.MissingTags(s.key in genKeys, s.key in consKeys)
  {
    Row(s.key, s.kwhGen, s.afterLoss, s.cons, Readings.Clamp(s.afterLoss - s.cons),
        Readings.MissingTags(s.key in genKeys, s.key in consKeys))
  }

  /**
   * The joined table over the union of the two slot sets: the join's energy
   * columns, a clamped excess, and a row tagged missing on at most one side,
   * exactly when its key is absent from that side.
   */
  function Rows(gs: seq<Readings.GenSlot>, cs: seq<Readings.ConsSlot>): (rows: seq<Row>)
    ensures |rows| == |Readings.Merge(gs, cs)|
    ensures forall i :: 0 <= i < |rows| ==>
      var s := Readings.Merge(gs, cs)[i];
      rows[i].key == s.key && rows[i].kwhGen == s.kwhGen && rows[i].afterLoss == s.afterLoss && rows[i].cons == s.cons
    ensures forall i :: 0 <= i < |rows| ==> Clamped(rows[i])
    ensures forall i :: 0 <= i < |rows| ==> rows[i].missing in {"", Readings.MissingGen, Readings.MissingCons}
    ensures forall i :: 0 <= i < |rows| ==> (rows[i].missing == Readings.MissingGen <==> rows[i].key !in Readings.GenKeys(gs))
    ensures forall i :: 0 <= i < |rows| ==> (rows[i].missing == Readings.MissingCons <==> rows[i].key !in Readings.ConsKeys(cs))
  {
    var merged := Readings.Merge(gs, cs);
    var gk := Readings.GenKeys(gs);
    var ck := Readings.ConsKeys(cs);
    seq(|merged|, i requires 0 <= i < |merged| => Annotate(merged[i], gk, ck))
  }

  predicate AllClamped(rows: seq<Row>) {
    forall i :: 0 <= i < |rows| ==> Clamped(rows[i])
  }

  /** The second `merged['Excess'] = ...` pass, after the warnings are built. */
  function Recompute(rows: seq<Row>): (again: seq<Row>)
    ensures |again| == |rows| && AllClamped(again)
  {
    seq(|rows|, i requires 0 <= i < |rows| => rows[i].(excess := Readings.Clamp(rows[i].afterLoss - rows[i].cons)))
  }

  /** Recomputing the excess of the joined table leaves it unchanged. */
  lemma RecomputeUnchanged(rows: seq<Row>)
    requires AllClamped(rows)
    ensures Recompute(rows) == rows
  {
    forall i | 0 <= i < |rows| ensures Recompute(rows)[i] == rows[i] {
      assert Clamped(rows[i]);
    }
  }

  function KwhOf(r: Row): real { r.kwhGen }
  function AfterLossOf(r: Row): real { r.afterLoss }
  function ConsOf(r: Row): real { r.cons }
  function ExcessOf(r: Row): real { r.excess }
  function RowDate(r: Row): Calendar.Date { r.key.date }

  predicate PositiveExcess(r: Row) {
    r.excess > 0.0
  }

  // ---------------------------------------------------------------------
  // Ordering
  // ---------------------------------------------------------------------

  function SortKey(r: Row): seq<int> {
    Readings.SlotRank(r.key)
  }

  /** `sort_values(['Slot_Date_dt', 'Slot_Time_min'])`: date order, then start minute. */
  function SortRows(rows: seq<Row>): (sorted: seq<Row>)
    ensures multiset(sorted) == multiset(rows)
    ensures forall i, j :: 0 <= i < j < |sorted| ==> Calendar.DateLe(sorted[i].key.date, sorted[j].key.date)
    ensures forall i, j :: 0 <= i < j < |sorted| && sorted[i].key.date == sorted[j].key.date ==>
      SlotClock.SlotMinutes(sorted[i].key.time) <= SlotClock.SlotMinutes(sorted[j].key.time)
  {
    var sorted := Tables.SortBy(rows, SortKey);
    forall i, j | 0 <= i < j < |sorted|
      ensures Calendar.DateLe(sorted[i].key.date, sorted[j].key.date)
      ensures sorted[i].key.date == sorted[j].key.date ==>
        SlotClock.SlotMinutes(sorted[i].key.time) <= SlotClock.SlotMinutes(sorted[j].key.time)
    {
      Readings.SlotRankOrder(sorted[i].key, sorted[j].key);
    }
    sorted
  }

  // ---------------------------------------------------------------------
  // Totals
  // ---------------------------------------------------------------------

  /** The totals printed under a report. */
  datatype Totals = Totals(injection: real, afterLoss: real, comparison: real, consumed: real, excess: real)

  /**
   * Column totals of a table, with `comparison` the energy the T&D loss
   * took: what was injected less what remains after the loss.
   */
  function TotalsOf(rows: seq<Row>): (t: Totals)
    ensures t.afterLoss + t.comparison == t.injection
    ensures t.excess == Tables.Sum(rows, ExcessOf)
  {
    var injection := Tables.Sum(rows, KwhOf);
    var afterLoss := Tables.Sum(rows, AfterLossOf);
    Totals(injection, afterLoss, injection - afterLoss, Tables.Sum(rows, ConsOf), Tables.Sum(rows, ExcessOf))
  }

  /** `After_Loss = Energy_kWh_gen * (1 - loss / 100)` on every row. */
  predicate LossApplied(rows: seq<Row>, loss: real) {
    forall i :: 0 <= i < |rows| ==> rows[i].afterLoss == Readings.AfterLoss(rows[i].kwhGen, loss)
  }

  /** The energy the loss took on one row. */
  function LostOf(r: Row): real { r.kwhGen - r.afterLoss }

  /** `loss` percent of `x`. */
  function LossShare(x: real, loss: real): real { x * loss / 100.0 }

  /**
   * On rows that carry the loss relation the comparison line is the loss
   * percentage of the injection.
   */
  lemma ComparisonIsLoss(rows: seq<Row>, loss: real)
    requires LossApplied(rows, loss)
    ensures TotalsOf(rows).comparison == LossShare(TotalsOf(rows).injection, loss)
  {
    var inj := Tables.Sum(rows, KwhOf);
    var c := loss / 100.0;
    assert TotalsOf(rows).comparison == Tables.Sum(rows, LostOf) by {
      Tables.SumAdd(rows, LostOf, AfterLossOf, KwhOf);
    }
    assert Tables.Sum(rows, LostOf) == c * inj by {
      forall i | 0 <= i < |rows| ensures LostOf(rows[i]) == c * KwhOf(rows[i]) {
        LostShare(rows[i].kwhGen, rows[i].afterLoss, loss);
      }
      Tables.SumScale(rows, KwhOf, c, LostOf);
    }
    assert LossShare(inj, loss) == c * inj;
  }

  /** What the loss takes from one reading is its share of the reading. */
  lemma LostShare(kwh: real, after: real, loss: real)
    requires after == Readings.AfterLoss(kwh, loss)
    ensures kwh - after == (loss / 100.0) * kwh
  {
  }

  predicate NonNegative(rows: seq<Row>) {
    forall i :: 0 <= i < |rows| ==> rows[i].excess >= 0.0
  }

  /** The rows of the excess-only report: `merged[merged['Excess'] > 0]`. */
  function ExcessRows(rows: seq<Row>): (kept: seq<Row>)
    ensures forall i :: 0 <= i < |kept| ==> kept[i].excess > 0.0
    ensures forall r :: multiset(kept)[r] == if r.excess > 0.0 then multiset(rows)[r] else 0
  {
    Tables.Filter(rows, PositiveExcess)
  }

  /**
   * The excess-only report drops only rows with no excess, so its excess
   * total is the whole table's, and the status line reads "Excess" exactly
   * when that report has a row.
   */
  lemma ExcessOnlyTotals(rows: seq<Row>)
    requires NonNegative(rows)
    ensures TotalsOf(ExcessRows(rows)).excess == TotalsOf(rows).excess
    ensures TotalsOf(rows).excess > 0.0 <==> |ExcessRows(rows)| > 0
  {
    Tables.SumFilterZero(rows, PositiveExcess, ExcessOf);
    Tables.SumPositive(rows, ExcessOf);
    Tables.FilterMembers(rows, PositiveExcess);
    if |ExcessRows(rows)| > 0 {
      assert ExcessRows(rows)[0] in ExcessRows(rows);
    }
  }

  // ---------------------------------------------------------------------
  // Missing days and slots
  // ---------------------------------------------------------------------

  /**
   * One warning line: the days one side has and the other lacks, or, for a
   * day both sides have, the slots one side has and the other lacks.
   */
  datatype Warning =
    | DaysOnlyInConsumed(days: seq<Calendar.Date>)
    | DaysOnlyInGenerated(days: seq<Calendar.Date>)
    | SlotsOnlyInConsumed(day: Calendar.Date, slots: seq<string>)
    | SlotsOnlyInGenerated(day: Calendar.Date, slots: seq<string>)

  /** `df['Slot_Date']` */
  function DatesOf(rs: seq<Readings.Reading>): (ds: seq<Calendar.Date>)
    ensures |ds| == |rs| && forall i :: 0 <= i < |rs| ==> ds[i] == rs[i].date
  {
    seq(|rs|, i requires 0 <= i < |rs| => rs[i].date)
  }

  /** The (Slot_Date, Slot_Time) pairs of one side. */
  function KeysOf(rs: seq<Readings.Reading>): (ks: seq<Readings.Key>)
    ensures |ks| == |rs| && forall i :: 0 <= i < |rs| ==> ks[i] == Readings.KeyOf(rs[i])
  {
    seq(|rs|, i requires 0 <= i < |rs| => Readings.KeyOf(rs[i]))
  }

  /** Python's `sorted` on the 'dd/mm/yyyy' texts: by character code, day first. */
  function DayRank(d: Calendar.Date): seq<int> {
    Tables.Codes(Calendar.DateString(d))
  }

  /** `set(df[df['Slot_Date'] == day]['Slot_Time'])`, as a list, from a side's keys. */
  function SlotsOn(ks: seq<Readings.Key>, d: Calendar.Date): (slots: seq<string>)
    ensures forall t :: t in slots <==> Readings.Key(d, t) in ks
    decreases |ks|
  {
    if |ks| == 0 then []
    else
      assert ks == [ks[0]] + ks[1..];
      (if ks[0].date == d then [ks[0].time] else []) + SlotsOn(ks[1..], d)
  }

  /** The day of a key is a day of its side. */
  lemma KeyDay(rs: seq<Readings.Reading>, k: Readings.Key)
    requires k in KeysOf(rs)
    ensures k.date in DatesOf(rs)
  {
    var i :| 0 <= i < |rs| && KeysOf(rs)[i] == k;
    assert DatesOf(rs)[i] == k.date;
  }

  /** The list holds exactly the values `have` has and `lack` lacks. */
  ghost predicate Lists<T(!new)>(xs: seq<T>, have: seq<T>, lack: seq<T>) {
    forall x :: x in xs <==> x in have && x !in lack
  }

  /** `sorted(have - lack)` over the two sides' days. */
  function DayGap(have: seq<Readings.Reading>, lack: seq<Readings.Reading>): (days: seq<Calendar.Date>)
    ensures Tables.Distinct(days) && Tables.SortedBy(days, DayRank)
    ensures Lists(days, DatesOf(have), DatesOf(lack))
  {
    Tables.Difference(DatesOf(have), DatesOf(lack), DayRank)
  }

  /** The line for a non-empty list, none for an empty one. */
  function LineIf<T>(xs: seq<T>, w: Warning): seq<Warning> {
    if |xs| > 0 then [w] else []
  }

  /**
   * `sorted(cons_days - gen_days)` then `sorted(gen_days - cons_days)`, each
   * reported only when non-empty.
   */
  function DayGaps(gf: seq<Readings.Reading>, cf: seq<Readings.Reading>): (ws: seq<Warning>)
    ensures |ws| <= 2
  {
    var inCons := DayGap(cf, gf);
    var inGen := DayGap(gf, cf);
    LineIf(inCons, DaysOnlyInConsumed(inCons)) + LineIf(inGen, DaysOnlyInGenerated(inGen))
  }

  /** Every day line lists, sorted and once each, days that one side has and the other lacks. */
  lemma DayGapsSound(gf: seq<Readings.Reading>, cf: seq<Readings.Reading>, w: Warning)
    requires w in DayGaps(gf, cf)
    ensures w.DaysOnlyInConsumed? || w.DaysOnlyInGenerated?
    ensures |w.days| > 0 && Tables.Distinct(w.days) && Tables.SortedBy(w.days, DayRank)
    ensures w.DaysOnlyInConsumed? ==> Lists(w.days, DatesOf(cf), DatesOf(gf))
    ensures w.DaysOnlyInGenerated? ==> Lists(w.days, DatesOf(gf), DatesOf(cf))
  {
    var inCons := DayGap(cf, gf);
    var inGen := DayGap(gf, cf);
    assert DayGaps(gf, cf) == LineIf(inCons, DaysOnlyInConsumed(inCons)) + LineIf(inGen, DaysOnlyInGenerated(inGen));
    if w in LineIf(inCons, DaysOnlyInConsumed(inCons)) {
      assert w == DaysOnlyInConsumed(inCons);
    } else {
      assert w == DaysOnlyInGenerated(inGen);
    }
  }

  /** `sorted(have_slots - lack_slots)` on one day, from the two sides' keys. */
  function SlotGap(have: seq<Readings.Key>, lack: seq<Readings.Key>, d: Calendar.Date): (slots: seq<string>)
    ensures Tables.Distinct(slots) && Tables.SortedBy(slots, Tables.Codes)
    ensures forall t :: t in slots <==> Readings.Key(d, t) in have && Readings.Key(d, t) !in lack
  {
    Tables.Difference(SlotsOn(have, d), SlotsOn(lack, d), Tables.Codes)
  }

  /** The slot lines of one common day: consumed-only first, then generated-only. */
  function SlotLines(gk: seq<Readings.Key>, ck: seq<Readings.Key>, d: Calendar.Date): (ws: seq<Warning>)
    ensures |ws| <= 2
  {
    var inCons := SlotGap(ck, gk, d);
    var inGen := SlotGap(gk, ck, d);
    LineIf(inCons, SlotsOnlyInConsumed(d, inCons)) + LineIf(inGen, SlotsOnlyInGenerated(d, inGen))
  }

  /** The slot lines of the listed days, in the order of the list. */
  function SlotLinesOver(days: seq<Calendar.Date>, gk: seq<Readings.Key>, ck: seq<Readings.Key>): (ws: seq<Warning>)
    ensures |ws| <= 2 * |days|
  {
    if |days| == 0 then [] else SlotLines(gk, ck, days[0]) + SlotLinesOver(days[1..], gk, ck)
  }

  /** `for day in sorted(common_days)`: the slot lines of every day both sides have. */
  function SlotGaps(gf: seq<Readings.Reading>, cf: seq<Readings.Reading>): (ws: seq<Warning>)
  {
    SlotLinesOver(Tables.Intersection(DatesOf(gf), DatesOf(cf), DayRank), KeysOf(gf), KeysOf(cf))
  }

  /** `missing_days_msg + slot_mismatch_msg`, one warning per line. */
  function Warnings(gf: seq<Readings.Reading>, cf: seq<Readings.Reading>): seq<Warning> {
    DayGaps(gf, cf) + SlotGaps(gf, cf)
  }

  /** A slot line of day `d` whose slots are exactly those `have` has on `d` and `lack` lacks. */
  ghost predicate SlotLine(slots: seq<string>, d: Calendar.Date, have: seq<Readings.Key>, lack: seq<Readings.Key>) {
    |slots| > 0 && forall t :: t in slots <==> Readings.Key(d, t) in have && Readings.Key(d, t) !in lack
  }

  /** What a warning line claims about the two sides' days and slots. */
  ghost predicate Justified(w: Warning, gf: seq<Readings.Reading>, cf: seq<Readings.Reading>) {
    match w
    case DaysOnlyInConsumed(days) => |days| > 0 && Lists(days, DatesOf(cf), DatesOf(gf))
    case DaysOnlyInGenerated(days) => |days| > 0 && Lists(days, DatesOf(gf), DatesOf(cf))
    case SlotsOnlyInConsumed(d, slots) =>
      d in DatesOf(gf) && d in DatesOf(cf) && SlotLine(slots, d, KeysOf(cf), KeysOf(gf))
    case SlotsOnlyInGenerated(d, slots) =>
      d in DatesOf(gf) && d in DatesOf(cf) && SlotLine(slots, d, KeysOf(gf), KeysOf(cf))
  }

  lemma SlotLinesSound(gk: seq<Readings.Key>, ck: seq<Readings.Key>, d: Calendar.Date, w: Warning)
    requires w in SlotLines(gk, ck, d)
    ensures w.SlotsOnlyInConsumed? || w.SlotsOnlyInGenerated?
    ensures w.day == d
    ensures w.SlotsOnlyInConsumed? ==> SlotLine(w.slots, d, ck, gk)
    ensures w.SlotsOnlyInGenerated? ==> SlotLine(w.slots, d, gk, ck)
  {
    var inCons := SlotGap(ck, gk, d);
    var inGen := SlotGap(gk, ck, d);
    if w in LineIf(inCons, SlotsOnlyInConsumed(d, inCons)) {
      assert w == SlotsOnlyInConsumed(d, inCons);
    } else {
      assert w == SlotsOnlyInGenerated(d, inGen);
    }
  }

  lemma {:induction false} SlotLinesOverSound(days: seq<Calendar.Date>, gk: seq<Readings.Key>, ck: seq<Readings.Key>, w: Warning)
    requires w in SlotLinesOver(days, gk, ck)
    ensures w.SlotsOnlyInConsumed? || w.SlotsOnlyInGenerated?
    ensures w.day in days
    ensures w.SlotsOnlyInConsumed? ==> SlotLine(w.slots, w.day, ck, gk)
    ensures w.SlotsOnlyInGenerated? ==> SlotLine(w.slots, w.day, gk, ck)
    decreases |days|
  {
    if w in SlotLines(gk, ck, days[0]) {
      SlotLinesSound(gk, ck, days[0], w);
    } else {
      SlotLinesOverSound(days[1..], gk, ck, w);
    }
  }

  /**
   * Every warning line is true of the two sides: a day line lists exactly
   * the days one side has and the other lacks; a slot line names a day both
   * sides have and lists exactly the slots one side has on it and the other lacks.
   */
  lemma WarningsSound(gf: seq<Readings.Reading>, cf: seq<Readings.Reading>, w: Warning)
    requires w in Warnings(gf, cf)
    ensures Justified(w, gf, cf)
  {
    if w in DayGaps(gf, cf) {
      DayGapsSound(gf, cf, w);
    } else {
      var common := Tables.Intersection(DatesOf(gf), DatesOf(cf), DayRank);
      SlotLinesOverSound(common, KeysOf(gf), KeysOf(cf), w);
    }
  }

  /** The line of a warning that names key `k` as present only in consumption. */
  predicate NamesConsumed(w: Warning, k: Readings.Key) {
    match w
    case DaysOnlyInConsumed(days) => k.date in days
    case SlotsOnlyInConsumed(d, slots) => d == k.date && k.time in slots
    case _ => false
  }

  /** The line of a warning that names key `k` as present only in generation. */
  predicate NamesGenerated(w: Warning, k: Readings.Key) {
    match w
    case DaysOnlyInGenerated(days) => k.date in days
    case SlotsOnlyInGenerated(d, slots) => d == k.date && k.time in slots
    case _ => false
  }

  lemma {:induction false} SlotLinesOverHas(days: seq<Calendar.Date>, gk: seq<Readings.Key>, ck: seq<Readings.Key>, d: Calendar.Date, w: Warning)
    requires d in days && w in SlotLines(gk, ck, d)
    ensures w in SlotLinesOver(days, gk, ck)
    decreases |days|
  {
    if days[0] != d {
      SlotLinesOverHas(days[1..], gk, ck, d, w);
    }
  }

  /** A day of a side is the day of one of its keys. */
  lemma DayKey(rs: seq<Readings.Reading>, d: Calendar.Date) returns (k: Readings.Key)
    requires d in DatesOf(rs)
    ensures k in KeysOf(rs) && k.date == d
  {
    var i :| 0 <= i < |rs| && DatesOf(rs)[i] == d;
    k := KeysOf(rs)[i];
  }

  /** A slot the consumed sheet has and the generated sheet lacks is always reported. */
  lemma ConsumedOnlyReported(gf: seq<Readings.Reading>, cf: seq<Readings.Reading>, k: Readings.Key)
    requires k in KeysOf(cf) && k !in KeysOf(gf)
    ensures exists w :: w in Warnings(gf, cf) && NamesConsumed(w, k)
  {
    KeyDay(cf, k);
    if k.date !in DatesOf(gf) {
      var inCons := DayGap(cf, gf);
      var w := DaysOnlyInConsumed(inCons);
      assert w in DayGaps(gf, cf);
      assert w in Warnings(gf, cf) && NamesConsumed(w, k);
    } else {
      var gk, ck := KeysOf(gf), KeysOf(cf);
      var inCons := SlotGap(ck, gk, k.date);
      assert k == Readings.Key(k.date, k.time);
      var w := SlotsOnlyInConsumed(k.date, inCons);
      assert w in SlotLines(gk, ck, k.date);
      SlotLinesOverHas(Tables.Intersection(DatesOf(gf), DatesOf(cf), DayRank), gk, ck, k.date, w);
      assert w in Warnings(gf, cf) && NamesConsumed(w, k);
    }
  }

  /** A slot the generated sheet has and the consumed sheet lacks is always reported. */
  lemma GeneratedOnlyReported(gf: seq<Readings.Reading>, cf: seq<Readings.Reading>, k: Readings.Key)
    requires k in KeysOf(gf) && k !in KeysOf(cf)
    ensures exists w :: w in Warnings(gf, cf) && NamesGenerated(w, k)
  {
    KeyDay(gf, k);
    if k.date !in DatesOf(cf) {
      var inGen := DayGap(gf, cf);
      var w := DaysOnlyInGenerated(inGen);
      assert w in DayGaps(gf, cf);
      assert w in Warnings(gf, cf) && NamesGenerated(w, k);
    } else {
      var gk, ck := KeysOf(gf), KeysOf(cf);
      var inGen := SlotGap(gk, ck, k.date);
      assert k == Readings.Key(k.date, k.time);
      var w := SlotsOnlyInGenerated(k.date, inGen);
      assert w in SlotLines(gk, ck, k.date);
      SlotLinesOverHas(Tables.Intersection(DatesOf(gf), DatesOf(cf), DayRank), gk, ck, k.date, w);
      assert w in Warnings(gf, cf) && NamesGenerated(w, k);
    }
  }

  /** A slot line names at least one key. */
  lemma SlotLineKey(slots: seq<string>, d: Calendar.Date, have: seq<Readings.Key>, lack: seq<Readings.Key>)
    returns (k: Readings.Key)
    requires SlotLine(slots, d, have, lack)
    ensures k in have && k !in lack && k.date == d
  {
    assert slots[0] in slots;
    k := Readings.Key(d, slots[0]);
  }

  /** The two sides have the same (Slot_Date, Slot_Time) pairs. */
  ghost predicate SameKeys(gf: seq<Readings.Reading>, cf: seq<Readings.Reading>) {
    forall k :: k in KeysOf(gf) <==> k in KeysOf(cf)
  }

  /** There is no warning exactly when the two sheets cover the same slots. */
  lemma NoWarningsIffSameKeys(gf: seq<Readings.Reading>, cf: seq<Readings.Reading>)
    ensures |Warnings(gf, cf)| == 0 <==> SameKeys(gf, cf)
  {
    if SameKeys(gf, cf) {
      SameKeysNoWarning(gf, cf);
    } else {
      OtherKeysWarn(gf, cf);
    }
  }

  /** A key only one side has is reported. */
  lemma OtherKeysWarn(gf: seq<Readings.Reading>, cf: seq<Readings.Reading>)
    requires !SameKeys(gf, cf)
    ensures |Warnings(gf, cf)| > 0
  {
    var k :| !(k in KeysOf(gf) <==> k in KeysOf(cf));
    if k in KeysOf(cf) {
      ConsumedOnlyReported(gf, cf, k);
    } else {
      GeneratedOnlyReported(gf, cf, k);
    }
  }

  /** Sides with the same keys draw no warning. */
  lemma SameKeysNoWarning(gf: seq<Readings.Reading>, cf: seq<Readings.Reading>)
    requires SameKeys(gf, cf)
    ensures |Warnings(gf, cf)| == 0
  {
    if |Warnings(gf, cf)| > 0 {
      var w := Warnings(gf, cf)[0];
      WarningsSound(gf, cf, w);
      match w
      case DaysOnlyInConsumed(days) =>
        var k := DayKey(cf, days[0]);
        KeyDay(gf, k);
      case DaysOnlyInGenerated(days) =>
        var k := DayKey(gf, days[0]);
        KeyDay(cf, k);
      case SlotsOnlyInConsumed(d, slots) =>
        var k := SlotLineKey(slots, d, KeysOf(cf), KeysOf(gf));
      case SlotsOnlyInGenerated(d, slots) =>
        var k := SlotLineKey(slots, d, KeysOf(gf), KeysOf(cf));
    }
  }


  /** The warning lines as the handler builds them, before the report is drawn. */
  function PdfWarningsAsWritten(gf: seq<Readings.Reading>, cf: seq<Readings.Reading>): seq<Warning> {
    // `globals().get('missing_days_msg', '')` and its slot counterpart: the
    // messages are locals of the handler, so the lookup always finds nothing.
    []
  }

  /**
   * The warnings the handler computes never reach a report: a consumed
   * slot the generated sheet lacks yields a warning line, and still the
   * report's warning block is empty.
   */
  lemma WarningsDropped(gf: seq<Readings.Reading>, cf: seq<Readings.Reading>, k: Readings.Key)
    requires k in KeysOf(cf) && k !in KeysOf(gf)
    ensures |Warnings(gf, cf)| > 0 && PdfWarningsAsWritten(gf, cf) == []
  {
    ConsumedOnlyReported(gf, cf, k);
  }

  /**
   * The warning block a report carries: every line true of the two sides,
   * and none exactly when both sheets cover the same slots.
   */
  function PdfWarnings(gf: seq<Readings.Reading>, cf: seq<Readings.Reading>): (ws: seq<Warning>)
    ensures |ws| == 0 <==> SameKeys(gf, cf)
    ensures forall w :: w in ws ==> Justified(w, gf, cf)
  {
    NoWarningsIffSameKeys(gf, cf);
    forall w | w in Warnings(gf, cf) ensures Justified(w, gf, cf) {
      WarningsSound(gf, cf, w);
    }
    Warnings(gf, cf)
  }

  // ---------------------------------------------------------------------
  // Report lines
  // ---------------------------------------------------------------------

  /** One printed line of a slot-wise report. */
  datatype Line = Line(date: string, time: string, afterLoss: real, cons: real, excess: real, missing: string)

  /**
   * A row as the slot-wise table prints it, the time shown as the label it
   * is: the date reads back as the row's day, and an "HH:MM - HH:MM" label
   * is printed unchanged.
   */
  function LineOf(r: Row): (l: Line)
    ensures Calendar.ValidDate(r.key.date) && 0 <= r.key.date.year < 10000 ==>
      Calendar.ParseDayFirst(l.date) == Some(r.key.date)
    ensures forall c :: SlotClock.Valid(c) && r.key.time == SlotClock.RangeLabel(c) ==> l.time == r.key.time
    ensures l.afterLoss == r.afterLoss && l.cons == r.cons && l.excess == r.excess && l.missing == r.missing
  {
    var l := Line(Calendar.DateString(r.key.date), SlotClock.DisplayTime(r.key.time), r.afterLoss, r.cons, r.excess,
                  r.missing);
    assert Calendar.ValidDate(r.key.date) && 0 <= r.key.date.year < 10000 ==>
      Calendar.ParseDayFirst(l.date) == Some(r.key.date) by {
      if Calendar.ValidDate(r.key.date) && 0 <= r.key.date.year < 10000 {
        Calendar.DateStringParses(r.key.date);
      }
    }
    forall c | SlotClock.Valid(c) && r.key.time == SlotClock.RangeLabel(c) ensures l.time == r.key.time {
      SlotClock.StartOfRangeLabel(c);
    }
    l
  }

  /** A row as the handler prints it, through `format_time`. */
  function LineAsWritten(r: Row): Line {
    Line(Calendar.DateString(r.key.date), SlotClock.FormatTime(r.key.time), r.afterLoss, r.cons, r.excess, r.missing)
  }

  /**
   * `format_time` prints a label unchanged except in hour 00, where it drops
   * the hour: "00:15 - 00:30" becomes ":15 - 00:30".
   */
  lemma LineAsWrittenHourZero(r: Row, c: SlotClock.Clock)
    requires SlotClock.Valid(c) && r.key.time == SlotClock.RangeLabel(c)
    ensures c.hour != 0 ==> LineAsWritten(r).time == LineOf(r).time
    ensures c.hour == 0 ==> |LineAsWritten(r).time| > 0 && LineAsWritten(r).time[0] == ':' && LineAsWritten(r).time != LineOf(r).time
  {
    SlotClock.FormatTimeOfLabel(c);
  }

  function Lines(rows: seq<Row>): (lines: seq<Line>)
    ensures |lines| == |rows| && forall i :: 0 <= i < |rows| ==> lines[i] == LineOf(rows[i])
  {
    seq(|rows|, i requires 0 <= i < |rows| => LineOf(rows[i]))
  }

  /** `nunique()` of a side's Slot_Date: its distinct readable days. */
  function DayCount(rs: seq<Readings.Reading>): (n: nat)
    ensures n == |set d | d in DatesOf(rs) && Calendar.ValidDate(d)|
  {
    var ys := Tables.Unique(Calendar.Readable(DatesOf(rs)));
    Tables.DistinctCard(ys);
    assert (set d | d in ys) == (set d | d in DatesOf(rs) && Calendar.ValidDate(d));
    |ys|
  }

  /** The status line: "Excess" when the whole table shows a positive excess. */
  function ExcessStatus(rows: seq<Row>): (s: string)
    ensures s == "Excess" || s == "No Excess"
    ensures NonNegative(rows) ==> (s == "Excess" <==> |ExcessRows(rows)| > 0)
  {
    assert NonNegative(rows) ==> (TotalsOf(rows).excess > 0.0 <==> |ExcessRows(rows)| > 0) by {
      if NonNegative(rows) {
        ExcessOnlyTotals(rows);
      }
    }
    if TotalsOf(rows).excess > 0.0 then "Excess" else "No Excess"
  }

  // ---------------------------------------------------------------------
  // Day-wise table
  // ---------------------------------------------------------------------

  /** One row of the day-wise table: the day's totals. */
  datatype DayRow = DayRow(date: Calendar.Date, afterLoss: real, cons: real, excess: real)

  /** One column of `groupby('Slot_Date')`, reindexed: 0 for a day without rows. */
  function DayTotal(rows: seq<Row>, d: Calendar.Date, f: Row -> real): (t: real)
    ensures t == Tables.KeyTotal(rows, RowDate, f, d)
    ensures (forall i :: 0 <= i < |rows| ==> rows[i].key.date != d) ==> t == 0.0
  {
    var group := Tables.Filter(rows, Tables.KeyIs(RowDate, d));
    assert (forall i :: 0 <= i < |rows| ==> rows[i].key.date != d) ==> group == [] by {
      if |group| > 0 {
        assert group[0] in multiset(group);
      }
    }
    Tables.Sum(group, f)
  }

  function DayRowOf(rows: seq<Row>, d: Calendar.Date): DayRow {
    DayRow(d, DayTotal(rows, d, AfterLossOf), DayTotal(rows, d, ConsOf), DayTotal(rows, d, ExcessOf))
  }

  function DayTable(rows: seq<Row>, days: seq<Calendar.Date>): (t: seq<DayRow>)
    ensures |t| == |days| && forall i :: 0 <= i < |days| ==> t[i] == DayRowOf(rows, days[i])
  {
    seq(|days|, i requires 0 <= i < |days| => DayRowOf(rows, days[i]))
  }

  function RowDates(rows: seq<Row>): (ds: seq<Calendar.Date>)
    ensures |ds| == |rows| && forall i :: 0 <= i < |rows| ==> ds[i] == rows[i].key.date
  {
    seq(|rows|, i requires 0 <= i < |rows| => rows[i].key.date)
  }

  /**
   * The day index: every day of the selected month when both year and
   * month are given; otherwise every day from the earliest to the latest
   * readable row date, and an error when no row date is readable.
   */
  function DayIndex(rows: seq<Row>, sel: Selections.Selection): (days: Result<seq<Calendar.Date>>)
    ensures days.Ok? ==> Tables.Distinct(days.value)
    ensures sel.year.Some? && sel.month.Some? ==>
      (days.Ok? <==> Calendar.ValidMonth(sel.month.value))
      && (days.Ok? ==> |days.value| == Calendar.LastDay(sel.year.value, sel.month.value))
      && (days.Ok? ==> forall i :: 0 <= i < |days.value| ==>
            days.value[i] == Calendar.Date(sel.year.value, sel.month.value, i + 1))
    ensures !(sel.year.Some? && sel.month.Some?) ==>
      (days.Ok? <==> exists i :: 0 <= i < |rows| && Calendar.ValidDate(rows[i].key.date))
      && (days.Ok? ==> forall i :: 0 <= i < |rows| && Calendar.ValidDate(rows[i].key.date) ==> rows[i].key.date in days.value)
  {
    if sel.year.Some? && sel.month.Some? then
      Calendar.MonthDays(sel.year.value, sel.month.value)
    else
      var days := Calendar.Span(RowDates(rows));
      assert days.Ok? <==> exists i :: 0 <= i < |rows| && Calendar.ValidDate(rows[i].key.date) by {
        if days.Ok? {
          var d :| d in RowDates(rows) && Calendar.ValidDate(d);
          var i :| 0 <= i < |rows| && RowDates(rows)[i] == d;
        } else {
          forall i | 0 <= i < |rows| ensures !Calendar.ValidDate(rows[i].key.date) {
            assert RowDates(rows)[i] in RowDates(rows);
          }
        }
      }
      assert days.Ok? ==> forall i :: 0 <= i < |rows| && Calendar.ValidDate(rows[i].key.date) ==>
        rows[i].key.date in days.value by {
        if days.Ok? {
          forall i | 0 <= i < |rows| && Calendar.ValidDate(rows[i].key.date) ensures rows[i].key.date in days.value {
            assert RowDates(rows)[i] in RowDates(rows);
          }
        }
      }
      days
  }

  /**
   * The day-wise table, or nothing when its day index cannot be built (the
   * handler's `try` swallows the error and sends the other reports).
   */
  function DayWise(rows: seq<Row>, sel: Selections.Selection): (t: Option<seq<DayRow>>)
    ensures t.Some? <==> DayIndex(rows, sel).Ok?
    ensures t.Some? ==> |t.value| == |DayIndex(rows, sel).value|
    ensures t.Some? ==> forall i :: 0 <= i < |t.value| ==> t.value[i].date == DayIndex(rows, sel).value[i]
  {
    var days := DayIndex(rows, sel);
    if days.Ok? then Some(DayTable(rows, days.value)) else None
  }

  function DayAfterLoss(d: DayRow): real { d.afterLoss }
  function DayCons(d: DayRow): real { d.cons }
  function DayExcess(d: DayRow): real { d.excess }

  /** The mask of the rows dated on one of the listed days. */
  function DatedIn(days: seq<Calendar.Date>): (p: Row -> bool)
    ensures forall r {:trigger p(r)} :: p(r) == (r.key.date in days)
  {
    (r: Row) => r.key.date in days
  }

  /** A listed day's totals are those of the rows dated on listed days. */
  lemma DayRowKept(rows: seq<Row>, days: seq<Calendar.Date>, d: Calendar.Date)
    requires d in days
    ensures DayRowOf(rows, d) == DayRowOf(Tables.Filter(rows, DatedIn(days)), d)
  {
    var p := Tables.KeyIs(RowDate, d);
    Tables.FilterFilter(rows, DatedIn(days), p, p);
  }

  /** The day table only ever reads the rows dated on its days. */
  lemma DayTableKept(rows: seq<Row>, days: seq<Calendar.Date>)
    ensures DayTable(rows, days) == DayTable(Tables.Filter(rows, DatedIn(days)), days)
  {
    forall i | 0 <= i < |days| ensures DayTable(rows, days)[i] == DayTable(Tables.Filter(rows, DatedIn(days)), days)[i] {
      DayRowKept(rows, days, days[i]);
    }
  }

  /** When every row is dated on a listed day, the day table keeps each column's total. */
  lemma DayTableConserves(rows: seq<Row>, days: seq<Calendar.Date>)
    requires Tables.Distinct(days)
    requires forall i :: 0 <= i < |rows| ==> rows[i].key.date in days
    ensures Tables.Sum(DayTable(rows, days), DayAfterLoss) == Tables.Sum(rows, AfterLossOf)
    ensures Tables.Sum(DayTable(rows, days), DayCons) == Tables.Sum(rows, ConsOf)
    ensures Tables.Sum(DayTable(rows, days), DayExcess) == Tables.Sum(rows, ExcessOf)
  {
    var t := DayTable(rows, days);
    Tables.SumCorrespond(t, DayAfterLoss, days, k => Tables.KeyTotal(rows, RowDate, AfterLossOf, k));
    Tables.SumByKey(days, rows, RowDate, AfterLossOf);
    Tables.SumCorrespond(t, DayCons, days, k => Tables.KeyTotal(rows, RowDate, ConsOf, k));
    Tables.SumByKey(days, rows, RowDate, ConsOf);
    Tables.SumCorrespond(t, DayExcess, days, k => Tables.KeyTotal(rows, RowDate, ExcessOf, k));
    Tables.SumByKey(days, rows, RowDate, ExcessOf);
  }

  /**
   * `reindex(all_days)`: the day table's totals are those of the rows dated
   * on its days; rows dated elsewhere are left out.
   */
  lemma DayTableSums(rows: seq<Row>, days: seq<Calendar.Date>)
    requires Tables.Distinct(days)
    ensures Tables.Sum(DayTable(rows, days), DayAfterLoss) == Tables.Sum(Tables.Filter(rows, DatedIn(days)), AfterLossOf)
    ensures Tables.Sum(DayTable(rows, days), DayCons) == Tables.Sum(Tables.Filter(rows, DatedIn(days)), ConsOf)
    ensures Tables.Sum(DayTable(rows, days), DayExcess) == Tables.Sum(Tables.Filter(rows, DatedIn(days)), ExcessOf)
  {
    var kept := Tables.Filter(rows, DatedIn(days));
    DayTableKept(rows, days);
    DayTableConserves(kept, days);
  }

  /**
   * The rows of a month selected through the shifted window: dated in the
   * month, or on the next month's 1st.
   */
  predicate ShiftedMonthRows(rows: seq<Row>, y: int, m: int)
    requires Calendar.ValidMonth(m)
  {
    forall i :: 0 <= i < |rows| ==>
      (Calendar.ValidDate(rows[i].key.date) && rows[i].key.date.year == y && rows[i].key.date.month == m)
      || rows[i].key.date == Calendar.NextMonthFirst(y, m)
  }

  /**
   * With a month selected, the day-wise table lists the month's days only,
   * so the rows of the next month's 1st that the window lets in are missing
   * from its days: the day totals plus those rows' totals make the totals
   * printed under the table.
   */
  lemma MonthDayTable(rows: seq<Row>, y: int, m: int)
    requires Calendar.ValidMonth(m) && ShiftedMonthRows(rows, y, m)
    ensures var t := DayTable(rows, Calendar.MonthDays(y, m).value);
      var late := Tables.Filter(rows, Tables.KeyIs(RowDate, Calendar.NextMonthFirst(y, m)));
      Tables.Sum(t, DayAfterLoss) + Tables.Sum(late, AfterLossOf) == Tables.Sum(rows, AfterLossOf)
      && Tables.Sum(t, DayCons) + Tables.Sum(late, ConsOf) == Tables.Sum(rows, ConsOf)
      && Tables.Sum(t, DayExcess) + Tables.Sum(late, ExcessOf) == Tables.Sum(rows, ExcessOf)
  {
    var days := Calendar.MonthDays(y, m).value;
    var n := Calendar.NextMonthFirst(y, m);
    var inDays := DatedIn(days);
    var late := Tables.KeyIs(RowDate, n);
    forall j | 0 <= j < |days| ensures days[j] != n {
    }
    forall i | 0 <= i < |rows| ensures late(rows[i]) == !inDays(rows[i]) {
      var d := rows[i].key.date;
      if d != n {
        assert days[d.day - 1] == d;
      }
    }
    assert Tables.Distinct(days);
    DayTableSums(rows, days);
    Tables.SumSplit(rows, inDays, late, AfterLossOf);
    Tables.SumSplit(rows, inDays, late, ConsOf);
    Tables.SumSplit(rows, inDays, late, ExcessOf);
  }

  /** Without a full month, every readable row date is listed, so the day totals are the report totals. */
  lemma RangeDayTable(rows: seq<Row>, sel: Selections.Selection)
    requires !(sel.year.Some? && sel.month.Some?) && DayWise(rows, sel).Some?
    requires forall i :: 0 <= i < |rows| ==> Calendar.ValidDate(rows[i].key.date)
    ensures Tables.Sum(DayWise(rows, sel).value, DayAfterLoss) == Tables.Sum(rows, AfterLossOf)
    ensures Tables.Sum(DayWise(rows, sel).value, DayCons) == Tables.Sum(rows, ConsOf)
    ensures Tables.Sum(DayWise(rows, sel).value, DayExcess) == Tables.Sum(rows, ExcessOf)
  {
    DayTableConserves(rows, DayIndex(rows, sel).value);
  }

  // ---------------------------------------------------------------------
  // Reports and the download
  // ---------------------------------------------------------------------

  /**
   * The lines every slot-wise report of a request shares: the distinct days
   * of each side, the status line and the warning block.
   */
  datatype Common = Common(genDays: nat, consDays: nat, status: string, warnings: seq<Warning>)

  /** The content of a report; its page layout is not modelled. */
  datatype Pdf =
    | SlotPdf(lines: seq<Line>, totals: Totals, common: Common)
    | DayPdf(days: seq<DayRow>, totals: Totals)

  /** A report under its file name. */
  datatype File = File(kind: ReportKind, pdf: Pdf) {
    function Name(): string { FileName(kind) }
  }

  function Kinds(files: seq<File>): (ks: seq<ReportKind>)
    ensures |ks| == |files| && forall i :: 0 <= i < |files| ==> ks[i] == files[i].kind
  {
    seq(|files|, i requires 0 <= i < |files| => files[i].kind)
  }

  lemma KindsAppend(xs: seq<File>, ys: seq<File>)
    ensures Kinds(xs + ys) == Kinds(xs) + Kinds(ys)
  {
  }

  /** Both sides as selected and the joined, clamped and sorted table. */
  datatype Joined = Joined(gf: seq<Readings.Reading>, cf: seq<Readings.Reading>, rows: seq<Row>)

  /**
   * The shared lines of a request: the day counts of the two sides, a status
   * that reads "Excess" exactly when some row has excess, and a warning
   * block that is empty exactly when both sides cover the same slots.
   */
  function CommonOf(j: Joined): (c: Common)
    ensures c.genDays == |set d | d in DatesOf(j.gf) && Calendar.ValidDate(d)|
    ensures c.consDays == |set d | d in DatesOf(j.cf) && Calendar.ValidDate(d)|
    ensures NonNegative(j.rows) ==> (c.status == "Excess" <==> |ExcessRows(j.rows)| > 0)
    ensures |c.warnings| == 0 <==> SameKeys(j.gf, j.cf)
    ensures forall w :: w in c.warnings ==> Justified(w, j.gf, j.cf)
  {
    Common(DayCount(j.gf), DayCount(j.cf), ExcessStatus(j.rows), PdfWarnings(j.gf, j.cf))
  }

  /** Only rows with positive excess appear in the excess-only report. */
  predicate ExcessLinesOnly(f: File) {
    f.kind == ExcessOnly ==> f.pdf.SlotPdf? && forall i :: 0 <= i < |f.pdf.lines| ==> f.pdf.lines[i].excess > 0.0
  }

  /** With non-negative excess, a report's excess total is that of all rows. */
  predicate AllExcess(f: File, rows: seq<Row>) {
    NonNegative(rows) ==> f.pdf.totals.excess == Tables.Sum(rows, ExcessOf)
  }

  /** A slot-wise report carries the request's shared lines. */
  predicate Shares(f: File, c: Common) {
    f.pdf.SlotPdf? ==> f.pdf.common == c
  }

  /** The day-wise report is the day table of all rows, under their totals. */
  predicate DaysOfAll(f: File, rows: seq<Row>, t: Option<seq<DayRow>>) {
    f.pdf.DayPdf? ==> t == Some(f.pdf.days) && f.pdf.totals == TotalsOf(rows)
  }

  /** The comparison line is the loss percentage of the injection. */
  predicate LossShown(f: File, loss: real) {
    f.pdf.totals.comparison == LossShare(f.pdf.totals.injection, loss)
  }

  /**
   * What every report of a request keeps to: only positive excess in the
   * excess-only report, the excess total and the shared lines of the whole
   * table, the day table of all rows, and the loss relation on the totals.
   */
  predicate Sound(f: File, rows: seq<Row>, c: Common, t: Option<seq<DayRow>>, loss: real) {
    ExcessLinesOnly(f) && AllExcess(f, rows) && Shares(f, c) && DaysOfAll(f, rows, t)
    && (LossApplied(rows, loss) ==> LossShown(f, loss))
  }

  /** A property of every file of a list. */
  predicate Each(files: seq<File>, rows: seq<Row>, c: Common, t: Option<seq<DayRow>>, loss: real) {
    forall i :: 0 <= i < |files| ==> Sound(files[i], rows, c, t, loss)
  }

  lemma EachAppend(xs: seq<File>, ys: seq<File>, rows: seq<Row>, c: Common, t: Option<seq<DayRow>>, loss: real)
    requires Each(xs, rows, c, t, loss) && Each(ys, rows, c, t, loss)
    ensures Each(xs + ys, rows, c, t, loss)
  {
    forall i | 0 <= i < |xs + ys| ensures Sound((xs + ys)[i], rows, c, t, loss) {
      if i < |xs| {
        assert (xs + ys)[i] == xs[i];
      } else {
        assert (xs + ys)[i] == ys[i - |xs|];
      }
    }
  }

  /** The rows the excess-only report keeps carry the loss relation when the table does. */
  lemma ExcessRowsLoss(rows: seq<Row>, loss: real)
    requires LossApplied(rows, loss)
    ensures LossApplied(ExcessRows(rows), loss)
  {
    var kept := ExcessRows(rows);
    forall i | 0 <= i < |kept| ensures kept[i].afterLoss == Readings.AfterLoss(kept[i].kwhGen, loss) {
      assert kept[i] in multiset(kept);
      assert kept[i] in rows;
    }
  }

  /** Report lines keep each row's excess. */
  lemma LinesExcess(rows: seq<Row>)
    ensures forall i :: 0 <= i < |rows| ==> Lines(rows)[i].excess == rows[i].excess
  {
    var lines := Lines(rows);
    forall i | 0 <= i < |rows| ensures lines[i].excess == rows[i].excess {
      assert lines[i] == LineOf(rows[i]);
    }
  }

  /** The excess-only report: the rows with positive excess, their totals and the shared lines. */
  function ExcessFile(rows: seq<Row>, c: Common): (f: File)
    ensures f.kind == ExcessOnly && f.pdf.SlotPdf? && Shares(f, c)
  {
    var kept := ExcessRows(rows);
    File(ExcessOnly, SlotPdf(Lines(kept), TotalsOf(kept), c))
  }

  /**
   * The excess-only report shows only rows with positive excess, and with
   * non-negative excess its excess total is that of the whole table.
   */
  lemma ExcessFileSound(rows: seq<Row>, c: Common, t: Option<seq<DayRow>>, loss: real)
    ensures Sound(ExcessFile(rows, c), rows, c, t, loss)
  {
    var f := ExcessFile(rows, c);
    var kept := ExcessRows(rows);
    assert f.pdf == SlotPdf(Lines(kept), TotalsOf(kept), c);
    assert ExcessLinesOnly(f) by {
      LinesExcess(kept);
    }
    assert AllExcess(f, rows) by {
      if NonNegative(rows) {
        ExcessOnlyTotals(rows);
      }
    }
    assert LossApplied(rows, loss) ==> LossShown(f, loss) by {
      if LossApplied(rows, loss) {
        ExcessRowsLoss(rows, loss);
        ComparisonIsLoss(kept, loss);
      }
    }
  }

  /** The all-slots report: every row, their totals and the shared lines. */
  function AllSlotsFile(rows: seq<Row>, c: Common): (f: File)
    ensures f.kind == AllSlots && f.pdf.SlotPdf? && Shares(f, c)
  {
    File(AllSlots, SlotPdf(Lines(rows), TotalsOf(rows), c))
  }

  /** The all-slots report keeps the excess total and the loss relation of the table. */
  lemma AllSlotsFileSound(rows: seq<Row>, c: Common, t: Option<seq<DayRow>>, loss: real)
    ensures Sound(AllSlotsFile(rows, c), rows, c, t, loss)
  {
    if LossApplied(rows, loss) {
      ComparisonIsLoss(rows, loss);
    }
  }

  /** The day-wise report when it is asked for and its day index could be built. */
  function IfDayWise(rows: seq<Row>, t: Option<seq<DayRow>>, c: Common, loss: real, ask: bool): (fs: seq<File>)
    ensures Kinds(fs) == if ask && t.Some? then [DayWiseReport] else []
    ensures Each(fs, rows, c, t, loss)
  {
    if ask && t.Some? then
      var f := File(DayWiseReport, DayPdf(t.value, TotalsOf(rows)));
      assert LossApplied(rows, loss) ==> LossShown(f, loss) by {
        if LossApplied(rows, loss) {
          ComparisonIsLoss(rows, loss);
        }
      }
      [f]
    else []
  }

  /** The report `f` when it is asked for, else nothing. */
  function IfAsked(ask: bool, f: File): (fs: seq<File>)
    ensures Kinds(fs) == if ask then [f.kind] else []
  {
    if ask then [f] else []
  }

  lemma IfAskedSound(ask: bool, f: File, rows: seq<Row>, c: Common, t: Option<seq<DayRow>>, loss: real)
    requires Sound(f, rows, c, t, loss)
    ensures Each(IfAsked(ask, f), rows, c, t, loss)
  {
  }

  /** No box ticked asks for the all-slots report, so some report is always asked for. */
  function Defaulted(o: Options): (d: Options)
    ensures d.excessOnly == o.excessOnly && d.daywise == o.daywise
    ensures d.allSlots <==> o.allSlots || (!o.excessOnly && !o.daywise)
    ensures |Wanted(d)| > 0
  {
    var d := o.(allSlots := o.allSlots || (!o.excessOnly && !o.daywise));
    WantedOrder(d);
    d
  }

  /** The reports that come out: the day-wise one only when its day index could be built. */
  function Produced(o: Options, dayOk: bool): Options {
    var d := Defaulted(o);
    d.(daywise := d.daywise && dayOk)
  }

  /**
   * Nothing comes out exactly when the day-wise report was the only one
   * asked for and its day index could not be built.
   */
  lemma NothingProduced(o: Options, dayOk: bool)
    ensures |Wanted(Produced(o, dayOk))| == 0 <==> !o.excessOnly && !o.allSlots && o.daywise && !dayOk
  {
    WantedOrder(Produced(o, dayOk));
  }

  /**
   * The reports asked for, in the order excess-only, all slots, day-wise;
   * a day-wise report whose day index fails is skipped.
   */
  function Reports(rows: seq<Row>, t: Option<seq<DayRow>>, c: Common, loss: real, o: Options): (files: seq<File>)
    ensures Kinds(files) == Wanted(Produced(o, t.Some?))
  {
    var d := Defaulted(o);
    var e := IfAsked(d.excessOnly, ExcessFile(rows, c));
    var a := IfAsked(d.allSlots, AllSlotsFile(rows, c));
    var w := IfDayWise(rows, t, c, loss, d.daywise);
    KindsAppend(e, a);
    KindsAppend(e + a, w);
    WantedOrder(Produced(o, t.Some?));
    e + a + w
  }

  /** Every report of a request keeps to what `Sound` demands. */
  lemma ReportsSound(rows: seq<Row>, t: Option<seq<DayRow>>, c: Common, loss: real, o: Options)
    ensures Each(Reports(rows, t, c, loss, o), rows, c, t, loss)
  {
    var d := Defaulted(o);
    var e := IfAsked(d.excessOnly, ExcessFile(rows, c));
    var a := IfAsked(d.allSlots, AllSlotsFile(rows, c));
    var w := IfDayWise(rows, t, c, loss, d.daywise);
    ExcessFileSound(rows, c, t, loss);
    AllSlotsFileSound(rows, c, t, loss);
    IfAskedSound(d.excessOnly, ExcessFile(rows, c), rows, c, t, loss);
    IfAskedSound(d.allSlots, AllSlotsFile(rows, c), rows, c, t, loss);
    EachAppend(e, a, rows, c, t, loss);
    EachAppend(e + a, w, rows, c, t, loss);
  }

  // ---------------------------------------------------------------------
  // The whole request
  // ---------------------------------------------------------------------

  /** The generation side through the shifted window, or its error page. */
  function GenSide(gen: seq<Readings.Reading>, sel: Selections.Selection): Result<seq<Readings.Reading>> {
    Selections.SelectReadings(gen, sel, GenEmpty, true)
  }

  /** The consumption side through the shifted window, or its error page. */
  function ConsSide(cons: seq<Readings.Reading>, sel: Selections.Selection): Result<seq<Readings.Reading>> {
    Selections.SelectReadings(cons, sel, ConsEmpty, true)
  }

  /**
   * Both sides selected (the generation side first, so its error wins),
   * joined over the union of their slots, clamped and sorted. The table's
   * excess is never negative and every row carries the loss relation.
   */
  function Join(gen: seq<Readings.Reading>, cons: seq<Readings.Reading>, loss: real, factor: real,
                sel: Selections.Selection): (j: Result<Joined>)
    ensures j.Ok? <==> GenSide(gen, sel).Ok? && ConsSide(cons, sel).Ok?
    ensures GenSide(gen, sel).Err? ==> j == Err(GenSide(gen, sel).msg)
    ensures GenSide(gen, sel).Ok? && ConsSide(cons, sel).Err? ==> j == Err(ConsSide(cons, sel).msg)
    ensures j.Ok? ==> j.value.gf == GenSide(gen, sel).value && j.value.cf == ConsSide(cons, sel).value
    ensures j.Ok? ==> NonNegative(j.value.rows) && LossApplied(j.value.rows, loss)
  {
    match (GenSide(gen, sel), ConsSide(cons, sel))
    case (Err(e), _) => Err(e)
    case (_, Err(e)) => Err(e)
    case (Ok(gf), Ok(cf)) =>
      var gs := Readings.GenerationRows(gf, loss);
      var cs := Readings.ConsumptionRows(cf, factor);
      var merged := Rows(gs, cs);
      var rows := SortRows(merged);
      Readings.GenerationAppliesLoss(gf, loss);
      Readings.MergeAppliesLoss(gs, cs, loss);
      assert LossApplied(merged, loss) by {
        forall i | 0 <= i < |merged| ensures merged[i].afterLoss == Readings.AfterLoss(merged[i].kwhGen, loss) {
          assert Readings.LossApplied(Readings.Merge(gs, cs)[i], loss);
        }
      }
      assert NonNegative(rows) && LossApplied(rows, loss) by {
        forall i | 0 <= i < |rows|
          ensures rows[i].excess >= 0.0 && rows[i].afterLoss == Readings.AfterLoss(rows[i].kwhGen, loss)
        {
          assert rows[i] in multiset(merged);
          var k :| 0 <= k < |merged| && merged[k] == rows[i];
        }
      }
      Ok(Joined(gf, cf, rows))
  }

  /**
   * The handler's POST path: the two sides are joined, the reports asked
   * for (all slots when none is) come out in order, a failed day-wise
   * report is skipped, one report is sent as it is and several as a zip,
   * and an empty list is the "select at least one" error page.
   */
  function Process(gen: seq<Readings.Reading>, cons: seq<Readings.Reading>, loss: real, factor: real,
                   sel: Selections.Selection, o: Options): (d: Result<Download<File>>)
    ensures Join(gen, cons, loss, factor, sel).Err? ==> d == Err(Join(gen, cons, loss, factor, sel).msg)
    ensures Join(gen, cons, loss, factor, sel).Ok? ==>
      var j := Join(gen, cons, loss, factor, sel).value;
      var want := Wanted(Produced(o, DayWise(j.rows, sel).Some?));
      (d.Err? <==> |want| == 0) && (d.Err? ==> d.msg == NoPdf)
      && (d.Ok? ==> Kinds(Contents(d.value)) == want && !d.value.NoDownload? && (d.value.Zip? <==> |want| > 1))
    ensures d.Ok? ==> Join(gen, cons, loss, factor, sel).Ok?
  {
    match Join(gen, cons, loss, factor, sel)
    case Err(e) => Err(e)
    case Ok(j) =>
      var t := DayWise(j.rows, sel);
      var files := Reports(j.rows, t, CommonOf(j), loss, o);
      Packaged(files, Wanted(Produced(o, t.Some?)));
      if |files| == 0 then Err(NoPdf) else Ok(Package(files))
  }

  /** The reports of a request, packaged, hold the kinds asked for. */
  lemma Packaged(files: seq<File>, want: seq<ReportKind>)
    requires Kinds(files) == want
    ensures |files| == 0 <==> |want| == 0
    ensures |files| > 0 ==>
      Kinds(Contents(Package(files))) == want && !Package(files).NoDownload? && (Package(files).Zip? <==> |want| > 1)
  {
  }

  /**
   * Every report that comes out keeps to `Sound` against the joined table,
   * its shared lines and its day table.
   */
  lemma ProcessSound(gen: seq<Readings.Reading>, cons: seq<Readings.Reading>, loss: real, factor: real,
                     sel: Selections.Selection, o: Options)
    requires Process(gen, cons, loss, factor, sel, o).Ok?
    ensures var j := Join(gen, cons, loss, factor, sel).value;
      Each(Contents(Process(gen, cons, loss, factor, sel, o).value), j.rows, CommonOf(j), DayWise(j.rows, sel), loss)
  {
    var j := Join(gen, cons, loss, factor, sel).value;
    ReportsSound(j.rows, DayWise(j.rows, sel), CommonOf(j), loss, o);
  }

  /** Every reading carries a calendar date (no `NaT`). */
  predicate ReadingsDated(rs: seq<Readings.Reading>) {
    forall i :: 0 <= i < |rs| ==> Calendar.ValidDate(rs[i].date)
  }

  /** With a month selected, every row of the joined table lies in the shifted window's days. */
  lemma JoinShifted(gen: seq<Readings.Reading>, cons: seq<Readings.Reading>, loss: real, factor: real,
                    sel: Selections.Selection)
    requires sel.year.Some? && sel.month.Some? && Calendar.ValidMonth(sel.month.value)
    requires ReadingsDated(gen) && ReadingsDated(cons)
    requires Join(gen, cons, loss, factor, sel).Ok?
    ensures ShiftedMonthRows(Join(gen, cons, loss, factor, sel).value.rows, sel.year.value, sel.month.value)
  {
    var j := Join(gen, cons, loss, factor, sel).value;
    var gs := Readings.GenerationRows(j.gf, loss);
    var cs := Readings.ConsumptionRows(j.cf, factor);
    var merged := Rows(gs, cs);
    assert j.rows == SortRows(merged);
    forall i | 0 <= i < |j.rows|
      ensures (Calendar.ValidDate(j.rows[i].key.date) && j.rows[i].key.date.year == sel.year.value
               && j.rows[i].key.date.month == sel.month.value)
        || j.rows[i].key.date == Calendar.NextMonthFirst(sel.year.value, sel.month.value)
    {
      SortedRowKey(gs, cs, j.rows[i]);
      Selections.ShiftedKeyInMonth(gen, cons, sel, GenEmpty, ConsEmpty, loss, factor, j.rows[i].key);
    }
  }

  /** A row of the sorted join carries a key of one of the two sides. */
  lemma SortedRowKey(gs: seq<Readings.GenSlot>, cs: seq<Readings.ConsSlot>, r: Row)
    requires r in SortRows(Rows(gs, cs))
    ensures r.key in Readings.GenKeys(gs) || r.key in Readings.ConsKeys(cs)
  {
    SortedMember(Rows(gs, cs), r);
    MergedRowKey(gs, cs, r);
  }

  /** Sorting neither adds nor drops a row. */
  lemma SortedMember(rows: seq<Row>, r: Row)
    requires r in SortRows(rows)
    ensures r in rows
  {
    assert r in multiset(SortRows(rows));
  }

  /** A row of the merged table carries a key one of the sides has. */
  lemma MergedRowKey(gs: seq<Readings.GenSlot>, cs: seq<Readings.ConsSlot>, r: Row)
    requires r in Rows(gs, cs)
    ensures r.key in Readings.GenKeys(gs) || r.key in Readings.ConsKeys(cs)
  {
    var merged := Rows(gs, cs);
    var k :| 0 <= k < |merged| && merged[k] == r;
    assert r.key == Readings.Merge(gs, cs)[k].key;
  }

  /**
   * A day-wise report of month `m`: one row per day of the month in order,
   * and day columns that, with the rows of the next month's 1st, make the
   * totals printed under the table.
   */
  predicate MonthReport(f: File, rows: seq<Row>, y: int, m: int)
    requires Calendar.ValidMonth(m)
  {
    var late := Tables.Filter(rows, Tables.KeyIs(RowDate, Calendar.NextMonthFirst(y, m)));
    f.pdf.DayPdf?
    && |f.pdf.days| == Calendar.LastDay(y, m)
    && (forall i :: 0 <= i < |f.pdf.days| ==> f.pdf.days[i].date == Calendar.Date(y, m, i + 1))
    && Tables.Sum(f.pdf.days, DayAfterLoss) + Tables.Sum(late, AfterLossOf) == f.pdf.totals.afterLoss
    && Tables.Sum(f.pdf.days, DayCons) + Tables.Sum(late, ConsOf) == f.pdf.totals.consumed
    && Tables.Sum(f.pdf.days, DayExcess) + Tables.Sum(late, ExcessOf) == f.pdf.totals.excess
  }

  /** The day-wise report of a table inside the shifted month window is a `MonthReport`. */
  lemma MonthDayPdf(f: File, rows: seq<Row>, sel: Selections.Selection)
    requires sel.year.Some? && sel.month.Some? && Calendar.ValidMonth(sel.month.value)
    requires ShiftedMonthRows(rows, sel.year.value, sel.month.value)
    requires f.pdf.DayPdf? && DaysOfAll(f, rows, DayWise(rows, sel))
    ensures MonthReport(f, rows, sel.year.value, sel.month.value)
  {
    MonthDayTable(rows, sel.year.value, sel.month.value);
  }

  /**
   * For a month request, the day-wise report that comes out is a
   * `MonthReport` of the joined table.
   */
  lemma ProcessMonth(gen: seq<Readings.Reading>, cons: seq<Readings.Reading>, loss: real, factor: real,
                     sel: Selections.Selection, o: Options, f: File)
    requires sel.year.Some? && sel.month.Some? && Calendar.ValidMonth(sel.month.value)
    requires ReadingsDated(gen) && ReadingsDated(cons)
    requires Process(gen, cons, loss, factor, sel, o).Ok?
    requires f in Contents(Process(gen, cons, loss, factor, sel, o).value) && f.pdf.DayPdf?
    ensures MonthReport(f, Join(gen, cons, loss, factor, sel).value.rows, sel.year.value, sel.month.value)
  {
    var j := Join(gen, cons, loss, factor, sel).value;
    assert DaysOfAll(f, j.rows, DayWise(j.rows, sel)) by {
      FileSound(gen, cons, loss, factor, sel, o, f);
    }
    assert ShiftedMonthRows(j.rows, sel.year.value, sel.month.value) by {
      JoinShifted(gen, cons, loss, factor, sel);
    }
    MonthDayPdf(f, j.rows, sel);
  }

  /** One report that comes out keeps to `Sound`. */
  lemma FileSound(gen: seq<Readings.Reading>, cons: seq<Readings.Reading>, loss: real, factor: real,
                  sel: Selections.Selection, o: Options, f: File)
    requires Process(gen, cons, loss, factor, sel, o).Ok?
    requires f in Contents(Process(gen, cons, loss, factor, sel, o).value)
    ensures var j := Join(gen, cons, loss, factor, sel).value;
      Sound(f, j.rows, CommonOf(j), DayWise(j.rows, sel), loss)
  {
    var j := Join(gen, cons, loss, factor, sel).value;
    ProcessSound(gen, cons, loss, factor, sel, o);
    EachMember(Contents(Process(gen, cons, loss, factor, sel, o).value), j.rows, CommonOf(j), DayWise(j.rows, sel), loss, f);
  }

  lemma EachMember(files: seq<File>, rows: seq<Row>, c: Common, t: Option<seq<DayRow>>, loss: real, f: File)
    requires Each(files, rows, c, t, loss) && f in files
    ensures Sound(f, rows, c, t, loss)
  {
    var i :| 0 <= i < |files| && files[i] == f;
  }
}
