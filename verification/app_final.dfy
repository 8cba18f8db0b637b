/**
 * The newer Flask handler: the month selection, the join with an unclamped
 * excess, the Missing_Info tag, the output filters, the sort on the
 * (Slot_Date, Slot_Time) strings, the TOD totals, the fixed billing chain
 * with its two-step wheeling charge, and the day-wise table.
 */
module FinalReport {
  import opened Wrappers
  import Tables
  import Calendar
  import Readings
  import Tod
  import Numerals
  import Selections
  import opened Downloads

  const GenEmpty := "No data found for the selected filters."
  const ConsEmpty := "No data found for the selected filters in the CONSUMED file."

  // ---------------------------------------------------------------------
  // Joined rows
  // ---------------------------------------------------------------------

  /** A row of the joined table with the columns the report prints. */
  datatype Row = Row(key: Readings.Key, afterLoss: real, cons: real, excess: real, missing: string)

  /**
   * Missing_Info, assigned in three steps where a later step overrides an
   * earlier one: 'G' when After_Loss is 0, then 'C' when consumption is 0,
   * then 'B' when both are.
   */
  function MissingInfo(afterLoss: real, cons: real): (tag: string)
    ensures tag == "B" <==> afterLoss == 0.0 && cons == 0.0
    ensures tag == "C" <==> afterLoss != 0.0 && cons == 0.0
    ensures tag == "G" <==> afterLoss == 0.0 && cons != 0.0
    ensures tag == "" <==> afterLoss != 0.0 && cons != 0.0
  {
    var tag0 := "";
    var tag1 := if afterLoss == 0.0 then "G" else tag0;
    var tag2 := if cons == 0.0 then "C" else tag1;
    if afterLoss == 0.0 && cons == 0.0 then "B" else tag2
  }

  /** The excess of this handler is not clamped: it is negative whenever consumption exceeds generation. */
  function Annotate(s: Readings.Slot): (r: Row)
    ensures r.key == s.key && r.afterLoss == s.afterLoss && r.cons == s.cons
    ensures r.excess < 0.0 <==> s.afterLoss < s.cons
    ensures r.excess > 0.0 <==> s.afterLoss > s.cons
    ensures r.missing == MissingInfo(s.afterLoss, s.cons)
  {
    Row(s.key, s.afterLoss, s.cons, s.afterLoss - s.cons, MissingInfo(s.afterLoss, s.cons))
  }

  function AnnotateAll(slots: seq<Readings.Slot>): (rows: seq<Row>)
    ensures |rows| == |slots| && forall i :: 0 <= i < |slots| ==> rows[i] == Annotate(slots[i])
  {
    seq(|slots|, i requires 0 <= i < |slots| => Annotate(slots[i]))
  }

  function AfterLossOf(r: Row): real { r.afterLoss }
  function ConsOf(r: Row): real { r.cons }
  function ExcessOf(r: Row): real { r.excess }

  /** The excess column totals to generation after loss minus consumption. */
  lemma ExcessTotal(slots: seq<Readings.Slot>)
    ensures var rows := AnnotateAll(slots);
      Tables.Sum(rows, ExcessOf) == Tables.Sum(rows, AfterLossOf) - Tables.Sum(rows, ConsOf)
  {
    var rows := AnnotateAll(slots);
    assert forall i :: 0 <= i < |rows| ==> ExcessOf(rows[i]) == AfterLossOf(rows[i]) + NegConsOf(rows[i]);
    ExcessSum(rows);
  }

  function NegConsOf(r: Row): real { -r.cons }

  lemma ExcessSum(rows: seq<Row>)
    requires forall i :: 0 <= i < |rows| ==> ExcessOf(rows[i]) == AfterLossOf(rows[i]) + NegConsOf(rows[i])
    ensures Tables.Sum(rows, ExcessOf) == Tables.Sum(rows, AfterLossOf) - Tables.Sum(rows, ConsOf)
  {
    Tables.SumAdd(rows, AfterLossOf, NegConsOf, ExcessOf);
    Tables.SumScale(rows, ConsOf, -1.0, NegConsOf);
  }

  // ---------------------------------------------------------------------
  // Output filters and ordering
  // ---------------------------------------------------------------------

  predicate PositiveExcess(r: Row) { r.excess > 0.0 }
  predicate BothSides(r: Row) { r.afterLoss > 0.0 && r.cons > 0.0 }

  /** The rows the two output options keep. */
  predicate Kept(r: Row, o: Options) {
    (!o.excessOnly || r.excess > 0.0) && (o.allSlots || (r.afterLoss > 0.0 && r.cons > 0.0))
  }

  /**
   * `show_excess_only` keeps only positive excess; without `show_all_slots`
   * only rows with both sides positive survive; nothing else is removed.
   */
  function Select(rows: seq<Row>, o: Options): (kept: seq<Row>)
    ensures forall r :: multiset(kept)[r] == if Kept(r, o) then multiset(rows)[r] else 0
    ensures forall i :: 0 <= i < |kept| ==> Kept(kept[i], o)
  {
    var a := if o.excessOnly then Tables.Filter(rows, PositiveExcess) else rows;
    var b := if o.allSlots then a else Tables.Filter(a, BothSides);
    SelectOneMask(rows, o);
    b
  }

  /** The two filters in a row keep the same rows, in the same order, as one mask. */
  lemma SelectOneMask(rows: seq<Row>, o: Options)
    ensures (var a := if o.excessOnly then Tables.Filter(rows, PositiveExcess) else rows;
             if o.allSlots then a else Tables.Filter(a, BothSides))
            == Tables.Filter(rows, r => Kept(r, o))
  {
    var e := PositiveExcess;
    var both := BothSides;
    var kept := (r: Row) => Kept(r, o);
    if o.excessOnly && !o.allSlots {
      Tables.FilterFilter(rows, e, both, kept);
    } else if o.excessOnly {
      Tables.FilterPointwise(rows, e, kept);
    } else if !o.allSlots {
      Tables.FilterPointwise(rows, both, kept);
    } else {
      Tables.FilterPointwise(rows, r => true, kept);
      Tables.FilterAll(rows);
    }
  }

  /**
   * `sort_values(['Slot_Date', 'Slot_Time'])` on the text columns: the
   * dd/mm/yyyy date text, then the slot text, both compared as strings.
   */
  function SortKey(r: Row): seq<int> {
    Tables.Codes(Calendar.DateString(r.key.date)) + [-1] + Tables.Codes(r.key.time)
  }

  function DateText(r: Row): seq<int> {
    Tables.Codes(Calendar.DateString(r.key.date))
  }

  function SortRows(rows: seq<Row>): (sorted: seq<Row>)
    ensures multiset(sorted) == multiset(rows)
    ensures forall i, j :: 0 <= i < j < |sorted| ==> Tables.LexLe(DateText(sorted[i]), DateText(sorted[j]))
    ensures forall i, j :: 0 <= i < j < |sorted| && DateText(sorted[i]) == DateText(sorted[j]) ==>
      Tables.LexLe(Tables.Codes(sorted[i].key.time), Tables.Codes(sorted[j].key.time))
  {
    var sorted := Tables.SortBy(rows, SortKey);
    forall i, j | 0 <= i < j < |sorted|
      ensures Tables.LexLe(DateText(sorted[i]), DateText(sorted[j]))
      ensures DateText(sorted[i]) == DateText(sorted[j])
        ==> Tables.LexLe(Tables.Codes(sorted[i].key.time), Tables.Codes(sorted[j].key.time))
    {
      SortKeyOrder(sorted[i], sorted[j]);
    }
    sorted
  }

  /** Rows in sort-key order are in date-text order, and in slot-text order within one date text. */
  lemma SortKeyOrder(r: Row, s: Row)
    requires Tables.LexLe(SortKey(r), SortKey(s))
    ensures Tables.LexLe(DateText(r), DateText(s))
    ensures DateText(r) == DateText(s) ==> Tables.LexLe(Tables.Codes(r.key.time), Tables.Codes(s.key.time))
  {
    Tables.LexLeSeparated(DateText(r), Tables.Codes(r.key.time), DateText(s), Tables.Codes(s.key.time));
  }

  /**
   * Within one month the dd/mm/yyyy text orders dates by day, so the sort
   * on the text column puts a month's rows in calendar order.
   */
  lemma DateTextOrder(a: Calendar.Date, b: Calendar.Date)
    requires Calendar.ValidDate(a) && Calendar.ValidDate(b) && 0 <= a.year < 10000
    requires a.year == b.year && a.month == b.month
    requires Tables.LexLe(Tables.Codes(Calendar.DateString(a)), Tables.Codes(Calendar.DateString(b)))
    ensures a.day <= b.day
  {
    var da := DayField(a);
    var db := DayField(b);
    Tables.LexLeFirstTwo(Tables.Codes(Calendar.DateString(a)), Tables.Codes(Calendar.DateString(b)));
    DigitPair(da, a.day);
    DigitPair(db, b.day);
  }

  /** The two-character day field at the head of the dd/mm/yyyy text. */
  function DayField(d: Calendar.Date): (s: string)
    requires Calendar.ValidDate(d)
    ensures |s| == 2 && Numerals.AllDigits(s) && Numerals.ParseNat(s) == Some(d.day)
    ensures |Calendar.DateString(d)| >= 2 && Calendar.DateString(d)[0] == s[0] && Calendar.DateString(d)[1] == s[1]
  {
    assert Numerals.Pow10(2) == 100;
    var s := Numerals.ZeroPad(d.day, 2);
    assert Calendar.DateString(d) == s + Calendar.DateString(d)[2..];
    s
  }

  /** A two-digit field's characters are the tens and the units digit of its value. */
  lemma DigitPair(s: string, n: nat)
    requires |s| == 2 && Numerals.AllDigits(s) && Numerals.ParseNat(s) == Some(n)
    ensures n == 10 * (s[0] as int - '0' as int) + (s[1] as int - '0' as int)
    ensures 0 <= s[1] as int - '0' as int < 10
  {
    assert Numerals.DigitsValue(s) == n;
    assert s[..1][..0] == [];
    assert Numerals.IsDigit(s[1]);
    assert Numerals.DigitsValue(s[..1]) == s[0] as int - '0' as int;
  }

  /** Sorted rows of one month come out in calendar order. */
  lemma SortedMonthInDayOrder(rows: seq<Row>, y: int, m: int)
    requires 0 <= y < 10000
    requires forall i :: 0 <= i < |rows| ==>
      (Calendar.ValidDate(rows[i].key.date) && rows[i].key.date.year == y && rows[i].key.date.month == m)
    ensures var sorted := SortRows(rows);
      forall i, j :: 0 <= i < j < |sorted| ==> sorted[i].key.date.day <= sorted[j].key.date.day
  {
    var sorted := SortRows(rows);
    forall i, j | 0 <= i < j < |sorted|
      ensures sorted[i].key.date.day <= sorted[j].key.date.day
    {
      assert sorted[i] in multiset(rows) && sorted[j] in multiset(rows);
      DateTextOrder(sorted[i].key.date, sorted[j].key.date);
    }
  }

  // ---------------------------------------------------------------------
  // TOD totals and the bill
  // ---------------------------------------------------------------------

  function CategoryOf(r: Row): Tod.Category {
    Tod.ClassifyStrict(r.key.time)
  }

  /** One group of `groupby('TOD_Category')['Excess'].sum()`. */
  function CategoryTotal(rows: seq<Row>, k: Tod.Category): (t: real)
    ensures t == Tables.KeyTotal(rows, CategoryOf, ExcessOf, k)
  {
    Tables.Sum(Tables.Filter(rows, Tables.KeyIs(CategoryOf, k)), ExcessOf)
  }

  const Categories: seq<Tod.Category> := [Tod.C1, Tod.C2, Tod.C4, Tod.C5, Tod.Unknown]

  /** The TOD groups add up to the total excess, so C1+C2, C5 and the rest partition it. */
  lemma CategoriesPartition(rows: seq<Row>)
    ensures CategoryTotal(rows, Tod.C1) + CategoryTotal(rows, Tod.C2) + CategoryTotal(rows, Tod.C4)
      + CategoryTotal(rows, Tod.C5) + CategoryTotal(rows, Tod.Unknown) == Tables.Sum(rows, ExcessOf)
  {
    var t := (k: Tod.Category) => Tables.KeyTotal(rows, CategoryOf, ExcessOf, k);
    forall i | 0 <= i < |rows| ensures CategoryOf(rows[i]) in Categories {
      match CategoryOf(rows[i]) {
        case C1 => assert Categories[0] == Tod.C1;
        case C2 => assert Categories[1] == Tod.C2;
        case C4 => assert Categories[2] == Tod.C4;
        case C5 => assert Categories[3] == Tod.C5;
        case Unknown => assert Categories[4] == Tod.Unknown;
      }
    }
    Tables.SumByKey(Categories, rows, CategoryOf, ExcessOf);
    assert Tables.Sum(Categories, t) == t(Tod.C1) + t(Tod.C2) + t(Tod.C4) + t(Tod.C5) + t(Tod.Unknown) by {
      assert Categories[1..][1..][1..][1..][1..] == [];
    }
  }

  /**
   * A float64 as numpy computes it: a finite value, an infinity, or nan.
   * Dividing a numpy scalar by zero gives ±inf (nan for 0/0) with a
   * warning instead of raising.
   */
  datatype Float = Finite(v: real) | Infinite(negative: bool) | NaN

  /** numpy's `a / b` on float64 scalars. */
  function Divide(a: real, b: real): (q: Float)
    ensures b != 0.0 ==> q == Finite(a / b)
    ensures b == 0.0 ==> (q.NaN? <==> a == 0.0)
    ensures b == 0.0 && a != 0.0 ==> q == Infinite(a < 0.0)
  {
    if b != 0.0 then Finite(a / b)
    else if a == 0.0 then NaN
    else Infinite(a < 0.0)
  }

  datatype Bill = Bill(
    base: real, c1c2: real, c5: real, subtotal: real, etax: real, withEtax: real,
    etaxOnIex: real, crossSubsidy: real, x: Float, y: Float, wheeling: Float, final: Float)

  /**
   * The billing chain of the report: base rate 7.25 on all excess, 1.81 on
   * C1+C2 excess and 0.3625 on C5 excess, 5 % E-Tax on their sum, less the
   * 0.1 E-Tax on IEX, the 1.92 cross-subsidy surcharge and the two-step
   * wheeling charge. At a loss of 100 % the step x divides by zero, which
   * numpy turns into ±inf, so y falls back to E; only E = 0 gives nan.
   */
  function ComputeBill(e: real, e12: real, e5: real, loss: real): (r: Bill)
    ensures r.x.NaN? <==> loss == 100.0 && e == 0.0
    ensures loss != 100.0 && e * loss != 0.0 ==> r.y == Finite(e + (100.0 - loss))
    ensures loss != 100.0 && e * loss == 0.0 ==> r.y == Finite(e)
    ensures loss == 100.0 && e != 0.0 ==> r.x.Infinite? && r.y == Finite(e)
    ensures r.y.NaN? <==> loss == 100.0 && e == 0.0
    ensures r.y.Finite? ==> r.wheeling == Finite(1.04 * r.y.v)
    ensures r.y.Finite? ==>
      r.final == Finite(1.05 * (7.25 * e + 1.81 * e12 + 0.3625 * e5) - 2.02 * e - 1.04 * r.y.v)
    ensures r.y.NaN? ==> r.wheeling.NaN? && r.final.NaN?
  {
    var base := e * 7.25;
    var c1c2 := e12 * 1.81;
    var c5 := e5 * 0.3625;
    var subtotal := base + c1c2 + c5;
    var etax := subtotal * 0.05;
    var withEtax := subtotal + etax;
    var etaxOnIex := e * 0.1;
    var cross := e * 1.92;
    var x := Divide(e * loss, 100.0 - loss);
    // `x != 0` holds for ±inf and nan; E·L/±inf is a signed zero, and E·L/nan is nan.
    var y := match x
      case Finite(v) => if v != 0.0 then Finite((e * loss / v) + e) else Finite(e)
      case Infinite(_) => Finite(e)
      case NaN => NaN;
    assert loss != 100.0 && e * loss != 0.0 ==> y == Finite(e + (100.0 - loss)) by {
      if loss != 100.0 { WheelingStep(e, loss); }
    }
    var wheeling := if y.Finite? then Finite(y.v * 1.04) else NaN;
    var final := if wheeling.Finite? then Finite(withEtax - (etaxOnIex + cross + wheeling.v)) else NaN;
    Bill(base, c1c2, c5, subtotal, etax, withEtax, etaxOnIex, cross, x, y, wheeling, final)
  }

  /** x is zero exactly when E·L is, and otherwise E·L/x is 100 − L. */
  lemma WheelingStep(e: real, loss: real)
    requires loss != 100.0
    ensures var x := (e * loss) / (100.0 - loss);
      (x == 0.0 <==> e * loss == 0.0) && (x != 0.0 ==> e * loss / x == 100.0 - loss)
  {
    var q := 100.0 - loss;
    var x := (e * loss) / q;
    assert x * q == e * loss;
    if x != 0.0 {
      assert (x * q) / x == q;
    }
  }

  /**
   * The wheeling charge jumps at zero loss: any positive loss below 100 %
   * adds 1.04·(100 − L) to the charge on the same non-zero excess.
   */
  lemma WheelingJump(e: real, e12: real, e5: real, loss: real)
    requires e != 0.0 && 0.0 < loss < 100.0
    ensures ComputeBill(e, e12, e5, loss).wheeling
      == Finite(ComputeBill(e, e12, e5, 0.0).wheeling.v + 1.04 * (100.0 - loss))
  {
    assert e * loss != 0.0;
  }

  /**
   * At a loss of exactly 100 % the jump disappears again: on non-zero excess
   * the wheeling charge and the amount collected are those of zero loss.
   */
  lemma FullLossBill(e: real, e12: real, e5: real)
    requires e != 0.0
    ensures ComputeBill(e, e12, e5, 100.0).wheeling == ComputeBill(e, e12, e5, 0.0).wheeling == Finite(1.04 * e)
    ensures ComputeBill(e, e12, e5, 100.0).final == ComputeBill(e, e12, e5, 0.0).final
  {
    assert e * 100.0 != 0.0;
  }

  /** The bill of a table of rows: the excess total and the C1+C2 and C5 groups. */
  function BillFor(rows: seq<Row>, loss: real): (r: Bill)
    ensures r == ComputeBill(Tables.Sum(rows, ExcessOf),
      CategoryTotal(rows, Tod.C1) + CategoryTotal(rows, Tod.C2), CategoryTotal(rows, Tod.C5), loss)
    ensures r.final.NaN? <==> loss == 100.0 && Tables.Sum(rows, ExcessOf) == 0.0
  {
    ComputeBill(Tables.Sum(rows, ExcessOf),
      CategoryTotal(rows, Tod.C1) + CategoryTotal(rows, Tod.C2), CategoryTotal(rows, Tod.C5), loss)
  }

  // ---------------------------------------------------------------------
  // Day-wise table
  // ---------------------------------------------------------------------

  datatype DayRow = DayRow(date: Calendar.Date, afterLoss: real, cons: real, excess: real)

  function RowDate(r: Row): Calendar.Date { r.key.date }

  /** One column of `groupby('Slot_Date')`, reindexed: 0 for a day without rows. */
  function DayTotal(rows: seq<Row>, d: Calendar.Date, f: Row -> real): (t: real)
    ensures t == Tables.KeyTotal(rows, RowDate, f, d)
    ensures (forall i :: 0 <= i < |rows| ==> rows[i].key.date != d) ==> t == 0.0
  {
    var group := Tables.Filter(rows, Tables.KeyIs(RowDate, d));
    assert (forall i :: 0 <= i < |rows| ==> rows[i].key.date != d) ==> group == [] by {
      if |group| > 0 {
        assert group[0] in multiset(group);
      }
    }
    Tables.Sum(group, f)
  }

  function DayRowOf(rows: seq<Row>, d: Calendar.Date): DayRow {
    DayRow(d, DayTotal(rows, d, AfterLossOf), DayTotal(rows, d, ConsOf), DayTotal(rows, d, ExcessOf))
  }

  function DayTable(rows: seq<Row>, days: seq<Calendar.Date>): (t: seq<DayRow>)
    ensures |t| == |days| && forall i :: 0 <= i < |days| ==> t[i] == DayRowOf(rows, days[i])
  {
    seq(|days|, i requires 0 <= i < |days| => DayRowOf(rows, days[i]))
  }

  function RowDates(rows: seq<Row>): (ds: seq<Calendar.Date>)
    ensures |ds| == |rows| && forall i :: 0 <= i < |rows| ==> ds[i] == rows[i].key.date
  {
    seq(|rows|, i requires 0 <= i < |rows| => rows[i].key.date)
  }

  /**
   * The day index of the day-wise report: every day 1..last_day of the
   * selected month when both year and month are given, otherwise the dates
   * of the rows in order of first appearance.
   */
  function DayIndex(rows: seq<Row>, sel: Selections.Selection): (days: Result<seq<Calendar.Date>>)
    ensures sel.year.Some? && sel.month.Some? ==> (days.Ok? <==> Calendar.ValidMonth(sel.month.value))
    ensures !(sel.year.Some? && sel.month.Some?) ==> days.Ok?
    ensures days.Ok? ==> Tables.Distinct(days.value)
    ensures days.Ok? && sel.year.Some? && sel.month.Some? ==>
      |days.value| == Calendar.LastDay(sel.year.value, sel.month.value)
      && forall i :: 0 <= i < |days.value| ==> days.value[i] == Calendar.Date(sel.year.value, sel.month.value, i + 1)
    ensures days.Ok? && !(sel.year.Some? && sel.month.Some?) ==>
      forall d :: d in days.value <==> exists i :: 0 <= i < |rows| && rows[i].key.date == d
  {
    if sel.year.Some? && sel.month.Some? then
      var md := Calendar.MonthDays(sel.year.value, sel.month.value);
      if md.Ok? then
        assert Tables.Distinct(md.value) by {
          forall i, j | 0 <= i < j < |md.value| ensures md.value[i] != md.value[j] {
            assert md.value[i].day == i + 1 && md.value[j].day == j + 1;
          }
        }
        md
      else md
    else
      var ds := RowDates(rows);
      assert forall d :: d in ds <==> exists i :: 0 <= i < |rows| && rows[i].key.date == d by {
        forall d | d in ds ensures exists i :: 0 <= i < |rows| && rows[i].key.date == d {
          var i :| 0 <= i < |ds| && ds[i] == d;
        }
        forall d | exists i :: 0 <= i < |rows| && rows[i].key.date == d ensures d in ds {
          var i :| 0 <= i < |rows| && rows[i].key.date == d;
          assert ds[i] == d;
        }
      }
      Ok(Tables.Unique(ds))
  }

  /** The day-wise table: one row per indexed day with the sums of that day's rows. */
  function DayWise(rows: seq<Row>, sel: Selections.Selection): (t: Result<seq<DayRow>>)
    ensures t.Ok? <==> DayIndex(rows, sel).Ok?
    ensures t.Ok? ==> |t.value| == |DayIndex(rows, sel).value|
    ensures t.Ok? ==> forall i :: 0 <= i < |t.value| ==> t.value[i] == DayRowOf(rows, DayIndex(rows, sel).value[i])
  {
    match DayIndex(rows, sel)
    case Ok(days) => Ok(DayTable(rows, days))
    case Err(e) => Err(e)
  }

  function DayAfterLoss(d: DayRow): real { d.afterLoss }
  function DayCons(d: DayRow): real { d.cons }
  function DayExcess(d: DayRow): real { d.excess }

  /**
   * When every row's date is in the day index, the day-wise table keeps the
   * totals of all three columns.
   */
  lemma DayTableConserves(rows: seq<Row>, days: seq<Calendar.Date>)
    requires Tables.Distinct(days)
    requires forall i :: 0 <= i < |rows| ==> rows[i].key.date in days
    ensures Tables.Sum(DayTable(rows, days), DayAfterLoss) == Tables.Sum(rows, AfterLossOf)
    ensures Tables.Sum(DayTable(rows, days), DayCons) == Tables.Sum(rows, ConsOf)
    ensures Tables.Sum(DayTable(rows, days), DayExcess) == Tables.Sum(rows, ExcessOf)
  {
    var t := DayTable(rows, days);
    Tables.SumCorrespond(t, DayAfterLoss, days, k => Tables.KeyTotal(rows, RowDate, AfterLossOf, k));
    Tables.SumByKey(days, rows, RowDate, AfterLossOf);
    Tables.SumCorrespond(t, DayCons, days, k => Tables.KeyTotal(rows, RowDate, ConsOf, k));
    Tables.SumByKey(days, rows, RowDate, ConsOf);
    Tables.SumCorrespond(t, DayExcess, days, k => Tables.KeyTotal(rows, RowDate, ExcessOf, k));
    Tables.SumByKey(days, rows, RowDate, ExcessOf);
  }

  /**
   * The day-wise totals add up to the report's totals whenever the rows
   * belong to the selected month, and always when no full month is selected.
   */
  lemma DayWiseConserves(rows: seq<Row>, sel: Selections.Selection)
    requires DayWise(rows, sel).Ok?
    requires sel.year.Some? && sel.month.Some? ==> forall i :: 0 <= i < |rows| ==>
      Calendar.ValidDate(rows[i].key.date)
      && rows[i].key.date.year == sel.year.value && rows[i].key.date.month == sel.month.value
    ensures Tables.Sum(DayWise(rows, sel).value, DayAfterLoss) == Tables.Sum(rows, AfterLossOf)
    ensures Tables.Sum(DayWise(rows, sel).value, DayCons) == Tables.Sum(rows, ConsOf)
    ensures Tables.Sum(DayWise(rows, sel).value, DayExcess) == Tables.Sum(rows, ExcessOf)
  {
    var days := DayIndex(rows, sel).value;
    assert DayWise(rows, sel).value == DayTable(rows, days);
    forall i | 0 <= i < |rows| ensures rows[i].key.date in days {
      if sel.year.Some? && sel.month.Some? {
        var d := rows[i].key.date;
        assert days[d.day - 1] == d;
      }
    }
    DayTableConserves(rows, days);
  }

  // ---------------------------------------------------------------------
  // The whole request
  // ---------------------------------------------------------------------

  /** The report to send: the slot-wise report or the day-wise one. */
  datatype Report =
    | SlotReport(rows: seq<Row>, bill: Bill)
    | DayReport(days: seq<DayRow>, rows: seq<Row>, bill: Bill)

  /** The rows after the join, the options and the sort. */
  function ReportRows(gs: seq<Readings.GenSlot>, cs: seq<Readings.ConsSlot>, o: Options): (rows: seq<Row>)
    ensures forall r :: multiset(rows)[r] == if Kept(r, o) then multiset(AnnotateAll(Readings.Merge(gs, cs)))[r] else 0
  {
    SortRows(Select(AnnotateAll(Readings.Merge(gs, cs)), o))
  }

  /**
   * The POST handler once the sheets are read: select each side, convert
   * and join, filter and sort, then build the day-wise report when asked and
   * the slot-wise report otherwise.
   */
  function Index(gen: seq<Readings.Reading>, cons: seq<Readings.Reading>, loss: real, factor: real,
                 sel: Selections.Selection, o: Options): (r: Result<Report>)
    ensures r.Ok? <==>
      Selections.SelectReadings(gen, sel, GenEmpty).Ok? && Selections.SelectReadings(cons, sel, ConsEmpty).Ok?
    ensures r.Ok? ==> (r.value.DayReport? <==> o.daywise)
    ensures r.Ok? ==> forall i :: 0 <= i < |r.value.rows| ==> Kept(r.value.rows[i], o)
    ensures r.Ok? ==> r.value.bill == BillFor(r.value.rows, loss)
  {
    match (Selections.SelectReadings(gen, sel, GenEmpty), Selections.SelectReadings(cons, sel, ConsEmpty))
    case (Ok(gf), Ok(cf)) =>
      var gs := Readings.GenerationRows(gf, loss);
      var cs := Readings.ConsumptionRows(cf, factor);
      var rows := ReportRows(gs, cs, o);
      assert forall i :: 0 <= i < |rows| ==> Kept(rows[i], o) by {
        forall i | 0 <= i < |rows| ensures Kept(rows[i], o) {
          assert rows[i] in multiset(rows);
        }
      }
      if o.daywise then
        (match DayWise(rows, sel)
         case Ok(days) => Ok(DayReport(days, rows, BillFor(rows, loss)))
         case Err(e) => assert false; Err(e))
      else
        Ok(SlotReport(rows, BillFor(rows, loss)))
    case (Err(e), _) => Err(e)
    case (_, Err(e)) => Err(e)
  }

  /** A row of the report carries a key of one of the two sides. */
  lemma RowInMerge(gs: seq<Readings.GenSlot>, cs: seq<Readings.ConsSlot>, o: Options, row: Row)
    requires row in ReportRows(gs, cs, o)
    ensures row.key in Readings.GenKeys(gs) || row.key in Readings.ConsKeys(cs)
  {
    var merged := Readings.Merge(gs, cs);
    ReportRowAnnotated(gs, cs, o, row);
    AnnotatedKey(merged, row);
  }

  /** A reported row is one of the annotated joined rows. */
  lemma ReportRowAnnotated(gs: seq<Readings.GenSlot>, cs: seq<Readings.ConsSlot>, o: Options, row: Row)
    requires row in ReportRows(gs, cs, o)
    ensures row in AnnotateAll(Readings.Merge(gs, cs))
  {
    assert multiset(ReportRows(gs, cs, o))[row] > 0;
  }

  /** An annotated row carries the key of the joined row it comes from. */
  lemma AnnotatedKey(slots: seq<Readings.Slot>, row: Row)
    requires row in AnnotateAll(slots)
    ensures exists i :: 0 <= i < |slots| && slots[i].key == row.key
  {
    var all := AnnotateAll(slots);
    var j :| 0 <= j < |all| && all[j] == row;
    assert slots[j].key == row.key;
  }

  /** A row of the joined table comes from a kept reading of one of the sides. */
  lemma RowFromReading(gf: seq<Readings.Reading>, cf: seq<Readings.Reading>, loss: real, factor: real,
                       o: Options, row: Row)
    requires row in ReportRows(Readings.GenerationRows(gf, loss), Readings.ConsumptionRows(cf, factor), o)
    ensures exists r :: (r in gf || r in cf) && r.date == row.key.date
  {
    var gs := Readings.GenerationRows(gf, loss);
    var cs := Readings.ConsumptionRows(cf, factor);
    RowInMerge(gs, cs, o, row);
    if row.key in Readings.GenKeys(gs) {
      Readings.GenKeyDate(gf, loss, row.key);
    } else {
      Readings.ConsKeyDate(cf, factor, row.key);
    }
  }

  /**
   * With a full month selected, every row of the report is dated in that
   * month, so the day-wise table accounts for every row and the sort on
   * the date text puts the rows in calendar order.
   */
  lemma IndexMonth(gen: seq<Readings.Reading>, cons: seq<Readings.Reading>, loss: real, factor: real,
                   sel: Selections.Selection, o: Options)
    requires sel.year.Some? && sel.month.Some?
    requires forall i :: 0 <= i < |gen| ==> Calendar.ValidDate(gen[i].date)
    requires forall i :: 0 <= i < |cons| ==> Calendar.ValidDate(cons[i].date)
    requires Index(gen, cons, loss, factor, sel, o).Ok?
    ensures var rep := Index(gen, cons, loss, factor, sel, o).value;
      forall i :: 0 <= i < |rep.rows| ==>
        (Calendar.ValidDate(rep.rows[i].key.date)
         && rep.rows[i].key.date.year == sel.year.value && rep.rows[i].key.date.month == sel.month.value)
  {
    IndexRows(gen, cons, loss, factor, sel, o);
    var rows := Index(gen, cons, loss, factor, sel, o).value.rows;
    forall i | 0 <= i < |rows|
      ensures Calendar.ValidDate(rows[i].key.date)
      ensures rows[i].key.date.year == sel.year.value && rows[i].key.date.month == sel.month.value
    {
      ReportRowInMonth(gen, cons, loss, factor, sel, o, rows[i]);
    }
  }

  /** A successful request selected both sides, and its rows are the filtered, sorted join. */
  lemma IndexRows(gen: seq<Readings.Reading>, cons: seq<Readings.Reading>, loss: real, factor: real,
                  sel: Selections.Selection, o: Options)
    requires Index(gen, cons, loss, factor, sel, o).Ok?
    ensures Selections.SelectReadings(gen, sel, GenEmpty).Ok? && Selections.SelectReadings(cons, sel, ConsEmpty).Ok?
    ensures Index(gen, cons, loss, factor, sel, o).value.rows ==
      ReportRows(Readings.GenerationRows(Selections.SelectReadings(gen, sel, GenEmpty).value, loss),
                 Readings.ConsumptionRows(Selections.SelectReadings(cons, sel, ConsEmpty).value, factor), o)
  {
  }

  /** A reading the selection keeps is one of the sheet's readings and passes the filters. */
  lemma KeptReading(rs: seq<Readings.Reading>, sel: Selections.Selection, message: string, r: Readings.Reading)
    requires Selections.SelectReadings(rs, sel, message).Ok?
    requires r in Selections.SelectReadings(rs, sel, message).value
    ensures r in rs && Selections.Selected(r, sel)
  {
    assert r in multiset(Selections.SelectReadings(rs, sel, message).value);
    assert r in multiset(rs);
  }

  /** With a full month selected, a row of the report is dated in that month. */
  lemma ReportRowInMonth(gen: seq<Readings.Reading>, cons: seq<Readings.Reading>, loss: real, factor: real,
                         sel: Selections.Selection, o: Options, row: Row)
    requires sel.year.Some? && sel.month.Some?
    requires forall i :: 0 <= i < |gen| ==> Calendar.ValidDate(gen[i].date)
    requires forall i :: 0 <= i < |cons| ==> Calendar.ValidDate(cons[i].date)
    requires Selections.SelectReadings(gen, sel, GenEmpty).Ok? && Selections.SelectReadings(cons, sel, ConsEmpty).Ok?
    requires row in ReportRows(Readings.GenerationRows(Selections.SelectReadings(gen, sel, GenEmpty).value, loss),
                               Readings.ConsumptionRows(Selections.SelectReadings(cons, sel, ConsEmpty).value, factor), o)
    ensures Calendar.ValidDate(row.key.date)
    ensures row.key.date.year == sel.year.value && row.key.date.month == sel.month.value
  {
    var gf := Selections.SelectReadings(gen, sel, GenEmpty).value;
    var cf := Selections.SelectReadings(cons, sel, ConsEmpty).value;
    RowFromReading(gf, cf, loss, factor, o, row);
    var r :| (r in gf || r in cf) && r.date == row.key.date;
    if r in gf {
      KeptReading(gen, sel, GenEmpty, r);
    } else {
      KeptReading(cons, sel, ConsEmpty, r);
    }
    Selections.SelectedInMonth(r, sel);
  }

  /** The day-wise report of a full month has a row per day and keeps the report's totals. */
  lemma IndexDayWise(gen: seq<Readings.Reading>, cons: seq<Readings.Reading>, loss: real, factor: real,
                     sel: Selections.Selection, o: Options)
    requires sel.year.Some? && sel.month.Some?
    requires forall i :: 0 <= i < |gen| ==> Calendar.ValidDate(gen[i].date)
    requires forall i :: 0 <= i < |cons| ==> Calendar.ValidDate(cons[i].date)
    requires Index(gen, cons, loss, factor, sel, o).Ok? && o.daywise
    ensures var rep := Index(gen, cons, loss, factor, sel, o).value;
      |rep.days| == Calendar.LastDay(sel.year.value, sel.month.value)
      && Tables.Sum(rep.days, DayExcess) == Tables.Sum(rep.rows, ExcessOf)
      && Tables.Sum(rep.days, DayAfterLoss) == Tables.Sum(rep.rows, AfterLossOf)
      && Tables.Sum(rep.days, DayCons) == Tables.Sum(rep.rows, ConsOf)
  {
    var rep := Index(gen, cons, loss, factor, sel, o).value;
    IndexMonth(gen, cons, loss, factor, sel, o);
    assert rep.days == DayWise(rep.rows, sel).value;
    DayWiseConserves(rep.rows, sel);
  }

  /** With a full month of a four-digit year selected, the report lists its rows in day order. */
  lemma IndexInDayOrder(gen: seq<Readings.Reading>, cons: seq<Readings.Reading>, loss: real, factor: real,
                        sel: Selections.Selection, o: Options)
    requires sel.year.Some? && sel.month.Some? && 0 <= sel.year.value < 10000
    requires forall i :: 0 <= i < |gen| ==> Calendar.ValidDate(gen[i].date)
    requires forall i :: 0 <= i < |cons| ==> Calendar.ValidDate(cons[i].date)
    requires Index(gen, cons, loss, factor, sel, o).Ok?
    ensures var rows := Index(gen, cons, loss, factor, sel, o).value.rows;
      forall i, j :: 0 <= i < j < |rows| ==> rows[i].key.date.day <= rows[j].key.date.day
  {
    var gf := Selections.SelectReadings(gen, sel, GenEmpty).value;
    var cf := Selections.SelectReadings(cons, sel, ConsEmpty).value;
    var gs := Readings.GenerationRows(gf, loss);
    var cs := Readings.ConsumptionRows(cf, factor);
    var pre := Select(AnnotateAll(Readings.Merge(gs, cs)), o);
    var rows := SortRows(pre);
    IndexRows(gen, cons, loss, factor, sel, o);
    IndexMonth(gen, cons, loss, factor, sel, o);
    forall i | 0 <= i < |pre|
      ensures Calendar.ValidDate(pre[i].key.date)
      ensures pre[i].key.date.year == sel.year.value && pre[i].key.date.month == sel.month.value
    {
      assert pre[i] in multiset(rows);
    }
    SortedMonthInDayOrder(pre, sel.year.value, sel.month.value);
  }
}
