/**
 * Gregorian calendar arithmetic the handlers perform with `pd.Timestamp`,
 * `datetime`, `timedelta(days=1)` and `pd.date_range`, on already-parsed dates.
 */
module Calendar {
  import opened Wrappers
  import Numerals
  import Text

  datatype Date = Date(year: int, month: int, day: int)

  /** A date-time at minute resolution: the date and the minutes since midnight. */
  datatype Stamp = Stamp(date: Date, minute: int)

  predicate IsLeap(y: int) {
    (y % 4 == 0 && y % 100 != 0) || y % 400 == 0
  }

  /** The last day of month `m` of year `y`, as the handlers compute it. */
  function LastDay(y: int, m: int): (d: int)
    ensures 28 <= d <= 31
    ensures m == 2 ==> (d == 29 <==> IsLeap(y)) && (d == 28 <==> !IsLeap(y))
    ensures m == 4 || m == 6 || m == 9 || m == 11 ==> d == 30
    ensures m != 2 && m != 4 && m != 6 && m != 9 && m != 11 ==> d == 31
  {
    if m == 2 then (if IsLeap(y) then 29 else 28)
    else if m in [4, 6, 9, 11] then 30
    else 31
  }

  predicate ValidMonth(m: int) {
    1 <= m <= 12
  }

  predicate ValidDate(d: Date) {
    ValidMonth(d.month) && 1 <= d.day <= LastDay(d.year, d.month)
  }

  predicate DateLe(a: Date, b: Date) {
    a.year < b.year
    || (a.year == b.year && (a.month < b.month || (a.month == b.month && a.day <= b.day)))
  }

  predicate DateLt(a: Date, b: Date) {
    DateLe(a, b) && a != b
  }

  predicate StampLe(a: Stamp, b: Stamp) {
    DateLt(a.date, b.date) || (a.date == b.date && a.minute <= b.minute)
  }

  /** `d + timedelta(days=1)` */
  function NextDay(d: Date): (n: Date)
    requires ValidDate(d)
    ensures ValidDate(n) && DateLt(d, n)
  {
    if d.day < LastDay(d.year, d.month) then Date(d.year, d.month, d.day + 1)
    else if d.month < 12 then Date(d.year, d.month + 1, 1)
    else Date(d.year + 1, 1, 1)
  }

  /** The first day of the following month, December rolling over to January. */
  function NextMonthFirst(y: int, m: int): (n: Date)
    requires ValidMonth(m)
    ensures ValidDate(n) && DateLt(Date(y, m, LastDay(y, m)), n)
    ensures n == NextDay(Date(y, m, LastDay(y, m)))
  {
    if m == 12 then Date(y + 1, 1, 1) else Date(y, m + 1, 1)
  }

  /** An order-preserving number for valid dates, used as a termination measure. */
  function DateKey(d: Date): int {
    d.year * 512 + d.month * 32 + d.day
  }

  lemma DateKeyMonotone(a: Date, b: Date)
    requires ValidDate(a) && ValidDate(b) && DateLt(a, b)
    ensures DateKey(a) < DateKey(b)
  {
  }

  /**
   * `pd.date_range(start, stop - timedelta(days=1), freq='D')`: every day from
   * `start` up to but excluding `stop`, one step of `NextDay` at a time.
   */
  function DaysUntil(start: Date, stop: Date): seq<Date>
    requires ValidDate(start) && ValidDate(stop)
    decreases DateKey(stop) - DateKey(start)
  {
    if !DateLt(start, stop) then []
    else
      var n := NextDay(start);
      DateKeyMonotone(start, n);
      [start] + DaysUntil(n, stop)
  }

  /** The day after `s` is the first date after `s`. */
  lemma NextDayCovers(s: Date, d: Date)
    requires ValidDate(s) && ValidDate(d)
    ensures DateLe(NextDay(s), d) <==> DateLt(s, d)
  {
  }

  /** The range holds exactly the valid dates from `start` up to but excluding `stop`. */
  lemma {:induction false} DaysUntilMembers(start: Date, stop: Date, d: Date)
    requires ValidDate(start) && ValidDate(stop) && ValidDate(d)
    ensures d in DaysUntil(start, stop) <==> DateLe(start, d) && DateLt(d, stop)
    decreases DateKey(stop) - DateKey(start)
  {
    if DateLt(start, stop) {
      var n := NextDay(start);
      DateKeyMonotone(start, n);
      DaysUntilMembers(n, stop, d);
      NextDayCovers(start, d);
      assert DaysUntil(start, stop) == [start] + DaysUntil(n, stop);
    }
  }

  /** Every date of the range is valid and the range lists each date once. */
  lemma {:induction false} DaysUntilDistinct(start: Date, stop: Date)
    requires ValidDate(start) && ValidDate(stop)
    ensures forall i :: 0 <= i < |DaysUntil(start, stop)| ==> ValidDate(DaysUntil(start, stop)[i])
    ensures forall i, j :: 0 <= i < j < |DaysUntil(start, stop)| ==> DaysUntil(start, stop)[i] != DaysUntil(start, stop)[j]
    decreases DateKey(stop) - DateKey(start)
  {
    if DateLt(start, stop) {
      var n := NextDay(start);
      DateKeyMonotone(start, n);
      DaysUntilDistinct(n, stop);
      var rest := DaysUntil(n, stop);
      assert DaysUntil(start, stop) == [start] + rest;
      forall j | 0 <= j < |rest| ensures rest[j] != start {
        DaysUntilMembers(n, stop, rest[j]);
        assert rest[j] in rest;
      }
    }
  }

  /**
   * `pd.date_range(lo, hi, freq='D')`: the valid dates from `lo` to `hi`,
   * both included, each once.
   */
  function DaysThrough(lo: Date, hi: Date): (days: seq<Date>)
    requires ValidDate(lo) && ValidDate(hi)
    ensures forall i, j :: 0 <= i < j < |days| ==> days[i] != days[j]
    ensures forall d :: d in days <==> ValidDate(d) && DateLe(lo, d) && DateLe(d, hi)
  {
    var stop := NextDay(hi);
    var days := DaysUntil(lo, stop);
    DaysUntilDistinct(lo, stop);
    forall d | d in days ensures ValidDate(d) && DateLe(lo, d) && DateLe(d, hi) {
      var k :| 0 <= k < |days| && days[k] == d;
      DaysUntilMembers(lo, stop, d);
      NextDayCovers(hi, d);
    }
    forall d | ValidDate(d) && DateLe(lo, d) && DateLe(d, hi) ensures d in days {
      DaysUntilMembers(lo, stop, d);
    }
    days
  }

  /** Days `first..LastDay` of one month, in calendar order. */
  function MonthDaysFrom(y: int, m: int, first: int): (days: seq<Date>)
    requires ValidMonth(m) && 1 <= first <= LastDay(y, m) + 1
    ensures |days| == LastDay(y, m) - first + 1
    ensures forall i :: 0 <= i < |days| ==> days[i] == Date(y, m, first + i)
  {
    seq(LastDay(y, m) - first + 1, i => Date(y, m, first + i))
  }

  /**
   * Walking day by day from the 1st to the next month's 1st visits exactly the
   * days 1..LastDay of the month: the `datetime` range the Streamlit and older
   * Flask handlers build agrees with the last-day table of the newer handler.
   */
  lemma {:induction false} DaysUntilNextMonth(y: int, m: int, first: int)
    requires ValidMonth(m) && 1 <= first <= LastDay(y, m)
    ensures DaysUntil(Date(y, m, first), NextMonthFirst(y, m)) == MonthDaysFrom(y, m, first)
    decreases LastDay(y, m) - first
  {
    var last := LastDay(y, m);
    var d := Date(y, m, first);
    var stop := NextMonthFirst(y, m);
    assert DateLt(d, stop);
    assert DaysUntil(d, stop) == [d] + DaysUntil(NextDay(d), stop);
    var here := MonthDaysFrom(y, m, first);
    if first < last {
      assert NextDay(d) == Date(y, m, first + 1);
      DaysUntilNextMonth(y, m, first + 1);
      var tail := MonthDaysFrom(y, m, first + 1);
      assert here == [d] + tail by {
        assert |here| == 1 + |tail|;
        forall i | 0 <= i < |here| ensures here[i] == ([d] + tail)[i] {
          if i > 0 { assert tail[i - 1] == Date(y, m, first + 1 + (i - 1)); }
        }
      }
    } else {
      assert NextDay(d) == stop;
      assert DaysUntil(stop, stop) == [];
      assert here == [d];
    }
  }

  /** `pd.Timestamp(y, m, 1)` raises for a month outside 1..12. */
  function CheckMonth(m: int): Result<int> {
    if ValidMonth(m) then Ok(m) else Err("month must be in 1..12")
  }

  predicate InWindow(s: Stamp, start: Stamp, end: Stamp) {
    StampLe(start, s) && StampLe(s, end)
  }

  /** The 00:00 of the 1st through 23:45 of the last day, both inclusive. */
  function FullMonthWindow(y: int, m: int): (w: Result<(Stamp, Stamp)>)
    ensures w.Ok? <==> ValidMonth(m)
  {
    if !ValidMonth(m) then Err("month must be in 1..12")
    else if m == 12 then Ok((Stamp(Date(y, m, 1), 0), Stamp(Date(y, 12, 31), 23 * 60 + 45)))
    else Ok((Stamp(Date(y, m, 1), 0), Stamp(Date(y, m, LastDay(y, m)), 23 * 60 + 45)))
  }

  /**
   * A slot of a valid date at a clock minute of the day lies in the full-month
   * window exactly when it belongs to that month and is not after 23:45 on
   * its last day.
   */
  lemma FullMonthWindowMembers(y: int, m: int, s: Stamp)
    requires ValidMonth(m) && ValidDate(s.date) && 0 <= s.minute < 24 * 60
    ensures var w := FullMonthWindow(y, m).value;
      InWindow(s, w.0, w.1)
      <==> s.date.year == y && s.date.month == m
           && (s.date.day < LastDay(y, m) || s.minute <= 23 * 60 + 45)
  {
  }

  /** The 00:15 of the 1st through 00:00 of the next month's 1st, both inclusive. */
  function ShiftedMonthWindow(y: int, m: int): (w: Result<(Stamp, Stamp)>)
    ensures w.Ok? <==> ValidMonth(m)
  {
    if !ValidMonth(m) then Err("month must be in 1..12")
    else Ok((Stamp(Date(y, m, 1), 15), Stamp(NextMonthFirst(y, m), 0)))
  }

  /**
   * The shifted window drops the 00:00 slot of the 1st and takes in the 00:00
   * slot of the next month's 1st; every other slot of the month is kept.
   */
  lemma ShiftedMonthWindowMembers(y: int, m: int, s: Stamp)
    requires ValidMonth(m) && ValidDate(s.date) && 0 <= s.minute < 24 * 60
    ensures var w := ShiftedMonthWindow(y, m).value;
      InWindow(s, w.0, w.1)
      <==> (s.date.year == y && s.date.month == m && (s.date.day > 1 || s.minute >= 15))
           || (s.date == NextMonthFirst(y, m) && s.minute == 0)
  {
  }

  /** `pd.date_range("y-mm-01", "y-mm-last")` of the newer handler's day-wise table. */
  function MonthDays(y: int, m: int): (days: Result<seq<Date>>)
    ensures days.Ok? <==> ValidMonth(m)
    ensures days.Ok? ==> |days.value| == LastDay(y, m)
    ensures days.Ok? ==> forall i :: 0 <= i < |days.value| ==> days.value[i] == Date(y, m, i + 1)
  {
    if ValidMonth(m) then Ok(MonthDaysFrom(y, m, 1)) else Err("invalid month")
  }

  /** `min()` of a non-empty date column: a member no later than any other. */
  function MinDate(ds: seq<Date>): (m: Date)
    requires |ds| > 0
    ensures m in ds && forall i :: 0 <= i < |ds| ==> DateLe(m, ds[i])
  {
    if |ds| == 1 then ds[0]
    else
      var rest := MinDate(ds[1..]);
      if DateLe(ds[0], rest) then ds[0] else rest
  }

  /** `max()` of a non-empty date column: a member no earlier than any other. */
  function MaxDate(ds: seq<Date>): (m: Date)
    requires |ds| > 0
    ensures m in ds && forall i :: 0 <= i < |ds| ==> DateLe(ds[i], m)
  {
    if |ds| == 1 then ds[0]
    else
      var rest := MaxDate(ds[1..]);
      if DateLe(rest, ds[0]) then ds[0] else rest
  }

  /** The dates `to_datetime` can read; `min()` and `max()` skip the rest. */
  function Readable(ds: seq<Date>): (vs: seq<Date>)
    ensures forall d :: d in vs <==> d in ds && ValidDate(d)
  {
    if |ds| == 0 then []
    else
      assert ds == [ds[0]] + ds[1..];
      (if ValidDate(ds[0]) then [ds[0]] else []) + Readable(ds[1..])
  }

  /**
   * `date_range(min(ds), max(ds))`: the days from the earliest to the latest
   * readable date, each once, so every readable date among them; with no
   * readable date `date_range` raises.
   */
  function Span(ds: seq<Date>): (days: Result<seq<Date>>)
    ensures days.Ok? <==> exists d :: d in ds && ValidDate(d)
    ensures days.Ok? ==> forall i, j :: 0 <= i < j < |days.value| ==> days.value[i] != days.value[j]
    ensures days.Ok? ==> forall d :: d in days.value <==>
      ValidDate(d) && DateLe(MinDate(Readable(ds)), d) && DateLe(d, MaxDate(Readable(ds)))
    ensures days.Ok? ==> forall d :: d in ds && ValidDate(d) ==> d in days.value
  {
    var vs := Readable(ds);
    if |vs| == 0 then Err("Neither start nor end can be NaT")
    else
      assert vs[0] in vs;
      var days := DaysThrough(MinDate(vs), MaxDate(vs));
      assert forall d :: d in ds && ValidDate(d) ==> d in days by {
        forall d | d in ds && ValidDate(d) ensures d in days {
          var k :| 0 <= k < |vs| && vs[k] == d;
        }
      }
      Ok(days)
  }

  /** The English month names, January first. */
  const MonthNames: seq<string> := ["January", "February", "March", "April", "May", "June",
    "July", "August", "September", "October", "November", "December"]

  /**
   * `get_month_name(month_num)`: `month_names[int(month_num) - 1]`, where a
   * negative index counts from the end of the list and any other failure
   * returns the text unchanged.
   */
  function MonthName(text: string): (name: string)
    ensures forall m :: 1 <= m <= 12 && Numerals.ParseInt(text) == Some(m) ==> name == MonthNames[m - 1]
    ensures Numerals.ParseInt(text).None? ==> name == text
    ensures Numerals.ParseInt(text).Some? && (Numerals.ParseInt(text).value < -11 || Numerals.ParseInt(text).value > 12)
      ==> name == text
  {
    match Numerals.ParseInt(text)
    case None => text
    case Some(n) =>
      var i := n - 1;
      if 0 <= i < 12 then MonthNames[i]
      else if -12 <= i < 0 then MonthNames[12 + i]
      else text
  }

  /** `strftime('%d/%m/%Y')` */
  function DateString(d: Date): string {
    Numerals.ZeroPad(if d.day >= 0 then d.day else 0, 2) + "/"
    + Numerals.ZeroPad(if d.month >= 0 then d.month else 0, 2) + "/"
    + (if d.year >= 0 then Numerals.ZeroPad(d.year, 4) else Numerals.IntToString(d.year))
  }

  /** A run of `lo` to `hi` decimal digits and its value. */
  function DigitField(s: string, lo: nat, hi: nat): (v: Option<nat>)
    ensures v.Some? ==> Numerals.ParseNat(s) == v
  {
    if lo <= |s| <= hi && |s| > 0 && Numerals.AllDigits(s) then Some(Numerals.DigitsValue(s)) else None
  }

  /**
   * `pd.to_datetime(text, format='%d/%m/%Y')`: a day and a month of one or
   * two digits and a four-digit year, separated by '/', naming a real date.
   */
  function ParseDayFirst(text: string): (d: Option<Date>)
    ensures d.Some? ==> ValidDate(d.value) && 0 <= d.value.year < 10000
  {
    var parts := Text.Split(text, '/');
    if |parts| != 3 then None
    else
      match (DigitField(parts[0], 1, 2), DigitField(parts[1], 1, 2), DigitField(parts[2], 4, 4))
      case (Some(day), Some(month), Some(year)) =>
        Numerals.DigitsValueBound(parts[2]);
        assert Numerals.Pow10(4) == 10000;
        var d := Date(year, month, day);
        if ValidDate(d) then Some(d) else None
      case _ => None
  }

  /** A date written as dd/mm/yyyy reads back as the same date. */
  lemma DateStringParses(d: Date)
    requires ValidDate(d) && 0 <= d.year < 10000
    ensures ParseDayFirst(DateString(d)) == Some(d)
  {
    var dd := Numerals.ZeroPad(d.day, 2);
    var mm := Numerals.ZeroPad(d.month, 2);
    var yy := Numerals.ZeroPad(d.year, 4);
    assert Text.Split(DateString(d), '/') == [dd, mm, yy] by {
      DateStringSplits(d);
    }
    assert DigitField(dd, 1, 2) == Some(d.day) && DigitField(mm, 1, 2) == Some(d.month)
        && DigitField(yy, 4, 4) == Some(d.year) by {
      assert Numerals.Pow10(2) == 100 && Numerals.Pow10(4) == 10000;
    }
  }

  /** The written date splits at its two slashes into the three padded fields. */
  lemma DateStringSplits(d: Date)
    requires ValidDate(d) && 0 <= d.year < 10000
    ensures Text.Split(DateString(d), '/') ==
      [Numerals.ZeroPad(d.day, 2), Numerals.ZeroPad(d.month, 2), Numerals.ZeroPad(d.year, 4)]
  {
    var dd := Numerals.ZeroPad(d.day, 2);
    var mm := Numerals.ZeroPad(d.month, 2);
    var yy := Numerals.ZeroPad(d.year, 4);
    assert '/' !in dd && '/' !in mm && '/' !in yy by {
      assert forall i :: 0 <= i < |dd| ==> Numerals.IsDigit(dd[i]);
      assert forall i :: 0 <= i < |mm| ==> Numerals.IsDigit(mm[i]);
      assert forall i :: 0 <= i < |yy| ==> Numerals.IsDigit(yy[i]);
    }
    assert DateString(d) == dd + ['/'] + (mm + ['/'] + yy);
    Text.SplitCons(dd, '/', mm + ['/'] + yy);
    Text.SplitCons(mm, '/', yy);
  }

  /** Distinct dates are written differently, so grouping by the text groups by the date. */
  lemma DateStringInjective(a: Date, b: Date)
    requires ValidDate(a) && 0 <= a.year < 10000
    requires ValidDate(b) && 0 <= b.year < 10000
    requires DateString(a) == DateString(b)
    ensures a == b
  {
    DateStringParses(a);
    DateStringParses(b);
  }
}
