/**
 * The slot-time strings the handlers build and read back: the strict
 * `%H:%M` parse, the canonical "HH:MM - HH:MM" slot label, the start-time
 * extraction used by the month window, `slot_time_to_minutes` and the
 * older handler's display helper `format_time`.
 */
module SlotClock {
  import opened Wrappers
  import Text
  import Numerals

  /** A time of day at minute resolution. */
  datatype Clock = Clock(hour: int, minute: int)

  predicate Valid(c: Clock) {
    0 <= c.hour < 24 && 0 <= c.minute < 60
  }

  /** Minutes since midnight. */
  function Minutes(c: Clock): int {
    60 * c.hour + c.minute
  }

  /** A `%H` or `%M` field: one or two decimal digits. */
  function Field(s: string): (v: Option<nat>)
    ensures v.Some? <==> 1 <= |s| <= 2 && Numerals.AllDigits(s)
    ensures v.Some? ==> Numerals.ParseNat(s) == v && v.value < 100
  {
    if 1 <= |s| <= 2 && Numerals.AllDigits(s) then
      Numerals.DigitsValueBound(s);
      assert Numerals.Pow10(|s|) <= 100;
      Some(Numerals.DigitsValue(s))
    else None
  }

  /**
   * `pd.to_datetime(t, format='%H:%M')`: the whole text is an hour of one or
   * two digits up to 23, a colon, and a minute of one or two digits up to 59.
   */
  function ParseClock(t: string): (c: Option<Clock>)
    ensures c.Some? ==> Valid(c.value)
    ensures c.Some? ==> '-' !in t && |t| > 0 && !Text.IsSpace(t[0]) && !Text.IsSpace(t[|t| - 1])
  {
    var parts := Text.Split(t, ':');
    if |parts| != 2 then None
    else
      match (Field(parts[0]), Field(parts[1]))
      case (Some(h), Some(m)) =>
        if h < 24 && m < 60 then
          var a, b := parts[0], parts[1];
          assert t == a + [':'] + b by {
            assert parts[1..] == [b];
            assert Text.Join(parts, ':') == a + [':'] + Text.Join([b], ':');
          }
          assert forall i :: 0 <= i < |a| ==> Numerals.IsDigit(a[i]);
          assert forall i :: 0 <= i < |b| ==> Numerals.IsDigit(b[i]);
          Numerals.DigitNotSpace(a[0]);
          Numerals.DigitNotSpace(b[|b| - 1]);
          Some(Clock(h, m))
        else None
      case _ => None
  }

  /** A two-digit zero-padded field, as `strftime('%H')` and `'%M'` write it. */
  function Two(n: nat): (s: string)
    requires n < 100
    ensures |s| == 2 && Numerals.AllDigits(s)
    ensures Numerals.ParseNat(s) == Some(n)
  {
    assert Numerals.Pow10(2) == 100;
    Numerals.ZeroPad(n, 2)
  }

  /** The two characters of `Two(n)` are the tens and the units digit. */
  lemma TwoChars(n: nat)
    requires n < 100
    ensures Two(n)[0] as int - '0' as int == n / 10
    ensures Two(n)[1] as int - '0' as int == n % 10
  {
    var s := Two(n);
    assert Numerals.DigitsValue(s) == n;
    assert s[..1][..0] == [];
    assert Numerals.DigitsValue(s[..1]) == s[0] as int - '0' as int;
    assert Numerals.DigitsValue(s) == Numerals.DigitsValue(s[..1]) * 10 + (s[1] as int - '0' as int);
  }

  /** `strftime('%H:%M')` */
  function Format(c: Clock): (s: string)
    requires Valid(c)
    ensures |s| == 5 && s[2] == ':' && '-' !in s
  {
    var s := Two(c.hour) + ":" + Two(c.minute);
    assert forall i :: 0 <= i < |s| && i != 2 ==> Numerals.IsDigit(s[i]);
    s
  }

  /** Formatting a clock and parsing it back with `%H:%M` gives the same clock. */
  lemma FormatParses(c: Clock)
    requires Valid(c)
    ensures ParseClock(Format(c)) == Some(c)
  {
    var h := Two(c.hour);
    var m := Two(c.minute);
    assert ':' !in h && ':' !in m by {
      assert forall i :: 0 <= i < 2 ==> Numerals.IsDigit(h[i]) && Numerals.IsDigit(m[i]);
    }
    Text.SplitCons(h, ':', m);
    assert Format(c) == h + [':'] + m;
    assert Text.Split(Format(c), ':') == [h, m];
  }

  /** The end of a slot: fifteen minutes later, wrapping past midnight. */
  function Plus15(c: Clock): (e: Clock)
    requires Valid(c)
    ensures Valid(e)
    ensures Minutes(e) == (Minutes(c) + 15) % (24 * 60)
  {
    var t := (Minutes(c) + 15) % (24 * 60);
    Clock(t / 60, t % 60)
  }

  /** The label of a slot that starts at `c`: "HH:MM - HH:MM". */
  function RangeLabel(c: Clock): (s: string)
    requires Valid(c)
    ensures |s| == 13 && s[..5] == Format(c) && s[5..8] == " - " && s[8..] == Format(Plus15(c))
  {
    Format(c) + " - " + Format(Plus15(c))
  }

  /**
   * `slot_time_range`: text that already holds a '-' is kept (stripped); a
   * time that parses with `%H:%M` becomes its fifteen-minute range label;
   * anything else is kept as it is.
   */
  function SlotTimeRange(t: string): (r: string)
    ensures '-' in Text.Strip(t) ==> r == Text.Strip(t)
    ensures '-' !in Text.Strip(t) && ParseClock(Text.Strip(t)).Some?
      ==> r == RangeLabel(ParseClock(Text.Strip(t)).value)
    ensures '-' !in Text.Strip(t) && ParseClock(Text.Strip(t)).None? ==> r == Text.Strip(t)
  {
    var s := Text.Strip(t);
    if '-' in s then s
    else
      match ParseClock(s)
      case Some(c) => RangeLabel(c)
      case None => s
  }

  const LateLabel: string := "23:45 - 24:00"
  const MidnightLabel: string := "23:45 - 00:00"

  /** `Slot_Time`: the range label, with the last slot's end written as 00:00. */
  function SlotLabel(t: string): (r: string)
    ensures r != LateLabel
    ensures SlotTimeRange(t) != LateLabel ==> r == SlotTimeRange(t)
  {
    var r := SlotTimeRange(t);
    if r == LateLabel then MidnightLabel else r
  }

  /** A label computed from a parsed time never ends at "24:00", so the fix-up never fires on it. */
  lemma RangeLabelNotLate(c: Clock)
    requires Valid(c)
    ensures RangeLabel(c) != LateLabel
  {
    var e := Plus15(c);
    var l := RangeLabel(c);
    TwoChars(e.hour);
    assert l[8] == Two(e.hour)[0] && l[9] == Two(e.hour)[1];
    assert LateLabel[8] == '2' && LateLabel[9] == '4';
  }

  /** A stripped text holding a '-' that is not the late label is its own label. */
  lemma FixedLabel(r: string)
    requires '-' in r && Text.Strip(r) == r && r != LateLabel
    ensures SlotLabel(r) == r
  {
  }

  lemma MidnightLabelFixed()
    ensures SlotLabel(MidnightLabel) == MidnightLabel
  {
    var m := MidnightLabel;
    assert m[6] == '-';
    assert !Text.IsSpace(m[0]) && !Text.IsSpace(m[12]);
    FixedLabel(m);
  }

  /** Labelling a label changes nothing: `Slot_Time` values are fixed points. */
  lemma SlotLabelIdempotent(t: string)
    ensures SlotLabel(SlotLabel(t)) == SlotLabel(t)
  {
    var s := Text.Strip(t);
    if '-' in s {
      if s == LateLabel {
        MidnightLabelFixed();
      } else {
        FixedLabel(s);
      }
    } else if ParseClock(s).Some? {
      var c := ParseClock(s).value;
      RangeLabelNotLate(c);
      StartOfRangeLabel(c);
      FixedLabel(RangeLabel(c));
    }
  }

  /** `slot.split('-')[0].strip()`: the start part of a slot label. */
  function StartText(t: string): (s: string)
    ensures '-' !in s
    ensures '-' !in t ==> s == Text.Strip(t)
  {
    var head := Text.Split(t, '-')[0];
    assert forall c :: c in Text.Strip(head) ==> c in head;
    Text.Strip(head)
  }

  /** The start of a label is the text before its first '-', stripped. */
  lemma StartTextOf(a: string, b: string)
    requires '-' !in a
    ensures StartText(a + "-" + b) == Text.Strip(a)
  {
    Text.SplitCons(a, '-', b);
  }

  /** `extract_start_time`: the start of a range, or the whole stripped text. */
  function ExtractStart(t: string): (s: string)
    ensures '-' !in s
    ensures '-' !in Text.Strip(t) ==> s == Text.Strip(t)
  {
    var s := Text.Strip(t);
    if '-' in s then StartText(s) else s
  }

  /** A time `ParseClock` reads has two fields that `int()` reads as its hour and minute. */
  lemma ClockFieldsParse(s: string)
    ensures ParseClock(s).Some? ==>
      var parts := Text.Split(s, ':');
      |parts| == 2 && Numerals.ParseInt(parts[0]) == Some(ParseClock(s).value.hour)
        && Numerals.ParseInt(parts[1]) == Some(ParseClock(s).value.minute)
  {
    var parts := Text.Split(s, ':');
    if ParseClock(s).Some? {
      assert |parts| == 2;
      var h, m := Field(parts[0]), Field(parts[1]);
      assert h.Some? && m.Some?;
      assert Numerals.ParseNat(parts[0]) == h;
      assert Numerals.ParseNat(parts[1]) == m;
    }
  }

  /**
   * `slot_time_to_minutes`: `60*h + m` read with `int()` from the two
   * colon-separated fields of the start, and 0 when that fails.
   */
  function SlotMinutes(t: string): (n: int)
    ensures forall c :: ParseClock(StartText(t)) == Some(c) ==> n == Minutes(c)
    ensures var parts := Text.Split(StartText(t), ':');
      |parts| == 2 && Numerals.ParseInt(parts[0]).Some? && Numerals.ParseInt(parts[1]).Some? ==>
        n == 60 * Numerals.ParseInt(parts[0]).value + Numerals.ParseInt(parts[1]).value
    ensures var parts := Text.Split(StartText(t), ':');
      n != 0 ==> |parts| == 2 && Numerals.ParseInt(parts[0]).Some? && Numerals.ParseInt(parts[1]).Some?
  {
    var parts := Text.Split(StartText(t), ':');
    ClockFieldsParse(StartText(t));
    if |parts| != 2 then 0
    else
      var h, m := Numerals.ParseInt(parts[0]), Numerals.ParseInt(parts[1]);
      if h.Some? && m.Some? then 60 * h.value + m.value else 0
  }

  /** The start of the label built for a time is that time. */
  lemma StartOfRangeLabel(c: Clock)
    requires Valid(c)
    ensures StartText(RangeLabel(c)) == Format(c)
    ensures ExtractStart(RangeLabel(c)) == Format(c)
    ensures Text.Strip(RangeLabel(c)) == RangeLabel(c) && '-' in RangeLabel(c)
  {
    var f := Format(c);
    var l := RangeLabel(c);
    assert l == f + " " + "-" + " " + Format(Plus15(c));
    assert l == (f + " ") + "-" + (" " + Format(Plus15(c)));
    StartTextOf(f + " ", " " + Format(Plus15(c)));
    assert Numerals.IsDigit(f[0]) && Numerals.IsDigit(f[4]);
    Numerals.DigitNotSpace(f[0]);
    Numerals.DigitNotSpace(f[4]);
    assert Text.Strip(f) == f;
    assert Text.Strip(f + " ") == f by {
      assert Text.TrimLeft(f + " ") == f + " ";
      assert (f + " ")[..5] == f;
      assert Text.TrimRight(f + " ") == Text.TrimRight(f);
    }
    assert Text.Strip(l) == l by {
      assert l[0] == f[0] && l[12] == Format(Plus15(c))[4];
      assert Numerals.IsDigit(l[12]);
      Numerals.DigitNotSpace(l[12]);
    }
  }

  /**
   * Round trip: a slot whose time parsed sorts at the minute it starts, both
   * through the label `Slot_Time` and through the start-time extraction.
   */
  lemma SlotMinutesOfLabel(t: string, c: Clock)
    requires '-' !in Text.Strip(t) && ParseClock(Text.Strip(t)) == Some(c)
    ensures SlotMinutes(SlotLabel(t)) == Minutes(c)
    ensures ParseClock(ExtractStart(SlotLabel(t))) == Some(c)
  {
    RangeLabelNotLate(c);
    StartOfRangeLabel(c);
    FormatParses(c);
  }

  /**
   * `format_time` on a string: strip, drop a leading "00" from text of five
   * or more characters, then pad a single-digit hour "H:MM" with a zero.
   */
  function FormatTime(t: string): (r: string)
    ensures var s := Text.Strip(t);
      |s| == 4 && s[1] == ':' ==> r == "0" + s
    ensures var s := Text.Strip(t);
      |s| >= 5 && s[..2] != "00" ==> r == s
  {
    var s := Text.Strip(t);
    var u := if |s| >= 5 && s[..2] == "00" then s[2..] else s;
    if |u| == 4 && u[1] == ':' then "0" + u else u
  }

  /**
   * On a canonical slot label `format_time` is the identity except in hour
   * 00, where it loses the hour digits and shows ":MM - HH:MM".
   */
  lemma FormatTimeOfLabel(c: Clock)
    requires Valid(c)
    ensures c.hour != 0 ==> FormatTime(RangeLabel(c)) == RangeLabel(c)
    ensures c.hour == 0 ==> FormatTime(RangeLabel(c)) == RangeLabel(c)[2..]
    ensures c.hour == 0 ==> FormatTime(RangeLabel(c))[0] == ':'
  {
    var l := RangeLabel(c);
    assert Text.Strip(l) == l by {
      StartOfRangeLabel(c);
    }
    assert l[..2] == Two(c.hour) by {
      assert l[..5] == Format(c);
      assert Format(c)[..2] == Two(c.hour);
    }
    TwoZero(c.hour);
    var u := if l[..2] == "00" then l[2..] else l;
    assert |u| >= 11;
    assert FormatTime(l) == u;
  }

  /** An hour field reads "00" exactly at midnight's hour. */
  lemma TwoZero(n: nat)
    requires n < 100
    ensures Two(n) == "00" <==> n == 0
  {
    TwoChars(n);
    var s := Two(n);
    if n == 0 {
      assert s[0] == '0' && s[1] == '0';
      assert s == "00";
    }
  }

  /** The label display with the hour kept: what `format_time` evidently aims at. */
  function DisplayTime(t: string): (r: string)
    ensures forall c :: Valid(c) && Text.Strip(t) == RangeLabel(c) ==> r == RangeLabel(c)
  {
    var s := Text.Strip(t);
    if |s| == 4 && s[1] == ':' then "0" + s else s
  }
}
