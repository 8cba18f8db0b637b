/**
 * Time-of-day (TOD) categories: C1 morning peak, C2 evening peak, C4 normal
 * hours, C5 night hours, and Unknown for a slot whose start cannot be read.
 */
module Tod {
  import opened Wrappers
  import Text
  import Numerals
  import SlotClock

  datatype Category = C1 | C2 | C4 | C5 | Unknown

  /** The hour bands both handlers apply to the start hour of a slot. */
  function ClassifyHour(h: int): (k: Category)
    ensures k != Unknown
    ensures k == C1 <==> 6 <= h < 10
    ensures k == C2 <==> 18 <= h < 22
    ensures k == C4 <==> h == 5 || 10 <= h < 18
    ensures k == C5 <==> h < 5 || 22 <= h
  {
    if 6 <= h < 10 then C1
    else if 18 <= h < 22 then C2
    else if (5 <= h < 6) || (10 <= h < 18) then C4
    else C5
  }

  /**
   * `classify_tod` of the newer Flask handler: the start of the slot must
   * parse with `%H:%M`; only its hour matters.
   */
  function ClassifyStrict(slot: string): (k: Category)
    ensures k == Unknown <==> SlotClock.ParseClock(SlotClock.StartText(slot)).None?
    ensures forall c :: SlotClock.ParseClock(SlotClock.StartText(slot)) == Some(c) ==> k == ClassifyHour(c.hour)
  {
    var start := if '-' in slot then SlotClock.StartText(slot) else Text.Strip(slot);
    match SlotClock.ParseClock(start)
    case Some(c) => ClassifyHour(c.hour)
    case None => Unknown
  }

  /**
   * `classify_tod` of the Streamlit handler: the start is split on ':' into
   * exactly two fields that `int()` must accept; the hour is then banded
   * whatever its range.
   */
  function ClassifyLoose(slot: string): (k: Category)
    ensures k == Unknown <==> var parts := Text.Split(SlotClock.StartText(slot), ':');
      |parts| != 2 || Numerals.ParseInt(parts[0]).None? || Numerals.ParseInt(parts[1]).None?
    ensures var parts := Text.Split(SlotClock.StartText(slot), ':');
      |parts| == 2 && Numerals.ParseInt(parts[0]).Some? && Numerals.ParseInt(parts[1]).Some? ==>
        k == ClassifyHour(Numerals.ParseInt(parts[0]).value)
  {
    var parts := Text.Split(SlotClock.StartText(slot), ':');
    if |parts| != 2 then Unknown
    else
      match (Numerals.ParseInt(parts[0]), Numerals.ParseInt(parts[1]))
      case (Some(h), Some(_)) => ClassifyHour(h)
      case _ => Unknown
  }

  /** Whenever the strict reading classifies a slot, the loose one agrees. */
  lemma StrictImpliesLoose(slot: string)
    requires ClassifyStrict(slot) != Unknown
    ensures ClassifyLoose(slot) == ClassifyStrict(slot)
  {
    var c := SlotClock.ParseClock(SlotClock.StartText(slot)).value;
    assert SlotClock.SlotMinutes(slot) == SlotClock.Minutes(c);
  }

  /**
   * The two readings part ways on an hour past 23 ("25:00"): the strict one
   * gives Unknown, the loose one calls it night.
   */
  lemma LooseAcceptsLateHours(slot: string, a: string, b: string, h: nat)
    requires Text.Split(SlotClock.StartText(slot), ':') == [a, b]
    requires Numerals.ParseNat(a) == Some(h) && h >= 24 && Numerals.ParseNat(b).Some?
    ensures ClassifyStrict(slot) == Unknown
    ensures ClassifyLoose(slot) == C5
  {
  }

  /** Every slot label built from a parsed time gets a real category. */
  lemma LabelClassified(t: string, c: SlotClock.Clock)
    requires '-' !in Text.Strip(t) && SlotClock.ParseClock(Text.Strip(t)) == Some(c)
    ensures ClassifyStrict(SlotClock.SlotLabel(t)) == ClassifyHour(c.hour) != Unknown
    ensures ClassifyLoose(SlotClock.SlotLabel(t)) == ClassifyHour(c.hour)
  {
    SlotClock.RangeLabelNotLate(c);
    SlotClock.StartOfRangeLabel(c);
    SlotClock.FormatParses(c);
    StrictImpliesLoose(SlotClock.SlotLabel(t));
  }
}
