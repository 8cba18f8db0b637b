/**
 * The rows every handler builds from the uploaded sheets before reporting:
 * generation converted from MW to kWh and reduced by the T&D loss,
 * consumption scaled by the multiplication factor, the month-window
 * filter, and the join of the two sides on (Slot_Date, Slot_Time).
 */
module Readings {
  import opened Wrappers
  import Calendar
  import SlotClock
  import Tables

  /**
   * One row of an uploaded sheet once its date has been read: the date, the
   * Time text, and the energy cell (None when `to_numeric` turns it into NaN).
   */
  datatype Reading = Reading(date: Calendar.Date, time: string, energy: Option<real>)

  /** The join key (Slot_Date, Slot_Time). */
  datatype Key = Key(date: Calendar.Date, time: string)

  function KeyOf(r: Reading): Key {
    Key(r.date, SlotClock.SlotLabel(r.time))
  }

  /** `fillna(0)` */
  function Fill(v: Option<real>): (x: real)
    ensures v.None? ==> x == 0.0
    ensures v.Some? ==> x == v.value
  {
    match v
    case Some(x) => x
    case None => 0.0
  }

  /** A generation row: its key, the energy in kWh and the energy after T&D loss. */
  datatype GenSlot = GenSlot(key: Key, kwh: Option<real>, afterLoss: Option<real>)

  /** A consumption row: its key and the scaled consumption in kWh. */
  datatype ConsSlot = ConsSlot(key: Key, kwh: Option<real>)

  /** `Energy_kWh = Energy_MW * 250`: a 15-minute MW reading as kWh. */
  function Injection(mw: real): real {
    250.0 * mw
  }

  /** `After_Loss = Energy_kWh * (1 - loss / 100)` */
  function AfterLoss(kwh: real, loss: real): real {
    kwh * (1.0 - loss / 100.0)
  }

  /**
   * For a non-negative reading and a loss between 0 and 100 percent, the
   * energy after loss is between 0 and the injected energy, and the energy
   * lost is exactly the loss percentage of the injection.
   */
  lemma AfterLossBounds(kwh: real, loss: real)
    requires kwh >= 0.0 && 0.0 <= loss <= 100.0
    ensures 0.0 <= AfterLoss(kwh, loss) <= kwh
    ensures kwh - AfterLoss(kwh, loss) == kwh * loss / 100.0
  {
    assert 0.0 <= 1.0 - loss / 100.0 <= 1.0;
    assert kwh * (1.0 - loss / 100.0) <= kwh * 1.0;
  }

  /** The generation columns of one reading. */
  function Generation(r: Reading, loss: real): (g: GenSlot)
    ensures g.key == KeyOf(r)
    ensures g.kwh.None? <==> r.energy.None?
    ensures g.afterLoss.None? <==> r.energy.None?
    ensures r.energy.Some? ==> g.kwh.value == 250.0 * r.energy.value
    ensures r.energy.Some? && r.energy.value >= 0.0 && 0.0 <= loss <= 100.0
      ==> 0.0 <= g.afterLoss.value <= g.kwh.value
  {
    match r.energy
    case None => GenSlot(KeyOf(r), None, None)
    case Some(mw) =>
      var kwh := Injection(mw);
      var g := GenSlot(KeyOf(r), Some(kwh), Some(AfterLoss(kwh, loss)));
      if mw >= 0.0 && 0.0 <= loss <= 100.0 then AfterLossBounds(kwh, loss); g else g
  }

  /** `Energy_kWh * multiplication_factor` for one consumption reading. */
  function Consumption(r: Reading, factor: real): (c: ConsSlot)
    ensures c.key == KeyOf(r)
    ensures c.kwh.None? <==> r.energy.None?
    ensures r.energy.Some? ==> c.kwh.value == factor * r.energy.value
  {
    ConsSlot(KeyOf(r), match r.energy case Some(e) => Some(e * factor) case None => None)
  }

  function GenerationRows(rs: seq<Reading>, loss: real): (gs: seq<GenSlot>)
    ensures |gs| == |rs|
    ensures forall i :: 0 <= i < |rs| ==> gs[i] == Generation(rs[i], loss)
  {
    seq(|rs|, i requires 0 <= i < |rs| => Generation(rs[i], loss))
  }

  function ConsumptionRows(rs: seq<Reading>, factor: real): (cs: seq<ConsSlot>)
    ensures |cs| == |rs|
    ensures forall i :: 0 <= i < |rs| ==> cs[i] == Consumption(rs[i], factor)
  {
    seq(|rs|, i requires 0 <= i < |rs| => Consumption(rs[i], factor))
  }

  /**
   * The month filter of one reading: its date and the start of its Time text
   * read as a date-time, kept when that lies in the window. A start that does
   * not read as a time gives NaT, which no comparison keeps.
   */
  predicate InWindow(r: Reading, w: (Calendar.Stamp, Calendar.Stamp)) {
    match SlotClock.ParseClock(SlotClock.ExtractStart(r.time))
    case Some(c) => Calendar.InWindow(Calendar.Stamp(r.date, SlotClock.Minutes(c)), w.0, w.1)
    case None => false
  }

  function WindowFilter(rs: seq<Reading>, w: (Calendar.Stamp, Calendar.Stamp)): (kept: seq<Reading>)
    ensures forall i :: 0 <= i < |kept| ==> InWindow(kept[i], w)
    ensures forall r :: multiset(kept)[r] == if InWindow(r, w) then multiset(rs)[r] else 0
  {
    Tables.Filter(rs, r => InWindow(r, w))
  }

  /**
   * The full-month window (1st 00:00 to last day 23:45) keeps a reading of a
   * valid date exactly when its start time reads, it falls in the month, and
   * it is not after 23:45 on the last day.
   */
  lemma FullMonthReading(y: int, m: int, r: Reading)
    requires Calendar.ValidMonth(m) && Calendar.ValidDate(r.date)
    ensures InWindow(r, Calendar.FullMonthWindow(y, m).value)
      <==> SlotClock.ParseClock(SlotClock.ExtractStart(r.time)).Some?
           && r.date.year == y && r.date.month == m
           && (r.date.day < Calendar.LastDay(y, m)
               || SlotClock.Minutes(SlotClock.ParseClock(SlotClock.ExtractStart(r.time)).value) <= 23 * 60 + 45)
  {
    match SlotClock.ParseClock(SlotClock.ExtractStart(r.time))
    case Some(c) =>
      Calendar.FullMonthWindowMembers(y, m, Calendar.Stamp(r.date, SlotClock.Minutes(c)));
    case None =>
  }

  /**
   * The shifted window (1st 00:15 to the next month's 1st 00:00) keeps a
   * reading of a valid date exactly when its start reads and it is in the
   * month but not the 00:00 slot of the 1st, or it is the 00:00 slot of the
   * next month's 1st.
   */
  lemma ShiftedMonthReading(y: int, m: int, r: Reading)
    requires Calendar.ValidMonth(m) && Calendar.ValidDate(r.date)
    ensures InWindow(r, Calendar.ShiftedMonthWindow(y, m).value)
      <==> SlotClock.ParseClock(SlotClock.ExtractStart(r.time)).Some?
           && var t := SlotClock.Minutes(SlotClock.ParseClock(SlotClock.ExtractStart(r.time)).value);
           ((r.date.year == y && r.date.month == m && (r.date.day > 1 || t >= 15))
            || (r.date == Calendar.NextMonthFirst(y, m) && t == 0))
  {
    match SlotClock.ParseClock(SlotClock.ExtractStart(r.time))
    case Some(c) =>
      Calendar.ShiftedMonthWindowMembers(y, m, Calendar.Stamp(r.date, SlotClock.Minutes(c)));
    case None =>
  }

  /** A joined row, after `fillna(0)` on every energy column. */
  datatype Slot = Slot(key: Key, kwhGen: real, afterLoss: real, cons: real)

  function GenKeys(gs: seq<GenSlot>): (ks: seq<Key>)
    ensures |ks| == |gs| && forall i :: 0 <= i < |gs| ==> ks[i] == gs[i].key
  {
    seq(|gs|, i requires 0 <= i < |gs| => gs[i].key)
  }

  function ConsKeys(cs: seq<ConsSlot>): (ks: seq<Key>)
    ensures |ks| == |cs| && forall i :: 0 <= i < |cs| ==> ks[i] == cs[i].key
  {
    seq(|cs|, i requires 0 <= i < |cs| => cs[i].key)
  }

  /** The slot universe `set(gen keys) | set(cons keys)`, each key once. */
  function UnionKeys(gs: seq<GenSlot>, cs: seq<ConsSlot>): (ks: seq<Key>)
    ensures Tables.Distinct(ks)
    ensures forall k :: k in ks <==> k in GenKeys(gs) || k in ConsKeys(cs)
  {
    Tables.Unique(GenKeys(gs) + ConsKeys(cs))
  }

  function GenKey(g: GenSlot): Key {
    g.key
  }

  function ConsKey(c: ConsSlot): Key {
    c.key
  }

  function GenOf(gs: seq<GenSlot>, k: Key): (m: seq<GenSlot>)
    ensures forall i :: 0 <= i < |m| ==> m[i].key == k && m[i] in gs
    ensures |m| == 0 <==> k !in GenKeys(gs)
  {
    var m := Tables.Filter(gs, Tables.KeyIs(GenKey, k));
    Tables.FilterMembers(gs, Tables.KeyIs(GenKey, k));
    assert forall i :: 0 <= i < |m| ==> m[i] in m;
    assert k in GenKeys(gs) ==> |m| > 0 by {
      if k in GenKeys(gs) {
        var i :| 0 <= i < |GenKeys(gs)| && GenKeys(gs)[i] == k;
        assert Tables.KeyIs(GenKey, k)(gs[i]);
      }
    }
    assert |m| > 0 ==> k in GenKeys(gs) by {
      if |m| > 0 {
        assert m[0] in m;
        var j :| 0 <= j < |gs| && gs[j] == m[0];
        assert GenKeys(gs)[j] == k;
      }
    }
    m
  }

  function ConsOf(cs: seq<ConsSlot>, k: Key): (m: seq<ConsSlot>)
    ensures forall i :: 0 <= i < |m| ==> m[i].key == k && m[i] in cs
    ensures |m| == 0 <==> k !in ConsKeys(cs)
  {
    var m := Tables.Filter(cs, Tables.KeyIs(ConsKey, k));
    Tables.FilterMembers(cs, Tables.KeyIs(ConsKey, k));
    assert forall i :: 0 <= i < |m| ==> m[i] in m;
    assert k in ConsKeys(cs) ==> |m| > 0 by {
      if k in ConsKeys(cs) {
        var i :| 0 <= i < |ConsKeys(cs)| && ConsKeys(cs)[i] == k;
        assert Tables.KeyIs(ConsKey, k)(cs[i]);
      }
    }
    assert |m| > 0 ==> k in ConsKeys(cs) by {
      if |m| > 0 {
        assert m[0] in m;
        var j :| 0 <= j < |cs| && cs[j] == m[0];
        assert ConsKeys(cs)[j] == k;
      }
    }
    m
  }

  /** A side with no row for the key of `row` contributes zeros to it. */
  predicate ZeroFilled(gs: seq<GenSlot>, cs: seq<ConsSlot>, row: Slot) {
    (row.key !in GenKeys(gs) ==> row.kwhGen == 0.0 && row.afterLoss == 0.0)
    && (row.key !in ConsKeys(cs) ==> row.cons == 0.0)
  }

  /** One generation row joined with the consumption rows of its key. */
  function Pair(k: Key, g: GenSlot, cm: seq<ConsSlot>): (rows: seq<Slot>)
    ensures |rows| == if |cm| == 0 then 1 else |cm|
    ensures forall i :: 0 <= i < |rows| ==>
      (rows[i].key == k && rows[i].kwhGen == Fill(g.kwh) && rows[i].afterLoss == Fill(g.afterLoss))
    ensures |cm| == 0 ==> rows[0].cons == 0.0
    ensures forall i :: 0 <= i < |cm| ==> rows[i].cons == Fill(cm[i].kwh)
  {
    if |cm| == 0 then [Slot(k, Fill(g.kwh), Fill(g.afterLoss), 0.0)]
    else seq(|cm|, j requires 0 <= j < |cm| => Slot(k, Fill(g.kwh), Fill(g.afterLoss), Fill(cm[j].kwh)))
  }

  /** Every generation row of a key joined with every consumption row of it. */
  function Cross(k: Key, gm: seq<GenSlot>, cm: seq<ConsSlot>): (rows: seq<Slot>)
    ensures |rows| == |gm| * (if |cm| == 0 then 1 else |cm|)
    ensures forall i :: 0 <= i < |rows| ==> rows[i].key == k
    ensures |cm| == 0 ==> forall i :: 0 <= i < |rows| ==> rows[i].cons == 0.0
    decreases |gm|
  {
    if |gm| == 0 then []
    else
      Pair(k, gm[0], cm) + Cross(k, gm[1..], cm)
  }

  /** The consumption rows of a key that has no generation row. */
  function ConsOnly(k: Key, cm: seq<ConsSlot>): (rows: seq<Slot>)
    ensures |rows| == |cm|
    ensures forall i :: 0 <= i < |rows| ==> rows[i] == Slot(k, 0.0, 0.0, Fill(cm[i].kwh))
  {
    seq(|cm|, j requires 0 <= j < |cm| => Slot(k, 0.0, 0.0, Fill(cm[j].kwh)))
  }

  /**
   * The joined rows of one key, as a pandas merge produces them: one row per
   * (generation row, consumption row) pair, with a missing side filled with 0.
   */
  function RowsFor(gs: seq<GenSlot>, cs: seq<ConsSlot>, k: Key): (rows: seq<Slot>)
    ensures |rows| > 0
    ensures forall i :: 0 <= i < |rows| ==> rows[i].key == k
    ensures forall i :: 0 <= i < |rows| ==> ZeroFilled(gs, cs, rows[i])
  {
    var gm := GenOf(gs, k);
    var cm := ConsOf(cs, k);
    if |gm| == 0 && |cm| == 0 then [Slot(k, 0.0, 0.0, 0.0)]
    else if |gm| == 0 then ConsOnly(k, cm)
    else Cross(k, gm, cm)
  }

  /** A key has one joined row per pair of its generation and consumption rows, a missing side counting once. */
  lemma RowsForCount(gs: seq<GenSlot>, cs: seq<ConsSlot>, k: Key)
    ensures |RowsFor(gs, cs, k)| == (if |GenOf(gs, k)| == 0 then 1 else |GenOf(gs, k)|)
                                  * (if |ConsOf(cs, k)| == 0 then 1 else |ConsOf(cs, k)|)
  {
  }

  function MergeKeys(gs: seq<GenSlot>, cs: seq<ConsSlot>, ks: seq<Key>): (rows: seq<Slot>)
    ensures forall i :: 0 <= i < |rows| ==> rows[i].key in ks && ZeroFilled(gs, cs, rows[i])
    decreases |ks|
  {
    if |ks| == 0 then []
    else
      var head := RowsFor(gs, cs, ks[0]);
      var rest := MergeKeys(gs, cs, ks[1..]);
      var rows := head + rest;
      assert forall i :: |head| <= i < |rows| ==> rows[i] == rest[i - |head|];
      assert forall i :: 0 <= i < |head| ==> rows[i] == head[i];
      rows
  }

  /** Every key of the list gets at least one joined row. */
  lemma {:induction false} MergeKeysComplete(gs: seq<GenSlot>, cs: seq<ConsSlot>, ks: seq<Key>, j: nat)
    requires j < |ks|
    ensures exists i :: 0 <= i < |MergeKeys(gs, cs, ks)| && MergeKeys(gs, cs, ks)[i].key == ks[j]
    decreases j
  {
    var head := RowsFor(gs, cs, ks[0]);
    var rows := MergeKeys(gs, cs, ks);
    assert rows == head + MergeKeys(gs, cs, ks[1..]);
    if j == 0 {
      assert rows[0].key == ks[0];
    } else {
      MergeKeysComplete(gs, cs, ks[1..], j - 1);
      var i :| 0 <= i < |MergeKeys(gs, cs, ks[1..])| && MergeKeys(gs, cs, ks[1..])[i].key == ks[1..][j - 1];
      assert rows[|head| + i].key == ks[j];
    }
  }

  /**
   * The join of the two sides on (Slot_Date, Slot_Time): every key of either
   * side has a row, no other key does, and a side with no row for a key
   * contributes zeros.
   */
  function Merge(gs: seq<GenSlot>, cs: seq<ConsSlot>): (rows: seq<Slot>)
    ensures forall i :: 0 <= i < |rows| ==> rows[i].key in GenKeys(gs) || rows[i].key in ConsKeys(cs)
    ensures forall k :: k in GenKeys(gs) || k in ConsKeys(cs) ==> exists i :: 0 <= i < |rows| && rows[i].key == k
    ensures forall i :: 0 <= i < |rows| && rows[i].key !in GenKeys(gs) ==> rows[i].kwhGen == 0.0 && rows[i].afterLoss == 0.0
    ensures forall i :: 0 <= i < |rows| && rows[i].key !in ConsKeys(cs) ==> rows[i].cons == 0.0
  {
    var ks := UnionKeys(gs, cs);
    var rows := MergeKeys(gs, cs, ks);
    forall k | k in GenKeys(gs) || k in ConsKeys(cs)
      ensures exists i :: 0 <= i < |rows| && rows[i].key == k
    {
      var j :| 0 <= j < |ks| && ks[j] == k;
      MergeKeysComplete(gs, cs, ks, j);
    }
    rows
  }

  /** `After_Loss = Energy_kWh * (1 - loss / 100)` on a joined row. */
  predicate LossApplied(s: Slot, loss: real) {
    s.afterLoss == AfterLoss(s.kwhGen, loss)
  }

  /** The same relation on generation rows, once `fillna(0)` has run on both columns. */
  predicate GenLossApplied(gs: seq<GenSlot>, loss: real) {
    forall i :: 0 <= i < |gs| ==> Fill(gs[i].afterLoss) == AfterLoss(Fill(gs[i].kwh), loss)
  }

  /** A NaN reading leaves both generation columns NaN, and `fillna(0)` keeps the relation. */
  lemma GenerationAppliesLoss(rs: seq<Reading>, loss: real)
    ensures GenLossApplied(GenerationRows(rs, loss), loss)
  {
  }

  predicate AllLossApplied(rows: seq<Slot>, loss: real) {
    forall i :: 0 <= i < |rows| ==> LossApplied(rows[i], loss)
  }

  lemma AllLossAppliedAppend(a: seq<Slot>, b: seq<Slot>, loss: real)
    requires AllLossApplied(a, loss) && AllLossApplied(b, loss)
    ensures AllLossApplied(a + b, loss)
  {
    forall i | 0 <= i < |a + b| ensures LossApplied((a + b)[i], loss) {
      if i >= |a| {
        assert (a + b)[i] == b[i - |a|];
      }
    }
  }

  lemma {:induction false} CrossAppliesLoss(k: Key, gm: seq<GenSlot>, cm: seq<ConsSlot>, loss: real)
    requires GenLossApplied(gm, loss)
    ensures AllLossApplied(Cross(k, gm, cm), loss)
    decreases |gm|
  {
    if |gm| > 0 {
      CrossAppliesLoss(k, gm[1..], cm, loss);
      AllLossAppliedAppend(Pair(k, gm[0], cm), Cross(k, gm[1..], cm), loss);
    }
  }

  lemma RowsForAppliesLoss(gs: seq<GenSlot>, cs: seq<ConsSlot>, k: Key, loss: real)
    requires GenLossApplied(gs, loss)
    ensures AllLossApplied(RowsFor(gs, cs, k), loss)
  {
    var gm := GenOf(gs, k);
    assert GenLossApplied(gm, loss) by {
      forall i | 0 <= i < |gm| ensures Fill(gm[i].afterLoss) == AfterLoss(Fill(gm[i].kwh), loss) {
        var j :| 0 <= j < |gs| && gs[j] == gm[i];
      }
    }
    if |gm| > 0 {
      CrossAppliesLoss(k, gm, ConsOf(cs, k), loss);
    }
  }

  lemma {:induction false} MergeKeysAppliesLoss(gs: seq<GenSlot>, cs: seq<ConsSlot>, ks: seq<Key>, loss: real)
    requires GenLossApplied(gs, loss)
    ensures AllLossApplied(MergeKeys(gs, cs, ks), loss)
    decreases |ks|
  {
    if |ks| > 0 {
      RowsForAppliesLoss(gs, cs, ks[0], loss);
      MergeKeysAppliesLoss(gs, cs, ks[1..], loss);
      AllLossAppliedAppend(RowsFor(gs, cs, ks[0]), MergeKeys(gs, cs, ks[1..]), loss);
    }
  }

  /**
   * The join keeps `After_Loss = Energy_kWh * (1 - loss / 100)` on every row,
   * the zero-filled ones included.
   */
  lemma MergeAppliesLoss(gs: seq<GenSlot>, cs: seq<ConsSlot>, loss: real)
    requires GenLossApplied(gs, loss)
    ensures AllLossApplied(Merge(gs, cs), loss)
  {
    MergeKeysAppliesLoss(gs, cs, UnionKeys(gs, cs), loss);
  }

  // ---------------------------------------------------------------------
  // Chronological order
  // ---------------------------------------------------------------------

  /** `sort_values(['Slot_Date_dt', 'Slot_Time_min'])` on a key: its date, then its start minute. */
  function SlotRank(k: Key): seq<int> {
    [k.date.year, k.date.month, k.date.day, SlotClock.SlotMinutes(k.time)]
  }

  /** The rank order is the order of (date, start minute). */
  lemma SlotRankOrder(a: Key, b: Key)
    requires Tables.LexLe(SlotRank(a), SlotRank(b))
    ensures Calendar.DateLe(a.date, b.date)
    ensures a.date == b.date ==> SlotClock.SlotMinutes(a.time) <= SlotClock.SlotMinutes(b.time)
  {
    var ka := SlotRank(a);
    var kb := SlotRank(b);
    if ka[0] == kb[0] {
      assert Tables.LexLe(ka[1..], kb[1..]);
      if ka[1] == kb[1] {
        assert Tables.LexLe(ka[1..][1..], kb[1..][1..]);
        if ka[2] == kb[2] {
          assert Tables.LexLe(ka[1..][1..][1..], kb[1..][1..][1..]);
        }
      }
    }
  }

  /** With distinct keys, a key matches at most one consumption row. */
  lemma {:induction false} ConsOfUnique(cs: seq<ConsSlot>, k: Key)
    requires Tables.Distinct(ConsKeys(cs))
    ensures |ConsOf(cs, k)| <= 1
    decreases |cs|
  {
    if |cs| > 0 {
      var p := Tables.KeyIs(ConsKey, k);
      var rest := Tables.Filter(cs[1..], p);
      assert ConsKeys(cs[1..]) == ConsKeys(cs)[1..];
      ConsOfUnique(cs[1..], k);
    }
  }

  /** With distinct keys, a key matches at most one generation row. */
  lemma {:induction false} GenOfUnique(gs: seq<GenSlot>, k: Key)
    requires Tables.Distinct(GenKeys(gs))
    ensures |GenOf(gs, k)| <= 1
    decreases |gs|
  {
    if |gs| > 0 {
      var p := Tables.KeyIs(GenKey, k);
      var rest := Tables.Filter(gs[1..], p);
      assert GenKeys(gs[1..]) == GenKeys(gs)[1..];
      GenOfUnique(gs[1..], k);
    }
  }

  /** The total of a column over the joined rows is the sum of its per-key totals. */
  lemma {:induction false} SumMergeKeys(gs: seq<GenSlot>, cs: seq<ConsSlot>, ks: seq<Key>, f: Slot -> real)
    ensures Tables.Sum(MergeKeys(gs, cs, ks), f) == Tables.Sum(ks, k => Tables.Sum(RowsFor(gs, cs, k), f))
    decreases |ks|
  {
    if |ks| > 0 {
      SumMergeKeys(gs, cs, ks[1..], f);
      Tables.SumAppend(RowsFor(gs, cs, ks[0]), MergeKeys(gs, cs, ks[1..]), f);
    }
  }

  /** Joined against at most one consumption row, each generation row appears once. */
  lemma {:induction false} CrossKeepsGeneration(k: Key, gm: seq<GenSlot>, cm: seq<ConsSlot>)
    requires |cm| <= 1
    ensures Tables.Sum(Cross(k, gm, cm), (s: Slot) => s.afterLoss) == Tables.Sum(gm, (g: GenSlot) => Fill(g.afterLoss))
    ensures Tables.Sum(Cross(k, gm, cm), (s: Slot) => s.kwhGen) == Tables.Sum(gm, (g: GenSlot) => Fill(g.kwh))
    decreases |gm|
  {
    if |gm| > 0 {
      CrossKeepsGeneration(k, gm[1..], cm);
      var head := Pair(k, gm[0], cm);
      assert |head| == 1;
      Tables.SumAppend(head, Cross(k, gm[1..], cm), (s: Slot) => s.afterLoss);
      Tables.SumAppend(head, Cross(k, gm[1..], cm), (s: Slot) => s.kwhGen);
    }
  }

  /** A key's rows carry its generation total when it has at most one consumption row. */
  lemma RowsForGeneration(gs: seq<GenSlot>, cs: seq<ConsSlot>, k: Key)
    requires |ConsOf(cs, k)| <= 1
    ensures Tables.Sum(RowsFor(gs, cs, k), (s: Slot) => s.afterLoss) == Tables.Sum(GenOf(gs, k), (g: GenSlot) => Fill(g.afterLoss))
    ensures Tables.Sum(RowsFor(gs, cs, k), (s: Slot) => s.kwhGen) == Tables.Sum(GenOf(gs, k), (g: GenSlot) => Fill(g.kwh))
  {
    var gm := GenOf(gs, k);
    var rows := RowsFor(gs, cs, k);
    if |gm| == 0 {
      assert forall i :: 0 <= i < |rows| ==> ZeroFilled(gs, cs, rows[i]) && rows[i].key == k;
      Tables.SumFilterZeroAll(rows, (s: Slot) => s.afterLoss);
      Tables.SumFilterZeroAll(rows, (s: Slot) => s.kwhGen);
    } else {
      assert rows == Cross(k, gm, ConsOf(cs, k));
      CrossKeepsGeneration(k, gm, ConsOf(cs, k));
    }
  }

  /**
   * When each slot has at most one consumption reading, the join neither
   * loses nor repeats generation: the joined After_Loss and kWh totals equal
   * the generation side's totals (NaN counted as 0). With repeated
   * consumption keys pandas repeats the generation row once per match.
   */
  lemma MergeKeepsGeneration(gs: seq<GenSlot>, cs: seq<ConsSlot>)
    requires Tables.Distinct(ConsKeys(cs))
    ensures Tables.Sum(Merge(gs, cs), (s: Slot) => s.afterLoss) == Tables.Sum(gs, (g: GenSlot) => Fill(g.afterLoss))
    ensures Tables.Sum(Merge(gs, cs), (s: Slot) => s.kwhGen) == Tables.Sum(gs, (g: GenSlot) => Fill(g.kwh))
  {
    var ks := UnionKeys(gs, cs);
    var key := GenKey;
    forall i | 0 <= i < |ks| ensures |ConsOf(cs, ks[i])| <= 1 {
      ConsOfUnique(cs, ks[i]);
    }
    forall i | 0 <= i < |ks|
      ensures Tables.Sum(RowsFor(gs, cs, ks[i]), (s: Slot) => s.afterLoss)
        == Tables.KeyTotal(gs, key, (g: GenSlot) => Fill(g.afterLoss), ks[i])
      ensures Tables.Sum(RowsFor(gs, cs, ks[i]), (s: Slot) => s.kwhGen)
        == Tables.KeyTotal(gs, key, (g: GenSlot) => Fill(g.kwh), ks[i])
    {
      RowsForGeneration(gs, cs, ks[i]);
    }
    assert forall i :: 0 <= i < |gs| ==> key(gs[i]) in ks by {
      forall i | 0 <= i < |gs| ensures key(gs[i]) in ks {
        assert GenKeys(gs)[i] == gs[i].key;
      }
    }
    SumMergeKeys(gs, cs, ks, (s: Slot) => s.afterLoss);
    Tables.SumPointwise(ks, k => Tables.Sum(RowsFor(gs, cs, k), (s: Slot) => s.afterLoss),
      k => Tables.KeyTotal(gs, key, (g: GenSlot) => Fill(g.afterLoss), k));
    Tables.SumByKey(ks, gs, key, (g: GenSlot) => Fill(g.afterLoss));
    SumMergeKeys(gs, cs, ks, (s: Slot) => s.kwhGen);
    Tables.SumPointwise(ks, k => Tables.Sum(RowsFor(gs, cs, k), (s: Slot) => s.kwhGen),
      k => Tables.KeyTotal(gs, key, (g: GenSlot) => Fill(g.kwh), k));
    Tables.SumByKey(ks, gs, key, (g: GenSlot) => Fill(g.kwh));
  }

  lemma ConsOnlyKeepsConsumption(k: Key, cm: seq<ConsSlot>)
    ensures Tables.Sum(ConsOnly(k, cm), (s: Slot) => s.cons) == Tables.Sum(cm, (c: ConsSlot) => Fill(c.kwh))
  {
    Tables.SumCorrespond(ConsOnly(k, cm), (s: Slot) => s.cons, cm, (c: ConsSlot) => Fill(c.kwh));
  }

  lemma PairKeepsConsumption(k: Key, g: GenSlot, cm: seq<ConsSlot>)
    ensures Tables.Sum(Pair(k, g, cm), (s: Slot) => s.cons) == Tables.Sum(cm, (c: ConsSlot) => Fill(c.kwh))
  {
    var rows := Pair(k, g, cm);
    if |cm| == 0 {
      assert rows[1..] == [];
    } else {
      Tables.SumCorrespond(rows, (s: Slot) => s.cons, cm, (c: ConsSlot) => Fill(c.kwh));
    }
  }

  /** A key's rows carry its consumption total when it has at most one generation row. */
  lemma RowsForConsumption(gs: seq<GenSlot>, cs: seq<ConsSlot>, k: Key)
    requires |GenOf(gs, k)| <= 1
    ensures Tables.Sum(RowsFor(gs, cs, k), (s: Slot) => s.cons) == Tables.Sum(ConsOf(cs, k), (c: ConsSlot) => Fill(c.kwh))
  {
    var gm := GenOf(gs, k);
    var cm := ConsOf(cs, k);
    if |gm| == 0 && |cm| == 0 {
      assert RowsFor(gs, cs, k) == [Slot(k, 0.0, 0.0, 0.0)];
    } else if |gm| == 0 {
      assert RowsFor(gs, cs, k) == ConsOnly(k, cm);
      ConsOnlyKeepsConsumption(k, cm);
    } else {
      assert Cross(k, gm[1..], cm) == [];
      assert RowsFor(gs, cs, k) == Pair(k, gm[0], cm) + [];
      assert Pair(k, gm[0], cm) + [] == Pair(k, gm[0], cm);
      PairKeepsConsumption(k, gm[0], cm);
    }
  }

  /**
   * When each slot has at most one generation reading, the joined
   * consumption total equals the consumption side's total (NaN counted as 0).
   */
  lemma MergeKeepsConsumption(gs: seq<GenSlot>, cs: seq<ConsSlot>)
    requires Tables.Distinct(GenKeys(gs))
    ensures Tables.Sum(Merge(gs, cs), (s: Slot) => s.cons) == Tables.Sum(cs, (c: ConsSlot) => Fill(c.kwh))
  {
    var ks := UnionKeys(gs, cs);
    var key := ConsKey;
    var g := (c: ConsSlot) => Fill(c.kwh);
    forall i | 0 <= i < |ks|
      ensures Tables.Sum(RowsFor(gs, cs, ks[i]), (s: Slot) => s.cons) == Tables.KeyTotal(cs, key, g, ks[i])
    {
      GenOfUnique(gs, ks[i]);
      RowsForConsumption(gs, cs, ks[i]);
    }
    assert forall i :: 0 <= i < |cs| ==> key(cs[i]) in ks by {
      forall i | 0 <= i < |cs| ensures key(cs[i]) in ks {
        assert ConsKeys(cs)[i] == cs[i].key;
      }
    }
    SumMergeKeys(gs, cs, ks, (s: Slot) => s.cons);
    Tables.SumPointwise(ks, k => Tables.Sum(RowsFor(gs, cs, k), (s: Slot) => s.cons),
      k => Tables.KeyTotal(cs, key, g, k));
    Tables.SumByKey(ks, cs, key, g);
  }

  /** A key of the generation side is the key of one of its readings. */
  lemma GenKeyDate(gf: seq<Reading>, loss: real, key: Key)
    requires key in GenKeys(GenerationRows(gf, loss))
    ensures exists r :: r in gf && r.date == key.date
  {
    var gs := GenerationRows(gf, loss);
    var k :| 0 <= k < |gs| && GenKeys(gs)[k] == key;
    assert gs[k] == Generation(gf[k], loss);
    assert gf[k] in gf;
  }

  /** A key of the consumption side is the key of one of its readings. */
  lemma ConsKeyDate(cf: seq<Reading>, factor: real, key: Key)
    requires key in ConsKeys(ConsumptionRows(cf, factor))
    ensures exists r :: r in cf && r.date == key.date
  {
    var cs := ConsumptionRows(cf, factor);
    var k :| 0 <= k < |cs| && ConsKeys(cs)[k] == key;
    assert cs[k] == Consumption(cf[k], factor);
    assert cf[k] in cf;
  }

  // ---------------------------------------------------------------------
  // The clamped excess and the missing-side tags (app.py, streamlit_app.py)
  // ---------------------------------------------------------------------

  const MissingGen := "[Missing in GENERATED] "
  const MissingCons := "[Missing in CONSUMED] "

  /** `x if x > 0 else 0`: the least non-negative value not below `x`. */
  function Clamp(x: real): (r: real)
    ensures r >= 0.0 && r >= x
    ensures r == x || r == 0.0
  {
    if x > 0.0 then x else 0.0
  }

  /**
   * The two tags appended in turn for a key absent from a side; the four
   * presence patterns give four different texts.
   */
  function MissingTags(inGen: bool, inCons: bool): (t: string)
    ensures t == "" <==> inGen && inCons
    ensures t == MissingGen <==> !inGen && inCons
    ensures t == MissingCons <==> inGen && !inCons
    ensures t == MissingGen + MissingCons <==> !inGen && !inCons
  {
    assert MissingGen[12] != MissingCons[12];
    assert |MissingGen + MissingCons| > |MissingGen| && |MissingGen + MissingCons| > |MissingCons|;
    (if inGen then "" else MissingGen) + (if inCons then "" else MissingCons)
  }
}
