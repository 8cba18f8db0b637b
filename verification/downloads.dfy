/**
 * The report options a request carries and the way the finished reports
 * are handed back: one file on its own, several in one zip archive.
 */
module Downloads {
  import opened Wrappers
  import Tables

  /** A checkbox counts as set only when the form sends exactly "1". */
  function FormFlag(value: Option<string>): (set_: bool)
    ensures set_ <==> value == Some("1")
  {
    match value
    case Some(v) => v == "1"
    case None => false
  }

  /** The three report check boxes. */
  datatype Options = Options(excessOnly: bool, allSlots: bool, daywise: bool)

  function ReadOptions(excessOnly: Option<string>, allSlots: Option<string>, daywise: Option<string>): (o: Options)
    ensures o.excessOnly <==> excessOnly == Some("1")
    ensures o.allSlots <==> allSlots == Some("1")
    ensures o.daywise <==> daywise == Some("1")
  {
    Options(FormFlag(excessOnly), FormFlag(allSlots), FormFlag(daywise))
  }

  /** The three reports a request can ask for. */
  datatype ReportKind = ExcessOnly | AllSlots | DayWiseReport

  predicate Asked(o: Options, k: ReportKind) {
    match k
    case ExcessOnly => o.excessOnly
    case AllSlots => o.allSlots
    case DayWiseReport => o.daywise
  }

  function FileName(k: ReportKind): string {
    match k
    case ExcessOnly => "energy_adjustment_excess_only.pdf"
    case AllSlots => "energy_adjustment_all_slots.pdf"
    case DayWiseReport => "energy_adjustment_daywise.pdf"
  }

  const ZipName := "energy_adjustment_reports.zip"
  const ZipMime := "application/zip"

  /** The report kinds asked for, in the fixed order excess-only, all slots, day-wise. */
  function Wanted(o: Options): seq<ReportKind> {
    Tables.Filter([ExcessOnly, AllSlots, DayWiseReport], k => Asked(o, k))
  }

  /** The wanted kinds written out case by case. */
  lemma WantedOrder(o: Options)
    ensures Wanted(o) ==
      (if o.excessOnly then [ExcessOnly] else []) + (if o.allSlots then [AllSlots] else [])
      + (if o.daywise then [DayWiseReport] else [])
  {
  }

  /** What the handler sends back. */
  datatype Download<F> = NoDownload | Single(file: F) | Zip(name: string, mime: string, files: seq<F>)

  function Contents<F>(d: Download<F>): seq<F> {
    match d
    case NoDownload => []
    case Single(f) => [f]
    case Zip(_, _, fs) => fs
  }

  /** One report goes out as it is, several as one zip archive, none as nothing at all. */
  function Package<F>(files: seq<F>): (d: Download<F>)
    ensures Contents(d) == files
    ensures d.NoDownload? <==> |files| == 0
    ensures d.Single? <==> |files| == 1
    ensures d.Zip? <==> |files| > 1
    ensures d.Zip? ==> d.name == ZipName && d.mime == ZipMime
  {
    if |files| == 1 then Single(files[0])
    else if |files| > 1 then Zip(ZipName, ZipMime, files)
    else NoDownload
  }
}
