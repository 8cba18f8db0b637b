# Energy adjustment calculator: a Dafny model

The energy adjustment calculator takes two kinds of input. Generation sheets give energy in MW per 15-minute slot. Consumption sheets give energy in kWh per slot. The calculator reconciles the two slot by slot and reports the energy generated beyond what was consumed, the "excess", as PDF reports. Three request handlers do this, and each does it its own way:

- the newer Flask handler (`app_final.py`) does not clamp the excess, filters by the output options, and prints a billing chain;
- the Streamlit handler (`streamlit_app.py`) clamps the excess at zero and adds 20 % / 10 % time-of-day surcharges;
- the older Flask handler (`app.py`) also clamps. It uses a month window shifted by one slot, builds missing-day and missing-slot warnings, and packages one, two or three reports.

The repository also holds an IEX surcharge helper (`test_surcharge.py`) and the release and update utilities of the desktop build (`auto_updater.py`, `release_manager.py`).

This project models each handler as it is written, not an idealised engine, with the few deviations listed below. Each lives in a module of its own. Shared pure logic lives in small modules:

| module | file | what it models |
|---|---|---|
| `Wrappers` | wrappers.dfy | `Option` / `Result` |
| `Text`, `Numerals` | text.dfy, numerals.dfy | `split`, `strip`, `lower`, `int()`, `str()`, `zfill` |
| `Tables` | tables.dfy | column sums, boolean masks, `groupby(...).sum()`, stable sort, `sorted(set(...))` |
| `Calendar` | calendar.dfy | Gregorian month length, month windows, `date_range`, `dd/mm/yyyy` text |
| `SlotClock` | slotclock.dfy | `%H:%M` parsing, slot labels `HH:MM - HH:MM`, slot minutes, `format_time` |
| `Tod` | tod.dfy | the two `classify_tod` variants (C1, C2, C4, C5, Unknown) |
| `Readings` | readings.dfy | MW to kWh, T&D loss, multiplication factor, the slot join, clamp, missing tags |
| `Selections` | selection.dfy | the year / month / date filters and their empty-result errors |
| `Downloads` | downloads.dfy | form checkboxes, report order, single file vs zip |
| `FinalReport` | app_final.dfy | the newer Flask handler |
| `StreamlitReport` | streamlit.dfy | the Streamlit handler |
| `LegacyReport` | legacy.dfy | the older Flask handler |
| `Surcharge` | surcharge.dfy | `compute_additional_surcharge` |
| `Versions`, `Updater` | versions.dfy, updater.dfy | version strings, `compare_versions`, the update-check decision, config merge, backup retention |
| `Release` | release.dfy | version and build bump, changelog entry, changelog splice |

Energies and money are Dafny `real`, so every formula holds exactly. Dates arrive already parsed as (year, month, day). Slot times are text, as the sheets carry them.

Where the handlers differ, the model follows the code. Three such places, and then the deviations:

- `app_final.py` sorts on the `dd/mm/yyyy` text. Across months this is day-first order, not calendar order. Within one selected month it is calendar order (`FinalReport.IndexInDayOrder`).
- Of the day-wise tables, only the one in `app.py` can leave rows out. Its shifted window admits the 00:00 slot of the next month's 1st, but its day index stops at the month's last day (`LegacyReport.MonthDayTable`).
- The update check uses the comparison as its comment describes it, not as written (see Findings).
- The packaged reports of `app.py` print slot labels unchanged and show the computed warnings. As written, its `format_time` drops a leading "00" and its warning block is always empty (see Findings, and the `LegacyReport.Process` and `LegacyReport.CommonOf` lines under Left out).

## Model

| member | source | states |
|---|---|---|
| Readings.Generation | app_final.py:251-253 | Energy_kWh is 250 times the MW reading, and both columns are NaN exactly when the reading is; for a non-negative reading and a loss between 0 and 100 % the after-loss energy lies between 0 and Energy_kWh |
| Readings.AfterLossBounds | app.py:89-91 | the after-loss energy of a non-negative reading is between 0 and the reading, and the energy lost is exactly the loss percentage of it |
| Readings.Consumption | app_final.py:401-403 | consumption is the reading times the multiplication factor, NaN exactly when the reading is |
| Readings.Fill | app_final.py:419-420 | `fillna(0)`: a missing value reads 0, a present one is kept |
| Readings.UnionKeys | streamlit_app.py:294-296 | the slot universe holds each (date, time) key of either side once, and no other key |
| Readings.Merge | app_final.py:416-420 | every key of either side gets a joined row, no other key does, and a side without a row for the key contributes zeros |
| Readings.RowsForCount | app_final.py:416 | a key gets one joined row per pair of its generation and consumption rows, a missing side counting once (pandas merge semantics) |
| Readings.MergeKeepsGeneration | app_final.py:416-419 | with at most one consumption row per slot the join neither loses nor repeats generation: joined after-loss and kWh totals equal the generation side's |
| Readings.MergeKeepsConsumption | app_final.py:416-420 | with at most one generation row per slot the joined consumption total equals the consumption side's |
| Readings.MergeAppliesLoss | app_final.py:253 | every joined row, zero-filled ones included, keeps After_Loss = Energy_kWh × (1 − loss/100) |
| Readings.Clamp | streamlit_app.py:308-309 | the clamped excess is the least non-negative value not below the raw excess |
| Readings.MissingTags | streamlit_app.py:310-314 | the tag is empty exactly when both sides have the key, names the generated side exactly when only it lacks the key, the consumed side exactly when only it does |
| Readings.SlotRankOrder | streamlit_app.py:330-332 | the sort key orders slots by date, then by the minute the slot starts |
| Readings.FullMonthReading | app_final.py:188-198 | the full-month window keeps a reading exactly when its start time parses, it is in the month, and it is not after 23:45 on the last day |
| Readings.ShiftedMonthReading | app.py:44-62 | the shifted window keeps a reading exactly when its start parses and it is in the month but not the 1st's 00:00 slot, or it is the 00:00 slot of the next month's 1st |
| Calendar.LastDay | app_final.py:173-187 | month length is 31, 30 for April, June, September and November, and for February 29 exactly in Gregorian leap years and 28 otherwise |
| Calendar.NextMonthFirst | app.py:44-62 | the next month's 1st is a valid date, is the day after the month's last day, and rolls December over to January of the next year |
| Calendar.FullMonthWindowMembers | streamlit_app.py:106-136 | a slot lies in [1st 00:00, last day 23:45] exactly when it is in the month and not after 23:45 on the last day |
| Calendar.ShiftedMonthWindowMembers | app.py:44-62 | the window [1st 00:15, next 1st 00:00] drops the 1st's 00:00 slot, takes in the next month's 00:00 slot, and keeps every other slot of the month |
| Calendar.DaysUntilNextMonth | streamlit_app.py:508-521 | stepping a day at a time from the 1st to the day before the next month's 1st visits exactly days 1..last day, in order |
| Calendar.MonthDays | app_final.py:809-810 | the month's day range has last-day many entries, day i + 1 at position i, and fails exactly for an invalid month |
| Calendar.Span | app.py:422-427 | `date_range(min, max)` fails exactly when no date is readable; otherwise it holds each date between the earliest and latest readable date once, so every readable date |
| Calendar.MonthName | app_final.py:109-115 | months 1..12 get their English name; text `int()` rejects, or a number outside −11..12, comes back unchanged |
| Calendar.ParseDayFirst | app.py:272 | a `%d/%m/%Y` parse yields only valid dates with four-digit years |
| Calendar.DateStringParses | app_final.py:278 | a date written as `dd/mm/yyyy` parses back to the same date |
| Calendar.DateStringInjective | app_final.py:278 | distinct dates get distinct `dd/mm/yyyy` text, so grouping by the text groups by the date |
| SlotClock.ParseClock | app_final.py:470 | a `%H:%M` parse yields only valid clock times, from text with no '-' and no surrounding blanks |
| SlotClock.FormatParses | app_final.py:274 | a time written with `%H:%M` parses back to the same time |
| SlotClock.Plus15 | app_final.py:273 | a slot ends fifteen minutes after it starts, wrapping past midnight |
| SlotClock.SlotTimeRange | app_final.py:256-274 | text with a '-' is kept stripped; a time that parses becomes its fifteen-minute label; anything else is kept |
| SlotClock.SlotLabel | app_final.py:275-277 | a slot label is never "23:45 - 24:00" and otherwise equals the range label |
| SlotClock.RangeLabelNotLate | app_final.py:277 | a label built from a parsed time never ends at 24:00, so the fix-up never fires on it |
| SlotClock.SlotLabelIdempotent | app_final.py:275-277 | labelling a label changes nothing |
| SlotClock.ExtractStart | app_final.py:189-193 | the start of a slot holds no '-' and is the whole stripped text when that holds no '-' |
| SlotClock.StartText | streamlit_app.py:39 | the text before the first '-', stripped, holds no '-' |
| SlotClock.SlotMinutes | streamlit_app.py:37-43 | when the start splits on ':' into two fields that `int()` reads as h and m, the slot sorts at 60·h + m; when it does not, at 0; a start that parses as a time sorts at its minute of the day |
| SlotClock.ClockFieldsParse | streamlit_app.py:37-43 | a start that parses as a time has two ':' fields that `int()` reads as its hour and minute |
| SlotClock.SlotMinutesOfLabel | streamlit_app.py:37-43 | a slot whose time parsed sorts at the minute it starts, and its start extracts back to that time |
| SlotClock.FormatTime | app.py:303-312 | four-character "H:MM" gets a leading zero; text of five or more characters not starting "00" is kept |
| SlotClock.FormatTimeOfLabel | app.py:303-312 | on a slot label `format_time` is the identity except in hour 00, where it drops the hour and starts with ':' |
| SlotClock.DisplayTime | app.py:303-312 | the display the code evidently intends shows every slot label unchanged |
| Tod.ClassifyHour | app_final.py:474-481 | the bands are total: C1 exactly for hours 6–9, C2 for 18–21, C4 for 5 and 10–17, C5 for the rest, never Unknown |
| Tod.ClassifyStrict | app_final.py:461-483 | Unknown exactly when the slot start fails the `%H:%M` parse; otherwise the band of its hour alone |
| Tod.ClassifyLoose | streamlit_app.py:273-292 | Unknown exactly when the slot start does not split on ':' into two integers; otherwise the category of the hour band holding the first of them |
| Tod.StrictImpliesLoose | streamlit_app.py:273-292 | whenever the strict reading classifies a slot, the loose reading gives the same category |
| Tod.LooseAcceptsLateHours | streamlit_app.py:277-290 | on an hour past 23 the two readings part: Unknown for the strict one, C5 for the loose one |
| Tod.LabelClassified | app_final.py:485 | every label built from a parsed time gets a real category from both readings |
| Selections.MonthWindow | streamlit_app.py:106-136 | the month window exists exactly for months 1..12 |
| Selections.PeriodFilter | app_final.py:171-207 | with year and month the window filter fails exactly for an invalid month; without both it always succeeds; with neither it keeps every reading; the kept readings are exactly those passing the period test |
| Selections.SelectReadings | app_final.py:171-249 | a filter that leaves no reading is an error; with no filter every reading is kept; otherwise the kept readings are exactly those passing the filters, with multiplicity |
| Selections.SelectedInMonth | streamlit_app.py:106-136 | a reading a full-month selection keeps lies in that month |
| Selections.ShiftedSelectedInMonth | app.py:44-62 | a reading the shifted window keeps lies in the month or on the next month's 1st |
| Selections.KeyInMonth | app_final.py:171-198 | with a full month selected, every key of either side is a valid date of that month |
| Selections.ShiftedKeyInMonth | app.py:44-62 | with the shifted window, every key of either side lies in the month or on the next month's 1st |
| Downloads.FormFlag | app.py:14-16 | a checkbox is set exactly when the form sends "1" |
| Downloads.ReadOptions | app_final.py:55-57 | each option is set exactly when its field is "1" |
| Downloads.WantedOrder | app.py:466-498 | the reports come in the order excess-only, all slots, day-wise, each exactly when asked for |
| Downloads.Package | app.py:500-516 | no report gives nothing, one is sent as it is, two or more go out as `energy_adjustment_reports.zip` with the zip mime type; the contents are the reports in order |
| FinalReport.MissingInfo | app_final.py:426-429 | 'B' exactly when both values are 0, 'C' exactly when only consumption is, 'G' exactly when only generation is, '' otherwise |
| FinalReport.Annotate | app_final.py:419-429 | a joined row keeps key and energies; its excess is negative exactly when consumption exceeds generation after loss (no clamp) and positive exactly when generation does |
| FinalReport.ExcessTotal | app_final.py:423 | the excess column totals after-loss generation minus consumption |
| FinalReport.Select | app_final.py:432-437 | with `show_excess_only` only rows with positive excess survive, without `show_all_slots` only rows with both sides positive; no other row is removed and none is duplicated |
| FinalReport.SelectOneMask | app_final.py:432-437 | the two filters in a row keep the same rows, in the same order, as one combined mask |
| FinalReport.SortRows | app_final.py:440 | the sort is a permutation, ordered by the `dd/mm/yyyy` text and then by the slot text, by code point |
| FinalReport.DateTextOrder | app_final.py:440 | within one month the `dd/mm/yyyy` text orders dates by day |
| FinalReport.SortedMonthInDayOrder | app_final.py:440 | sorted rows of one month come out in day order |
| FinalReport.CategoriesPartition | app_final.py:488-502 | the C1, C2, C4, C5 and Unknown group totals add up to the total excess |
| FinalReport.ComputeBill | app_final.py:648-695 | x is NaN exactly at a loss of 100 % with no excess, and infinite at 100 % otherwise, where y = E; below or above 100 %, y = E + (100 − L) when E·L ≠ 0 and E otherwise; y is NaN exactly when x is, and then so are wheeling and final; otherwise wheeling = 1.04·y and final = 1.05·(7.25·E + 1.81·E₁₂ + 0.3625·E₅) − 2.02·E − 1.04·y |
| FinalReport.Divide | app_final.py:683 | float division: the quotient when the divisor is non-zero; for a zero divisor NaN exactly when the dividend is 0, and otherwise an infinity of the dividend's sign |
| FinalReport.FullLossBill | app_final.py:681-689 | with non-zero excess, a loss of 100 % bills the same wheeling charge, 1.04·E, and the same final amount as no loss |
| FinalReport.WheelingStep | app_final.py:683-686 | x is zero exactly when E·L is, and otherwise E·L/x = 100 − L |
| FinalReport.WheelingJump | app_final.py:680-689 | for non-zero excess, any loss strictly between 0 and 100 % raises the wheeling charge by 1.04·(100 − L) over the zero-loss charge |
| FinalReport.BillFor | app_final.py:488-502 | the bill of a table uses its excess total, the C1+C2 group and the C5 group; its final amount is NaN exactly when the loss is 100 % and the excess total is 0 |
| FinalReport.DayTotal | app_final.py:786-790 | a day's total is the sum over the rows dated that day, 0 for a day without rows |
| FinalReport.DayIndex | app_final.py:793-813 | with year and month the index is days 1..last day in order, failing exactly for an invalid month; otherwise it lists the row dates; it never repeats a day |
| FinalReport.DayWise | app_final.py:786-817 | the day-wise table has one row per indexed day carrying that day's totals |
| FinalReport.DayTableConserves | app_final.py:786-816 | when every row's date is indexed, the day table keeps the three column totals |
| FinalReport.DayWiseConserves | app_final.py:793-816 | the day-wise totals equal the report totals when the rows lie in the selected month, and always without a full month |
| FinalReport.ReportRows | app_final.py:416-440 | the report rows are exactly the annotated joined rows that pass the options, each as often as in the join |
| FinalReport.Index | app_final.py:909-931 | a request succeeds exactly when both sides pass the selection, at any loss; it then gives the day-wise report exactly when asked, lists only rows passing the options, and carries the bill of its rows |
| FinalReport.IndexRows | app_final.py:250-440 | a request that succeeds has selected both sides, and its rows are the filtered, sorted join of the converted sides |
| FinalReport.RowInMerge | app_final.py:416 | every report row carries a key of one of the two sides |
| FinalReport.ReportRowInMonth | app_final.py:171-198 | with a full month selected, a report row is dated in that month |
| FinalReport.IndexMonth | app_final.py:171-198 | with a full month selected, every report row is a valid date of that month |
| FinalReport.IndexDayWise | app_final.py:793-816 | the day-wise report of a full month has one row per day and keeps the report's three totals |
| FinalReport.IndexInDayOrder | app_final.py:440 | with a full month of a four-digit year, the report lists its rows in day order |
| StreamlitReport.Annotate | streamlit_app.py:308-318 | a row keeps key and energies; its excess is non-negative, at least the raw difference, and equal to it when positive; its tags and category come from the key |
| StreamlitReport.Rows | streamlit_app.py:294-318 | the joined table has one row per join row; every excess is non-negative and no row is tagged missing on both sides |
| StreamlitReport.SortRows | streamlit_app.py:330-333 | the sort is a permutation ordered by date and then by the slot's start minute |
| StreamlitReport.SurchargeByCategory | streamlit_app.py:412-417 | the per-category surcharge groups add up to the whole surcharge column |
| StreamlitReport.GroupSurcharge | streamlit_app.py:415-417 | within a category the surcharge is its rate (20 % for C1/C2, 10 % for C5, 0 otherwise) times the group's excess |
| StreamlitReport.AdditionalByRow | streamlit_app.py:445-449 | the category-wise additional equals the surcharge charged row by row; C4 and Unknown rows add nothing |
| StreamlitReport.SurchargeBounds | streamlit_app.py:415-417 | a row's surcharge lies between 0 and a fifth of its non-negative excess |
| StreamlitReport.SurchargeSumBounds | streamlit_app.py:415-417 | on non-negative excess the row surcharges total between 0 and 20 % of the total excess |
| StreamlitReport.AdditionalBounds | streamlit_app.py:445-449 | on non-negative excess the additional lies between 0 and 20 % of the total excess |
| StreamlitReport.Summarize | streamlit_app.py:445-462 | comparison = injection − after-loss; status is "Excess" exactly when the total excess is positive; grand total = excess + additional; on clamped rows excess ≤ grand total ≤ 1.2 × excess |
| StreamlitReport.ExcessOnlySameTotals | streamlit_app.py:334-335 | with clamped excess, the excess-only report carries the same excess and surcharge totals as the all-slots report |
| StreamlitReport.DayTotal | streamlit_app.py:537-543 | a day's total is the sum over its rows, 0 for a day without rows |
| StreamlitReport.DayAdditional | streamlit_app.py:523-534 | the day's additional built from its category groups equals charging each of its rows at its own rate |
| StreamlitReport.MonthIndex | streamlit_app.py:508-521 | the month's day index is days 1..last day in order, each once, and fails exactly for an invalid month |
| StreamlitReport.RangeIndex | streamlit_app.py:516-521 | without a month the index runs from the earliest to the latest readable row date, each day once, and fails exactly when no date is readable |
| StreamlitReport.DayIndex | streamlit_app.py:508-521 | the day index is the month's days with year and month given, the row-date range otherwise |
| StreamlitReport.DayWise | streamlit_app.py:507-548 | the day-wise table exists exactly when its index does, with one row per indexed day, in index order |
| StreamlitReport.DayTableConserves | streamlit_app.py:536-548 | when every row's date is indexed, the day table keeps all four column totals, surcharge included |
| StreamlitReport.DayWiseConserves | streamlit_app.py:507-548 | on dated rows within the selected month, the day-wise totals equal the report totals, surcharge included |
| StreamlitReport.DayIndexCovers | streamlit_app.py:507-521 | on dated rows within the selected month, every row's date is in the day index, which never repeats a day |
| StreamlitReport.ExcessFile | streamlit_app.py:648-650 | the excess-only report shows only rows with positive excess, and on clamped rows its summary is that of the whole table |
| StreamlitReport.AllSlotsFile | streamlit_app.py:651-653 | the all-slots report lists every row of the table, in order, with the summary of all rows |
| StreamlitReport.DayFile | streamlit_app.py:654-656 | the day-wise report carries the summary of all rows, and its days add up to it on dated rows of the month |
| StreamlitReport.IfDayWise | streamlit_app.py:654-656 | the day-wise report is produced exactly when asked for and its day index exists |
| StreamlitReport.Reports | streamlit_app.py:647-656 | producing the reports fails exactly when the day-wise report is asked for and its index fails |
| StreamlitReport.ReportsInOrder | streamlit_app.py:647-656 | the reports are exactly those asked for, in the order excess-only, all slots, day-wise |
| StreamlitReport.ReportsSound | streamlit_app.py:647-656 | every report lists only what it should and its summary speaks for the whole table |
| StreamlitReport.ProcessRows | streamlit_app.py:106-335 | the table exists exactly when both sides' filters succeed, and its excess is never negative |
| StreamlitReport.Process | streamlit_app.py:647-690 | no year is an error; a request that succeeds packages exactly the reports asked for, zipped exactly when more than one, each sound against the table |
| StreamlitReport.MergedKeyInMonth | streamlit_app.py:294-298 | with a full month selected, a key of the join is a valid date of that month |
| StreamlitReport.ProcessRowsInMonth | streamlit_app.py:106-136 | with a full month selected, every row of the table is a valid date of that month |
| StreamlitReport.ProcessMonth | streamlit_app.py:507-548 | for a full month, every report that comes out adds up day by day and lists every day of the month |
| LegacyReport.Annotate | app.py:212-219 | a row keeps key and energies; its excess is clamped and non-negative; its tags say which sides lack the key |
| LegacyReport.Rows | app.py:196-219 | the joined table over the union of keys has one row per join row, every excess clamped, no row tagged missing on both sides |
| LegacyReport.RecomputeUnchanged | app.py:260-262 | recomputing the excess of the joined table leaves it unchanged |
| LegacyReport.SortRows | app.py:263-275 | the sort is a permutation ordered by date and then by the slot's start minute |
| LegacyReport.TotalsOf | app.py:277-281 | comparison = injection − after-loss, and the excess line is the excess column's total |
| LegacyReport.ComparisonIsLoss | app.py:281 | on rows carrying the loss relation the comparison is the loss percentage of the injection |
| LegacyReport.ExcessRows | app.py:283 | the excess-only rows are exactly the rows with positive excess, with multiplicity |
| LegacyReport.ExcessOnlyTotals | app.py:283-293 | on clamped rows the excess-only report has the table's excess total, and the status reads "Excess" exactly when that report has a row |
| LegacyReport.SlotsOn | app.py:242-243 | the slots of a day are exactly the times a side has on that day |
| LegacyReport.DayGap | app.py:232-233 | a day difference lists, sorted and once each, exactly the days one side has and the other lacks |
| LegacyReport.DayGapsSound | app.py:228-238 | every day warning lists, sorted and once each, exactly the days one side has and the other lacks |
| LegacyReport.SlotGap | app.py:242-245 | a slot difference lists, sorted and once each, exactly the times one side has on the day and the other lacks |
| LegacyReport.WarningsSound | app.py:228-249 | every warning line is true of the two sides |
| LegacyReport.ConsumedOnlyReported | app.py:228-249 | a slot the consumed sheet has and the generated sheet lacks is always named by some warning |
| LegacyReport.GeneratedOnlyReported | app.py:228-249 | a slot the generated sheet has and the consumed sheet lacks is always named by some warning |
| LegacyReport.NoWarningsIffSameKeys | app.py:254-257 | there is no warning exactly when both sheets cover the same slots |
| LegacyReport.OtherKeysWarn | app.py:254-257 | sheets that differ in some slot draw a warning |
| LegacyReport.SameKeysNoWarning | app.py:254-257 | sheets with the same slots draw no warning |
| LegacyReport.WarningsDropped | app.py:221-226 | as written, a consumed-only slot yields a warning line, yet the report's warning block is empty |
| LegacyReport.PdfWarnings | app.py:360-363 | the corrected warning block holds only true lines, and is empty exactly when both sheets cover the same slots |
| LegacyReport.LineOf | app.py:303-312 | a printed row's date reads back as its day, a canonical slot label is printed unchanged, and the energy columns are kept |
| LegacyReport.LineAsWrittenHourZero | app.py:303-312 | as written, a printed slot equals the label except in hour 00, where it starts with ':' |
| LegacyReport.DayCount | app.py:300-301 | the day count is the number of distinct readable days of a side |
| LegacyReport.ExcessStatus | app.py:293 | the status is "Excess" or "No Excess", and on clamped rows "Excess" exactly when some row has positive excess |
| LegacyReport.DayTotal | app.py:428-433 | a day's total is the sum over its rows, 0 for a day without rows |
| LegacyReport.DayIndex | app.py:413-427 | with year and month the index is days 1..last day in order, failing exactly for an invalid month; it never repeats a day |
| LegacyReport.DayWise | app.py:411-434 | the day-wise table exists exactly when its index does, with one row per indexed day, in index order |
| LegacyReport.DayTableSums | app.py:428-433 | the day table's totals are those of the rows dated on its days; rows dated elsewhere are left out |
| LegacyReport.DayTableConserves | app.py:428-433 | when every row is dated on a listed day, the day table keeps each column total |
| LegacyReport.MonthDayTable | app.py:414-433 | with a month selected, the day totals plus those of the next month's 1st make the report totals |
| LegacyReport.RangeDayTable | app.py:422-433 | without a month every readable row date is listed, so the day totals are the report totals |
| LegacyReport.CommonOf | app.py:293-301 | the shared lines: day counts of each side, a status reading "Excess" exactly when a row has excess, and a warning block empty exactly when both sides cover the same slots |
| LegacyReport.ExcessFileSound | app.py:283-294 | the excess-only report shows only rows with positive excess, and its excess total is the table's |
| LegacyReport.AllSlotsFileSound | app.py:284-295 | the all-slots report keeps the table's excess total and its loss relation |
| LegacyReport.IfDayWise | app.py:488-498 | the day-wise report comes out exactly when asked for and its index can be built |
| LegacyReport.Defaulted | app.py:462-464 | ticking no box asks for the all-slots report and leaves the other options alone, so some report is always asked for |
| LegacyReport.NothingProduced | app.py:462-516 | nothing comes out exactly when the day-wise report was the only one asked for and its index failed |
| LegacyReport.Reports | app.py:466-498 | the reports are those asked for, in order, with a failing day-wise report skipped |
| LegacyReport.ReportsSound | app.py:466-498 | every report of a request is sound against the table |
| LegacyReport.Join | app.py:196-275 | the join succeeds exactly when both sides' filters do, the generation side's error first; its excess is never negative and every row carries the loss relation |
| LegacyReport.Process | app.py:462-516 | a failed join is its error; otherwise no report is the "select at least one" error, one report is sent alone, several are zipped, holding exactly the kinds produced |
| LegacyReport.Packaged | app.py:500-516 | packaged reports hold the kinds produced, and are zipped exactly when more than one |
| LegacyReport.ProcessSound | app.py:462-516 | every report that comes out is sound against the joined table, its shared lines and its day table |
| LegacyReport.JoinShifted | app.py:44-62 | with a month selected, every row of the joined table lies in the month or on the next month's 1st |
| LegacyReport.SortedRowKey | app.py:196-201 | every row of the sorted join carries a key of one of the two sides |
| LegacyReport.ProcessMonth | app.py:411-434 | for a month request, the day-wise report lists the month's days and accounts for the next month's 1st separately |
| Surcharge.Trunc | test_surcharge.py:21 | Python's `int()` on a real truncates toward zero |
| Surcharge.RoundHalfAway | test_surcharge.py:21 | the rounded value is within a half of the sum, halves going away from zero |
| Surcharge.RoundOdd | test_surcharge.py:21 | rounding is symmetric about zero |
| Surcharge.RoundHalf | test_surcharge.py:21 | k + 0.5 rounds to k + 1 and −k − 0.5 to −(k + 1) |
| Surcharge.RoundWhole | test_surcharge.py:21 | whole numbers are left alone |
| Surcharge.AtMostOnePeriod | test_surcharge.py:9-18 | the four periods are ascending and disjoint, so a date lies in at most one |
| Surcharge.InPeriodRows | test_surcharge.py:15-18 | a period's rows are those dated within it, both ends included, and there are some exactly when some row is |
| Surcharge.ComponentOf | test_surcharge.py:20-22 | a period's entry charges the rate on a whole number within a half of its rows' IEX excess |
| Surcharge.EntryFor | test_surcharge.py:19-24 | a period adds one entry exactly when some row falls in it and the IEX column exists |
| Surcharge.ComponentsSound | test_surcharge.py:15-24 | every breakdown entry is the entry of a period that is hit |
| Surcharge.ComponentsComplete | test_surcharge.py:15-24 | every period that is hit has its entry in the breakdown |
| Surcharge.ComponentsInOrder | test_surcharge.py:15-24 | the breakdown names exactly the periods that are hit, in table order |
| Surcharge.ComponentsAppend | test_surcharge.py:15-24 | one more period extends the breakdown by its own entry |
| Surcharge.SurchargeOf | test_surcharge.py:7-27 | without a date column nothing is charged; otherwise the breakdown is the periods' entries and the total is the sum of their amounts |
| Surcharge.Accumulate | test_surcharge.py:15-24 | the loop builds the breakdown over the periods and a total equal to the sum of its amounts |
| Surcharge.ComputeSurcharge | test_surcharge.py:4-27 | the method's total and breakdown are the surcharge outcome of the report |
| Surcharge.FourEntries | test_surcharge.py:9-24 | the breakdown over four periods is their four entries in turn |
| Surcharge.SampleBreakdown | test_surcharge.py:30-36 | the sample's breakdown is 1500 kWh at 0.70, 1000 at 0.83 and 1200 at 0.54 |
| Surcharge.SampleSurcharge | test_surcharge.py:30-36 | the sample's surcharge is 2528, with three entries and none for the 2025 period |
| Numerals.ParseInt | release_manager.py:45 | a bare run of digits reads as its decimal value |
| Numerals.ParseIntExactly | release_manager.py:45 | `int()` reads a value exactly when the stripped text is an optional sign and at least one digit, and that value is the digits' decimal value, negated after '-' |
| Numerals.ParseIntToString | release_manager.py:62 | `int(str(i)) == i` for every integer |
| Numerals.ZFill | release_manager.py:62 | zero-filling pads to the width and leaves wider text alone |
| Numerals.ZFillParses | release_manager.py:62 | zero-filling never changes the value read back |
| Text.Split | release_manager.py:45 | the pieces never hold the separator and join back to the text |
| Text.Strip | app_final.py:190 | stripping leaves no blank at either end and changes text without such blanks not at all |
| Text.Lower | release_manager.py:94 | lowering keeps the length and maps each character on its own |
| Versions.ParseAllSpec | release_manager.py:45 | `map(int, parts)` succeeds exactly when every part reads, and then holds each part's value |
| Versions.SplitFormat | release_manager.py:57 | a written version splits at its two dots into the three numerals |
| Versions.ParseFormat | release_manager.py:45-57 | a written version reads back as the same three numbers |
| Release.LoadVersionInfo | release_manager.py:23-32 | a stored file is returned as it is; without one the defaults are version 1.0.0, build 001 and today's date |
| Release.BumpIsNewer | release_manager.py:47-57 | every bump gives a version the updater ranks strictly newer |
| Release.BumpExamples | test_auto_update.py:184-193 | from 1.0.0, patch, minor and major give 1.0.1, 1.1.0 and 2.0.0 |
| Release.IncrementFails | release_manager.py:39-64 | a bump fails exactly when the version is missing or not three integers, or the build number does not read |
| Release.IncrementKeeps | release_manager.py:59-62 | a bump sets version, date and build number, and keeps every other field |
| Release.IncrementOk | release_manager.py:39-64 | a bump succeeds with the next version and build whenever both read |
| Release.IncrementRoundTrip | release_manager.py:45-62 | the written version reads back as the bumped triple, and the stored build is the next build |
| Release.NextBuildReads | release_manager.py:62 | the next build has at least three digits and reads as one more than the old |
| Release.FirstVersionParses | release_manager.py:28-32 | the default version reads as (1, 0, 0) |
| Release.FirstBuildParses | release_manager.py:28-32 | the default build reads as 1 |
| Release.SecondBuild | release_manager.py:62 | the build after 001 is 002 |
| Release.FirstRelease | release_manager.py:23-64 | without a version file the first patch release is 1.0.1 with build 002 |
| Release.AnyIn | release_manager.py:95-99 | a keyword test holds exactly when some keyword occurs in the text |
| Release.CategorizePriority | release_manager.py:93-102 | a message is a feature exactly when it names a feature keyword, a fix exactly when it names a fix keyword and no feature keyword, and Other only when it names none |
| Release.SectionsPartition | release_manager.py:93-102 | every message lands in exactly one section, as often as it occurs |
| Release.EntryStartsWithHeader | release_manager.py:85 | the entry opens with a newline and then the line "## [version] - date" |
| Release.EntryListsEveryChange | release_manager.py:81-128 | the entry opens with its header and lists every message on a line of its own, within its section's block |
| Release.EntryWithoutChanges | release_manager.py:104-126 | with no messages the entry is its header alone |
| Release.FirstMarker | release_manager.py:141-147 | the first title or release line, with none before it; none when no line is one |
| Release.HeaderEnd | release_manager.py:139-147 | the entry goes right after the first title line or right before the first release line, whichever comes first, and at the start without either |
| Release.SpliceKeepsContent | release_manager.py:149 | the old text is the part before the insertion point and the part after it, rejoined at the newline between them, so every line is kept in order |
| Release.NewChangelog | release_manager.py:151 | a new changelog starts with the title and the fixed preamble |
| Updater.TupleLessAsymmetric | auto_updater.py:124-129 | tuple order never holds both ways, raises the same way in both directions, and holds neither way only between equal tuples |
| Updater.NumericLess | auto_updater.py:117 | on integer tuples the order is lexicographic and never raises |
| Updater.CompareReflexive | auto_updater.py:121-129 | a version compares equal to itself |
| Updater.CompareAntisymmetric | auto_updater.py:121-129 | swapping the arguments negates the answer; it is 0 exactly for equal tuples |
| Updater.CompareReleases | auto_updater.py:111-129 | between two release strings the answer is the lexicographic order of their integers |
| Updater.UnparsableKey | auto_updater.py:116-119 | a non-dev string that does not read gets the tuple of "0.0.0" |
| Updater.UnparsableIsZero | auto_updater.py:116-119 | such a string compares like "0.0.0" against every version |
| Updater.CompareExamples | test_auto_update.py:80-82 | 1.0.0 < 1.0.1, 1.1.0 > 1.0.0 and 1.0.0 = 1.0.0 |
| Updater.DevOlderAsWritten | auto_updater.py:113-115 | as written, every release whose first number is positive ranks above every dev build |
| Updater.DevExample | test_auto_update.py:85 | as written, comparing 1.0.0 with dev-abc123 gives 1 |
| Updater.DevTypeError | auto_updater.py:113-129 | as written, a four-part release starting 0.0.0 cannot be compared with a dev build (the comparison raises) |
| Updater.Compare | auto_updater.py:111-115 | the intended comparison answers −1, 0 or 1 |
| Updater.CompareAgrees | auto_updater.py:111-129 | the intended and the written comparison agree except between a release and a dev build |
| Updater.DevNewest | auto_updater.py:113-115 | under the intended comparison every dev build is newer than every release |
| Updater.CompareOrder | auto_updater.py:121-129 | the intended comparison is reflexive, antisymmetric and transitive |
| Updater.LoadConfig | auto_updater.py:37-60 | a loaded JSON object keeps every key and value it holds, gains every missing default and nothing else; anything else gives the defaults |
| Updater.MergeIsOverlay | auto_updater.py:48-56 | the merge is the defaults overlaid with the loaded document |
| Updater.DefaultValues | auto_updater.py:39-46 | the defaults are the six listed settings and values |
| Updater.ShouldCheck | auto_updater.py:131-145 | a missing `auto_check` raises; the answer is no exactly when `auto_check` is off, or the last check and interval both read and at most the interval has passed |
| Updater.LoadedNeverRaises | auto_updater.py:131-133 | a loaded configuration never makes the decision raise |
| Updater.FirstRunChecks | test_auto_update.py:126 | on first run a check is due |
| Updater.AutoCheckOff | test_auto_update.py:129-130 | turning `auto_check` off stops every check |
| Updater.DueStaysDue | auto_updater.py:140-143 | once a check is due it stays due as time goes on |
| Updater.CheckForUpdates | auto_updater.py:147-172 | offline or without release information nothing happens; otherwise the check time is recorded and only the latest release can be offered |
| Updater.OfferedIsNewer | auto_updater.py:166 | a release is offered exactly when it is strictly newer than the running version |
| Updater.NoSelfOffer | auto_updater.py:166 | the running version itself is never offered |
| Updater.OfferAsWritten | auto_updater.py:166 | between two releases, or two dev builds, the offer is the one the written comparison makes |
| Updater.RecordedNotDue | auto_updater.py:161-163 | a check just recorded is not due again before the interval passes |
| Updater.StripV | auto_updater.py:86 | `lstrip('v')` removes every leading 'v' and nothing else |
| Updater.BackupNameMatches | auto_updater.py:216-230 | every archive the updater writes is one retention counts as a backup |
| Updater.StaleAreBackups | auto_updater.py:229-233 | retention deletes only backups the directory holds |
| Updater.RetentionCounts | auto_updater.py:229-233 | deleted and kept archives together are every backup; five are kept, or all of them when there are fewer |
| Updater.RetentionOrder | auto_updater.py:229-233 | every kept name sorts after every deleted one, so the five largest names survive |

## Left out

- Reading the sheets (`pd.read_excel`, column selection, `pd.to_datetime` on dates): the model starts from readings with parsed dates and slot time text. Rows whose date does not parse (NaT) are not modelled.
- Free-form time parsing: only the strict `%H:%M` form is modelled. The `dateutil` fallback in `slot_time_range` keeps the text unchanged instead.
- Month and year auto-detection and auto-correction (`value_counts().idxmax()`, `unique()[0]`): their tie-breaking is defined by pandas. The Streamlit model requires a year, as its button handler does without auto-detection.
- Flask and Streamlit plumbing, FPDF page layout, fonts, `:.2f`/`:.4f` formatting, and zip byte streams: a report is modelled as its rows, totals and lines, and a download as its file list.
- Floating point: all energies and money are exact reals, so rounding artefacts of Python floats are absent.
- Text.Lower: lowers ASCII letters only; Python's `str.lower` also lowers other scripts.
- Numerals.ParseInt: does not accept the `_` digit separators Python's `int()` allows, nor non-ASCII digits.
- FinalReport.ComputeBill: amounts other than x, y, wheeling and final are exact reals, so at a loss of 100 % only those four carry numpy's infinity and NaN; the runtime warning numpy raises, and the "inf"/"nan" text the PDF prints, are not modelled.
- LegacyReport.Process: its reports use the corrected slot label `LegacyReport.LineOf` and not `format_time` as written (app.py:303-312, 353), which drops a leading "00"; `LegacyReport.LineAsWrittenHourZero` models the written form.
- LegacyReport.CommonOf: its warning block is the corrected `LegacyReport.PdfWarnings`; as written (app.py:221-226, 361) the PDF shows no warnings, which `LegacyReport.WarningsDropped` models.
- Selections.SelectReadings: the year, month, date and loss fields arrive already read. Not modelled: the `ValueError` of `int(year)`, `int(month)` and `float(t_and_d_loss)` (app_final.py:64, 160-200); the "Invalid date format for filter" page for a date that does not parse (app_final.py:208-213); and the wording of the empty-result messages, which list the available years, months and dates (app_final.py:214-249). The model returns one fixed message per sheet instead.
- SlotClock.ParseClock: accepts exactly `H:MM`/`HH:MM`-style fields of one or two digits; pandas' other accepted spellings are not modelled.
- Release.LoadVersionInfo: a stored `version.json` is a map of strings; other JSON value types are not modelled.
- The network, `requests`, GitHub release download, update application, tkinter dialogs and threads of the updater: the connection test and the release information are parameters of `Updater.CheckForUpdates`, and the clock and ISO-time reader are parameters of `Updater.ShouldCheck`.
- Updater.CheckForUpdates: decides with the intended comparison `Updater.Compare` rather than the written one (see Findings). `Updater.OfferAsWritten` shows the two agree except between a release and a dev build.
- Updater.LoadConfig: a JSON document that is not an object yields the defaults; the source's behaviour there depends on the document's Python type.
- Backup zip writing and the case-insensitive glob on Windows: retention is modelled on the list of file names.
- Git access in the release manager (`get_git_changes`), release packaging and installer updates: subprocess and filesystem work.
- `app_modified.py`, `update_notifier.py`, `launcher.py`, `update_app.py` and the build and installer scripts are not part of this model.

## Findings

| source | as written | input that shows it | evidently intended | confidence | as-written member | corrected member |
|---|---|---|---|---|---|---|
| app.py:221-226 | the warning text for the PDF is read from module globals before the missing-day and missing-slot messages are computed, and those messages are local variables, so the PDF warning block is always empty | a consumed sheet with a slot the generated sheet lacks: the warning lines exist, the report shows none | the report shows the computed warnings | not executed | LegacyReport.WarningsDropped | LegacyReport.PdfWarnings |
| app.py:303-312 | `format_time` drops a leading "00" from any text of five or more characters, so a slot label in hour 00 loses its hour | "00:15 - 00:30" prints as ":15 - 00:30" | the label is printed as it is | not executed | LegacyReport.LineAsWrittenHourZero | LegacyReport.LineOf |
| auto_updater.py:113-115 | a dev build sorts as the tuple (0, 0, 0, v), below every release whose first number is positive, although the comment and the project's test say dev builds are newer | `compare_versions("1.0.0", "dev-abc123")` gives 1; test_auto_update.py:85 expects -1 | every dev build compares newer than every release | not executed | Updater.DevExample | Updater.DevNewest |
