# The `time` crate's calendar date, component parsers and format-description bookkeeping, in Dafny

This project models five parts of the Rust `time` crate and its companion `time-macros`:

- **The calendar date** (`time/src/date.rs`). A `Date` is one packed integer: `year << 10 | is_leap_year << 9 | ordinal`. The model covers:
  - every constructor (`from_calendar_date`, `from_ordinal_date`, `from_iso_week_date`, `from_julian_day`, the unchecked ones) and the accessors;
  - the Julian-day conversion both ways (the closed form and Peter Baum's inverse);
  - the weekday, ISO week, Sunday- and Monday-based week numbers;
  - next and previous day, the checked, saturating and panicking arithmetic, the weekday occurrences, `replace_*`, and the difference of two dates.
- **The component parsers** (`time/src/parsing/component.rs`). Each is a function from the input bytes and a modifier to an optional `ParsedItem` (the remaining input and the value). `parse_subsecond`'s loop is a method with loop invariants.
- **The owned format-item tree** (`time/src/format_description/owned_format_item.rs`): its conversions from the borrowed tree, the `TryFrom` impls and the mixed-type equalities.
- **The parser's position bookkeeping** (`time/src/format_description/parse/mod.rs`). It covers the byte locations that `attach_location` numbers, spans, errors at a location or span, and the format-description version guard.
- **The `offset!` macro's parser** (`time-macros/src/offset.rs`). A class `TokenStream` holds the remaining tokens. Its `Parse` method takes them step by step and is proved equal to a reference function `ParseOffset` on the token sequence. The properties of the parser are lemmas about that function.

Modules:

| file | module | models |
|---|---|---|
| `wrappers.dfy` | `Ints`, `Wrappers` | integer widths, Rust's truncating `%`; `Option`, `Result` |
| `calendar.dfy` | `Calendar`, `Durations` | leap years, month lengths, weekday numbering, `ComponentRange`; whole days of a `Duration` |
| `date.dfy` | `Dates` | `date.rs` |
| `combinator.dfy` | `Combinators` | the digit, sign and literal combinators the component parsers call |
| `component.dfy` | `ComponentParsing` | `component.rs` |
| `owned_format_item.dfy` | `OwnedFormatItems` | `owned_format_item.rs` |
| `parse_mod.dfy` | `FormatDescriptionParse` | `parse/mod.rs` |
| `offset.dfy` | `OffsetMacro` | `offset.rs` |

How machine integers are modelled:
- Integers are unbounded. Every Rust integer type is a subset type (`i32`, `u16`, ...), so each value the model computes is proved to fit its Rust type.
- The packed date's shifts and masks are multiplications, floor divisions and remainders by powers of two. On the disjoint bit fields these are equal to the shifts and masks.
- Rust's `%` on signed integers truncates toward zero. It is written out as `TruncRem`.

## Model

| member | source | states |
|---|---|---|
| Dates.FromParts | time/src/date.rs:78-98 | under the safety contract (year in range, ordinal in the year, flag = leap year), the packed date has that year, ordinal and leap flag |
| Dates.FromOrdinalDateUnchecked | time/src/date.rs:100-111 | a valid year and ordinal give the date with that year and ordinal |
| Dates.PackFields | time/src/date.rs:93-95 | the packed word's year, leap bit and ordinal fields read back what was packed |
| Dates.IsInLeapYear | time/src/date.rs:322-328 | the stored bit is `is_leap_year(year)` |
| Dates.Year | time/src/date.rs:330-340 | `value >> 10`, always within MIN_YEAR..=MAX_YEAR |
| Dates.Ordinal | time/src/date.rs:397-408 | `value & 0x1FF`, always within 1..=days_in_year(year) |
| Dates.ToOrdinalDate | time/src/date.rs:507-515 | the pair is a valid year and ordinal, and rebuilds the same date |
| Dates.DateFromFields | time/src/date.rs:50-57 | the packed word is determined by (year, leap, ordinal), and the date by (year, ordinal) |
| Dates.DatesEqualByFields | time/src/date.rs:50-57 | two dates with the same year and ordinal are equal |
| Dates.PackedValueInvariant | time/src/date.rs:50-57 | the word is non-zero and fits an i32; its fields are the year, the ordinal and the leap flag |
| Dates.PackedOrderIsLexicographic | time/src/date.rs:50-57 | the derived order on words is the lexicographic order on (year, ordinal); equality likewise |
| Dates.JulianDayBounds | time/src/date.rs:61-76 | MIN is Julian day -1930999, MAX is 5373484, the Unix epoch is 2440588 |
| Dates.DaysBeforeYearStep | time/src/date.rs:733-743 | the proleptic day count grows by each year's length |
| Dates.DaysBeforeYearShift | time/src/date.rs:738-740 | shifting the year by 10^6 (the algorithm's offset) shifts the count by a whole number of 400-year cycles |
| Dates.JulianDayOfDaysBeforeYear | time/src/date.rs:733-743 | the closed form is the proleptic Gregorian day count plus the ordinal plus 1721425 |
| Dates.DaysBeforeYearGrows | time/src/date.rs:733-743 | at least 365 days per year between two years |
| Dates.JulianDayOfMonotone | time/src/date.rs:733-743 | Julian days are ordered as (year, ordinal) |
| Dates.ToJulianDay | time/src/date.rs:723-743 | the result lies in the day range of MIN..MAX and is the closed form of the year and ordinal |
| Dates.PackedOrderIsChronological | time/src/date.rs:50-57 | comparing packed words compares Julian days |
| Dates.BaumIntermediatesFit | time/src/date.rs:294-302 | for every Julian day in range, `n` and `4n+3` fit a u32 and `2939745 * n_2` fits a u64 |
| Dates.CenturyStep | time/src/date.rs:297-299 | the first division of Baum's algorithm recovers the century and the day within it |
| Dates.YearOfCenturyStep | time/src/date.rs:301-304 | the multiply-and-shift by 2939745 / 2^32 recovers the year within the century and the day of the March-based year |
| Dates.MarchBasedDay | time/src/date.rs:294-313 | each valid date is a day of a March-based year of the shifted calendar, related back to its year and ordinal |
| Dates.BaumInvertsJulianDay | time/src/date.rs:286-320 | decoding the Julian day of a valid date gives back its year, leap flag and ordinal |
| Dates.JulianDaySurjective | time/src/date.rs:273-278 | every Julian day in range is the day number of some valid date |
| Dates.BaumDecodesEveryDay | time/src/date.rs:286-320 | for every Julian day in range, the decoded parts are a valid date with that day number |
| Dates.FromJulianDayUnchecked | time/src/date.rs:280-320 | inside the day range, the date built has that Julian day |
| Dates.FromJulianDay | time/src/date.rs:259-278 | Ok exactly inside the day range, with that Julian day; otherwise the "julian_day" range error with its bounds |
| Dates.JulianDayRoundTrip | time/src/date.rs:259-278 | `from_julian_day(d.to_julian_day()) == Ok(d)` |
| Dates.JulianDayInjective | time/src/date.rs:723-743 | distinct dates have distinct Julian days |
| Dates.DaysBeforeMonth | time/src/date.rs:477-505 | the cumulative table is at most 335 days |
| Dates.DaysBeforeMonthSumsLengths | time/src/date.rs:477-505 | each entry is the previous one plus that month's length; December's end is the year's length |
| Dates.MonthShift | time/src/date.rs:481-503 | month by month, the multiply-and-shift formula gives the month and day within it |
| Dates.MonthDayOfOrdinalCorrect | time/src/date.rs:477-505 | the formula maps the ordinal of each (month, day) back to (month, day) |
| Dates.OrdinalInMonth | time/src/date.rs:477-505 | every ordinal of a year falls on some day of some month |
| Dates.MonthDaysUnique | time/src/date.rs:477-505 | and on only one |
| Dates.MonthDayOfOrdinalInTable | time/src/date.rs:477-505 | the formula's month is 1..=12, its day exists in that month, and they add up to the ordinal |
| Dates.ToCalendarDate | time/src/date.rs:471-505 | the year, and a month and a day within its length whose table entry and day add up to the ordinal |
| Dates.Month | time/src/date.rs:342-370 | the month of `to_calendar_date` |
| Dates.Day | time/src/date.rs:372-395 | the day of `to_calendar_date`, within 1..=31 |
| Dates.FromCalendarDate | time/src/date.rs:113-159 | Ok exactly for a year in range and a day within the month's length, and the date reads back as (year, month, day); otherwise the year error first, then the "day" error with bounds [1, length] |
| Dates.CalendarDateRoundTrip | time/src/date.rs:113-159 | `from_calendar_date(to_calendar_date(d)) == Ok(d)` |
| Dates.FromOrdinalDate | time/src/date.rs:161-191 | Ok exactly for a year in range and 1 <= ordinal <= days_in_year (so 366 only in leap years, never 0); otherwise the year error first, then the "ordinal" error |
| Dates.OrdinalDateRoundTrip | time/src/date.rs:161-191 | `from_ordinal_date(year, ordinal) == Ok(d)` for every date |
| Dates.ReplaceOrdinal | time/src/date.rs:1160-1186 | Ok exactly for an ordinal of the same year, which the result has; otherwise the "ordinal" error |
| Dates.WeekdayOf | time/src/date.rs:539-570 | the weekday counted from Monday is the Julian day modulo 7 |
| Dates.WeekdayOfNewYear | time/src/date.rs:539-570 | the weekday follows from the year's New Year's weekday and the ordinal |
| Dates.NextInYear | time/src/date.rs:582-596 | inside a year, `value + 1` is the valid packed word of the next ordinal |
| Dates.PreviousInYear | time/src/date.rs:608-622 | inside a year, `value - 1` is the valid packed word of the previous ordinal |
| Dates.NewYearFollows | time/src/date.rs:582-596 | January 1st is the day after December 31st of the year before |
| Dates.IsMax | time/src/date.rs:582-596 | the last day of a year is MAX exactly in MAX_YEAR |
| Dates.IsMin | time/src/date.rs:608-622 | the first day of a year is MIN exactly in MIN_YEAR |
| Dates.NextDay | time/src/date.rs:572-596 | Some exactly when the date is not MAX, and then one Julian day later |
| Dates.PreviousDay | time/src/date.rs:598-622 | Some exactly when the date is not MIN, and then one Julian day earlier |
| Dates.NextPreviousDayInverse | time/src/date.rs:572-622 | next and previous day undo each other |
| Dates.NextDayWeekday | time/src/date.rs:539-596 | the next day's weekday is one later, modulo 7 |
| Dates.NewYearWeekdayStep | time/src/date.rs:226-237 | each New Year's weekday follows from the previous one and the year's length |
| Dates.NewYearWeekdayBounds | time/src/date.rs:226-237 | MIN_YEAR starts on a Monday, MAX_YEAR on a Friday, and MAX_YEAR is a common year |
| Dates.JanFourthOffsetClosedForm | time/src/date.rs:226-237 | the `jan_4` match on the truncating remainder equals the New Year's weekday, plus 7 when the year starts Monday to Thursday |
| Dates.IsoWeekToDay | time/src/date.rs:238-256 | from (week, weekday), the ordinal placed in the previous, same or next year has that weekday and week |
| Dates.IsoDayToWeek | time/src/date.rs:411-419 | from an ordinal, the ISO week formula names a week whose placement gives back the ordinal |
| Dates.IsoYearWeek | time/src/date.rs:411-419 | the ISO year (this one or a neighbour, in range) and a week within its number of weeks |
| Dates.IsoWeek | time/src/date.rs:421-435 | the ISO week, within 1..=53 |
| Dates.ToIsoWeekDate | time/src/date.rs:517-537 | the ISO year and week of `iso_year_week`, with the weekday |
| Dates.IsoOrdinalPlacement | time/src/date.rs:238-256 | the computed ordinal is at most 9 days before the year or 7 days into the next; MIN_YEAR never reaches back, MAX_YEAR reaches forward only for week 52, Saturday and Sunday |
| Dates.FromIsoWeekDateAsWritten | time/src/date.rs:193-257 | the code as written: year errors first, then the "week" error, otherwise a year and an ordinal that exists in it, with the year 10000 exactly for week 52 of 9999 on Saturday or Sunday |
| Dates.IsoWeekDateBeyondMax | time/src/date.rs:238-252 | week 52 of 9999, Saturday and Sunday, resolve to ordinals 1 and 2 of year 10000 |
| Dates.FromIsoWeekDate | time/src/date.rs:193-257 | corrected: Ok exactly for a year in range, a week in its range and not beyond MAX, with that ISO week date; the year error, the week error, or the year error for 10000 otherwise |
| Dates.IsoYearWeekOf | time/src/date.rs:411-419 | `iso_year_week` from the ordinal and the weekday: week 0 belongs to the previous year, week 53 of a 52-week year is week 1 of the next |
| Dates.FromIsoWeekDateAsWrittenOf | time/src/date.rs:238-256 | the branch into the previous, same or next year |
| Dates.AsWrittenInPreviousYear | time/src/date.rs:240-247 | an ordinal of 0 or less lands in the previous year, where `wrapping_add` does not wrap |
| Dates.AsWrittenFromYear | time/src/date.rs:248-256 | a positive ordinal past the year's length lands in the next year, otherwise in the same year |
| Dates.FromIsoWeekDateInverse | time/src/date.rs:193-257 | the placed date has the ISO week date it was built from |
| Dates.IsoWeekDateOfPlacedDay | time/src/date.rs:238-256 | the day placed in any of the three years has that ISO week date |
| Dates.PlacedInPreviousYear | time/src/date.rs:240-247 | the previous-year branch keeps the ISO year, week and weekday |
| Dates.PlacedInNextYear | time/src/date.rs:248-252 | the next-year branch keeps them |
| Dates.PlacedInYear | time/src/date.rs:253-255 | the same-year branch keeps them |
| Dates.IsoWeekDateRoundTrip | time/src/date.rs:193-257 | `from_iso_week_date(d.to_iso_week_date()) == Ok(d)` |
| Dates.IsoWeekIsThursdayWeek | time/src/date.rs:410-419 | the ISO 8601 meaning of the year and week `to_iso_week_date` returns: the ISO year is the year holding the Thursday of the date's week (the previous one exactly when that Thursday falls before New Year, the next one exactly when it falls after the year's last day), and the week number is that Thursday's week within its year, counted from the week of the first Thursday |
| Dates.DayInPreviousIsoYear | time/src/date.rs:411-419 | a date in the previous ISO year is rebuilt by the week-date arithmetic |
| Dates.DayInNextIsoYear | time/src/date.rs:411-419 | a date in the next ISO year is rebuilt too |
| Dates.DayInIsoYear | time/src/date.rs:411-419 | and a date in its own ISO year |
| Dates.WeekStartsClosedForm | time/src/date.rs:437-465 | the closed form counts the days 1..=ordinal falling on the week's first day |
| Dates.SundayBasedWeek | time/src/date.rs:437-450 | the number of Sundays up to the date, 0..=53 |
| Dates.MondayBasedWeek | time/src/date.rs:452-465 | the number of Mondays up to the date, 0..=53 |
| Dates.DaysAway | time/src/date.rs:776-788 | Some exactly when the Julian day plus the days stays in range, and then that day |
| Dates.CheckedAdd | time/src/date.rs:745-788 | Some exactly when the Julian day plus the duration's whole days is in range, and then that day |
| Dates.CheckedSub | time/src/date.rs:833-876 | the same with the whole days subtracted |
| Dates.CheckedAddStd | time/src/date.rs:790-831 | the same for an unsigned duration, only the upper bound to check |
| Dates.CheckedSubStd | time/src/date.rs:878-919 | the same subtracted, only the lower bound to check |
| Dates.CheckedAddSubInverse | time/src/date.rs:745-876 | subtracting a duration undoes adding it |
| Dates.CheckedAddSubStdInverse | time/src/date.rs:790-919 | likewise for the unsigned duration |
| Dates.JulianDaysOfMinMax | time/src/date.rs:65-76 | MIN and MAX are the ends of the Julian-day range |
| Dates.SaturatingAdd | time/src/date.rs:981-1019 | the Julian day plus the whole days, clamped to MIN and MAX |
| Dates.SaturatingSub | time/src/date.rs:1021-1059 | the Julian day minus the whole days, clamped |
| Dates.DateDifference | time/src/date.rs:1484-1489 | the duration is the difference of the Julian days, in whole days |
| Dates.DateDifferenceAdds | time/src/date.rs:1484-1489 | adding `d - other` to `other` gives `d`; it is negative exactly when `d` is earlier |
| Dates.Add | time/src/date.rs:1432-1441 | given `checked_add` has a result, the whole days are added |
| Dates.AddStd | time/src/date.rs:1444-1453 | likewise for the unsigned duration |
| Dates.Sub | time/src/date.rs:1458-1467 | given `checked_sub` has a result, the whole days are subtracted |
| Dates.SubStd | time/src/date.rs:1470-1479 | likewise for the unsigned duration |
| Dates.ForwardDaysReachWeekday | time/src/date.rs:923-938 | the match gives 1..=7 days to the first later day with the target weekday |
| Dates.BackwardDaysReachWeekday | time/src/date.rs:942-957 | and 1..=7 days back to the last earlier one |
| Dates.CheckedNextOccurrence | time/src/date.rs:923-938 | a result is the first day strictly after the date with that weekday, within 7 days; none means no such day up to MAX |
| Dates.CheckedPrevOccurrence | time/src/date.rs:942-957 | a result is the last day strictly before with that weekday, within 7 days; none means no such day from MIN |
| Dates.CheckedNthNextOccurrence | time/src/date.rs:959-968 | none for n = 0; a result has that weekday and lies in the n-th week after; for n >= 1, none means that week's day with the weekday lies past MAX |
| Dates.CheckedNthPrevOccurrence | time/src/date.rs:970-979 | none for n = 0; a result has that weekday and lies in the n-th week before; for n >= 1, none means that week's day with the weekday lies before MIN |
| Dates.SameWeekdayWeeksApart | time/src/date.rs:961-979 | dates whole weeks apart share the weekday |
| Dates.NthNextOccurrenceSteps | time/src/date.rs:961-968 | the first occurrence is the next one, and each further one is the next after the previous |
| Dates.NthPrevOccurrenceSteps | time/src/date.rs:972-979 | the first occurrence is the previous one, and each further one is the previous before the last |
| Dates.NextOccurrence | time/src/date.rs:624-647 | given an occurrence exists, it has the weekday and is 1..=7 days later |
| Dates.PrevOccurrence | time/src/date.rs:649-672 | given one exists, it has the weekday and is 1..=7 days earlier |
| Dates.NthNextOccurrence | time/src/date.rs:674-697 | given one exists, it has the weekday and lies in the n-th week after |
| Dates.NthPrevOccurrence | time/src/date.rs:699-722 | given one exists, it has the weekday and lies in the n-th week before |
| Dates.DaysBeforeMonthLeapShift | time/src/date.rs:1073-1106 | a leap year's table is the common one plus 1 from March on |
| Dates.ReplaceYear | time/src/date.rs:1061-1106 | Ok exactly for a year in range unless the date is February 29th and the year is common, keeping month and day; the year error, or the "day" error with bounds [1, 28] |
| Dates.OrdinalOfCalendarDate | time/src/date.rs:1073-1106 | a (year, month, day) that exists gives an ordinal date reading back as it |
| Dates.ReplaceMonth | time/src/date.rs:1108-1125 | Ok exactly when the day exists in the new month, keeping year and day; otherwise the "day" error |
| Dates.ReplaceDay | time/src/date.rs:1127-1158 | Ok exactly for a day within the month's length, keeping year and month; otherwise the "day" error |
| Dates.CalendarDateJulianDay | time/src/date.rs:113-159 | a calendar date that exists has the ordinal of its table entry and the closed-form Julian day |
| Dates.DocumentedJulianDayZero | time/src/date.rs:724-728 | -4713-11-24 is Julian day 0 |
| Dates.DocumentedJulianDayJ2000 | time/src/date.rs:724-729 | 2000-01-01 is Julian day 2451545 |
| Dates.DocumentedWeekday | time/src/date.rs:541-544 | 2019-01-01 is a Tuesday |
| Dates.DocumentedIsoWeekDate | time/src/date.rs:519-526 | 2021-01-01 is ISO week 53 of 2020, a Friday |
| Dates.NoLeapDayIn2019 | time/src/date.rs:118-123 | `from_calendar_date(2019, February, 29)` is an error: 2019 is not a leap year |
| Dates.NoWeek53In2019 | time/src/date.rs:202-205 | `from_iso_week_date(2019, 53, Monday)` is an error: 2019 has only 52 weeks |
| ComponentParsing.ApplySign | time/src/parsing/component.rs:34-38 | the magnitude is negated, and flagged, exactly for `-` |
| ComponentParsing.SignedField | time/src/parsing/component.rs:25-38 | a signed field exists exactly when its digits parse, and carries the sign |
| ComponentParsing.UnsignedField | time/src/parsing/component.rs:42-44 | an unsigned field exists exactly when its digits parse, and is not negative |
| ComponentParsing.ParseYear | time/src/parsing/component.rs:17-77 | consumes a non-empty prefix; the flag is set exactly when the input starts with `-`, and then the year is not positive; Full years within ±9999, the others within ±99; LastTwo is never negative; a mandatory sign must be present |
| ComponentParsing.ParseFullYearRoundTrip | time/src/parsing/component.rs:21-46 | a Full year written with four zero-padded digits (and a sign when negative or mandatory) parses back to it, whatever follows |
| ComponentParsing.FullYearAnySign | time/src/parsing/component.rs:21-46 | a Full year of four digits after either sign parses back, negated exactly for `-`, whether or not the sign is mandatory |
| ComponentParsing.NegativeZeroYear | time/src/parsing/component.rs:34-38 | `-0000` is year 0 with the negative flag, `0000` is year 0 without it |
| ComponentParsing.FullYearSpacePadded | time/src/parsing/component.rs:21-46 | with space padding, a Full year of fewer digits after that many spaces short of four parses back |
| ComponentParsing.CenturyAnySign | time/src/parsing/component.rs:47-70 | a Century of two digits after either sign parses back, negated exactly for `-` |
| ComponentParsing.CenturyUnsigned | time/src/parsing/component.rs:47-70 | an unsigned Century of one or two digits, zero or no padding, parses back when no digit follows |
| ComponentParsing.ParseLastTwoRoundTrip | time/src/parsing/component.rs:72-75 | two digits parse back as a LastTwo year |
| ComponentParsing.ParseYearMandatorySign | time/src/parsing/component.rs:39-40 | with no sign and a mandatory sign, Full and Century give none |
| ComponentParsing.MonthTable | time/src/parsing/component.rs:91-118 | twelve entries, in month order, each spelled with the month's name |
| ComponentParsing.ParseMonth | time/src/parsing/component.rs:80-123 | Numerical: two padded digits naming 1..=12; by name: the input starts with the month's name, which is consumed |
| ComponentParsing.MonthOfNumber | time/src/parsing/component.rs:88-89 | `Month::from_number` on the parsed number: some exactly for 1..=12 |
| ComponentParsing.MonthKeysDistinct | time/src/parsing/component.rs:91-118 | no two months share their first three letters, so at most one entry matches |
| ComponentParsing.ParseMonthName | time/src/parsing/component.rs:80-123 | an input that starts with a month's name parses to that month with the name consumed; without case sensitivity the name may be in any case |
| ComponentParsing.UpperCaseMonthName | time/src/parsing/component.rs:118-120 | `JANUARY` is January when matched without case sensitivity |
| ComponentParsing.ParseMonthNumber | time/src/parsing/component.rs:87-90 | a month's two-digit number parses back to it |
| ComponentParsing.WeekdayNumber | time/src/parsing/component.rs:158-193 | the numeric conventions lie in 0..=6, or 1..=7 when one-indexed |
| ComponentParsing.WeekdaySpelling | time/src/parsing/component.rs:134-197 | a name in the long or short form, or the digit of the numeric convention |
| ComponentParsing.WeekdayTable | time/src/parsing/component.rs:134-197 | seven entries, Monday first, each spelled in the representation |
| ComponentParsing.ParseWeekday | time/src/parsing/component.rs:134-197 | a result's spelling starts the input and is consumed |
| ComponentParsing.ParseWeekdayNumbering | time/src/parsing/component.rs:158-193 | numeric representations accept exactly one digit in range (0..=6, or 1..=7 when one-indexed), give the weekday with that number, and consume one byte |
| ComponentParsing.WeekdayIndexOfDigit | time/src/parsing/component.rs:158-193 | every digit in range is the number of some table entry |
| ComponentParsing.ParseWeekdayDigit | time/src/parsing/component.rs:158-193 | a weekday's digit parses back to it: Monday-based "0" is Monday, Sunday-based "0" is Sunday, one-indexed shifts by one |
| ComponentParsing.WeekdayNumberInjective | time/src/parsing/component.rs:158-193 | no two weekdays share a number |
| ComponentParsing.WeekdayKeysDistinct | time/src/parsing/component.rs:136-157 | no two weekdays share their first three letters |
| ComponentParsing.ParseWeekdayName | time/src/parsing/component.rs:134-197 | an input that starts with a weekday's name parses to that weekday with the name consumed; without case sensitivity the name may be in any case |
| ComponentParsing.LowerCaseWeekdayName | time/src/parsing/component.rs:194-195 | `monday` is Monday when matched without case sensitivity |
| ComponentParsing.ParseWeekNumber | time/src/parsing/component.rs:126-131 | two padded digits; below 100 |
| ComponentParsing.ParseOrdinal | time/src/parsing/component.rs:200-205 | three padded digits that are not zero |
| ComponentParsing.ParseDay | time/src/parsing/component.rs:208-213 | two padded digits that are not zero |
| ComponentParsing.NonZero | time/src/parsing/component.rs:200-213 | the `NonZero` result: exactly the non-zero values |
| ComponentParsing.ParseHour | time/src/parsing/component.rs:225-227 | two padded digits; below 100 |
| ComponentParsing.ParseMinute | time/src/parsing/component.rs:230-235 | two padded digits; below 100 |
| ComponentParsing.ParseSecond | time/src/parsing/component.rs:238-243 | two padded digits; below 100 |
| ComponentParsing.NumericFieldsRoundTrip | time/src/parsing/component.rs:126-243 | two zero-padded digits parse back for hour, minute, second, week number, and day unless 0 |
| ComponentParsing.OrdinalRoundTrip | time/src/parsing/component.rs:200-205 | three zero-padded digits parse back unless 0 |
| ComponentParsing.PaddedSingleDigit | time/src/parsing/component.rs:225-227 | space padding accepts " d", no padding accepts "d", zero padding needs both digits |
| ComponentParsing.ParsePeriod | time/src/parsing/component.rs:246-264 | a result's name, in the modifier's case, starts the input and two bytes are consumed |
| ComponentParsing.ParsePeriodName | time/src/parsing/component.rs:246-264 | "AM"/"PM" (or lower case) parse back; case-insensitively either case does |
| ComponentParsing.DigitWeight | time/src/parsing/component.rs:282-291 | digit i is worth 10^(8-i), digits past the ninth nothing |
| ComponentParsing.SubsecondValueOfShortRun | time/src/parsing/component.rs:282-294 | up to nine digits are the number scaled by 10^(9-n) |
| ComponentParsing.SubsecondValueOfLongRun | time/src/parsing/component.rs:287-291 | digits beyond the ninth add nothing |
| ComponentParsing.SubsecondValueBound | time/src/parsing/component.rs:282-294 | the value of any run is below 10^9 |
| ComponentParsing.FixedWidthSubsecond | time/src/parsing/component.rs:273-281 | exactly n digits, consumed, giving digits * 10^(9-n) < 10^9 |
| ComponentParsing.ParseSubsecond | time/src/parsing/component.rs:267-296 | fixed width n: exactly n digits, consumed, worth digits * 10^(9-n); OneOrMore: at least one digit, the whole leading run consumed, digit i worth d * 10^(8-i); the value is below 10^9 |
| ComponentParsing.SubsecondStep | time/src/parsing/component.rs:287-291 | one loop step adds the digit times the multiplier, and the multiplier is divided by 10 |
| ComponentParsing.RunContinues | time/src/parsing/component.rs:287 | the loop goes on exactly while a digit follows |
| ComponentParsing.ParseOffsetHour | time/src/parsing/component.rs:301-312 | `-` gives (-h, true); `+` gives (h, false); no sign gives none when the sign is mandatory and (h, false) otherwise; within ±99 |
| ComponentParsing.NegativeZeroOffsetHour | time/src/parsing/component.rs:298-312 | "-00" is (0, true) and "+00" is (0, false): the flag keeps the sign of zero |
| ComponentParsing.UnsignedOffsetHour | time/src/parsing/component.rs:307-311 | unsigned digits are refused exactly when the sign is mandatory |
| ComponentParsing.ParseOffsetMinute | time/src/parsing/component.rs:315-323 | two padded digits; below 100 |
| ComponentParsing.ParseOffsetSecond | time/src/parsing/component.rs:326-334 | two padded digits; below 100 |
| ComponentParsing.ParseIgnore | time/src/parsing/component.rs:337-344 | some exactly when `count` bytes remain, and then exactly `count` bytes are dropped |
| ComponentParsing.ParseIgnorePrefix | time/src/parsing/component.rs:337-344 | ignoring |s| bytes of `s + rest` leaves `rest` |
| ComponentParsing.ParseEnd | time/src/parsing/component.rs:370-380 | succeeds, with the input unchanged, exactly on empty input |
| ComponentParsing.ToNanoseconds | time/src/parsing/component.rs:352-361 | seconds are scaled by 10^9, milliseconds by 10^6, microseconds by 10^3 and nanoseconds by 1; so the most digits of each precision scale to below 10^23 |
| ComponentParsing.ParseUnixTimestamp | time/src/parsing/component.rs:347-368 | an optional sign, then 1 to 14/17/20/23 digits scaled to nanoseconds and negated for `-`; none without a sign when it is mandatory; below 10^23 in magnitude |
| ComponentParsing.ScaledTimestamp | time/src/parsing/component.rs:352-361 | the widest digit count of each precision stays below 10^23 nanoseconds |
| ComponentParsing.ParseUnixTimestampDigits | time/src/parsing/component.rs:347-368 | an unsigned run of digits parses back to its value in nanoseconds |
| ComponentParsing.ParseUnixTimestampNegates | time/src/parsing/component.rs:363-367 | a leading `-` parses exactly when the unsigned text does, to the negated value |
| OwnedFormatItems.FromBorrowedItems | time/src/format_description/owned_format_item.rs:54-80 | the children are converted one by one, in order |
| OwnedFormatItems.FromBorrowed | time/src/format_description/owned_format_item.rs:48-80 | every node keeps its variant, literal bytes, component, and the number and order of its children, each child converted |
| OwnedFormatItems.BorrowItems | time/src/format_description/owned_format_item.rs:14-34 | the borrowed view of the children, one by one |
| OwnedFormatItems.BorrowFromBorrowed | time/src/format_description/owned_format_item.rs:54-80 | the conversion loses nothing: borrowing the owned tree gives back the original |
| OwnedFormatItems.BorrowFromBorrowedItems | time/src/format_description/owned_format_item.rs:62-77 | likewise for a sequence of children |
| OwnedFormatItems.FromBorrowedBorrow | time/src/format_description/owned_format_item.rs:54-80 | every owned tree is the conversion of its borrowed view |
| OwnedFormatItems.FromBorrowedBorrowItems | time/src/format_description/owned_format_item.rs:62-77 | likewise for a sequence of children |
| OwnedFormatItems.FromBorrowedInjective | time/src/format_description/owned_format_item.rs:54-80 | distinct borrowed trees convert to distinct owned trees |
| OwnedFormatItems.FromBorrowedSlice | time/src/format_description/owned_format_item.rs:82-100 | a slice or vector becomes a Compound of its converted items, in order |
| OwnedFormatItems.FromBorrowedSliceIsCompound | time/src/format_description/owned_format_item.rs:88-100 | which is what a borrowed Compound of them converts to |
| OwnedFormatItems.FromComponent | time/src/format_description/owned_format_item.rs:102-106 | a Component item holding the component |
| OwnedFormatItems.ComponentTryFrom | time/src/format_description/owned_format_item.rs:108-117 | Ok exactly for a Component item, and then its component, which rebuilds the item |
| OwnedFormatItems.ComponentRoundTrip | time/src/format_description/owned_format_item.rs:102-117 | a component survives the trip through an item |
| OwnedFormatItems.FromItems | time/src/format_description/owned_format_item.rs:119-123 | a Compound holding the items |
| OwnedFormatItems.ItemsTryFrom | time/src/format_description/owned_format_item.rs:125-134 | Ok exactly for a Compound, and then its items, which rebuild it |
| OwnedFormatItems.ItemsRoundTrip | time/src/format_description/owned_format_item.rs:119-134 | a vector survives the trip through a Compound |
| OwnedFormatItems.ItemEqualsComponent | time/src/format_description/owned_format_item.rs:136-140 | equal exactly when the item is that component's item |
| OwnedFormatItems.ComponentEqualsItem | time/src/format_description/owned_format_item.rs:142-146 | the same comparison from the other side |
| OwnedFormatItems.ItemEqualsSlice | time/src/format_description/owned_format_item.rs:148-152 | equal exactly when the item is the Compound of those items |
| OwnedFormatItems.SliceEqualsItem | time/src/format_description/owned_format_item.rs:154-158 | equal exactly when the item is a Compound with the same items in order |
| FormatDescriptionParse.ValidVersion | time/src/format_description/parse/mod.rs:16-23 | only versions 1 and 2 are accepted |
| FormatDescriptionParse.Location.To | time/src/format_description/parse/mod.rs:102-106 | the span from this location to the end location |
| FormatDescriptionParse.Location.ToSelf | time/src/format_description/parse/mod.rs:108-114 | the zero-width span at this location |
| FormatDescriptionParse.Location.Offset | time/src/format_description/parse/mod.rs:116-124 | the byte moved on by exactly `offset` (the location itself is a value and stays) |
| FormatDescriptionParse.Location.Error | time/src/format_description/parse/mod.rs:126-135 | an error with the message at the zero-width span of the location |
| FormatDescriptionParse.Span.ShrinkToStart | time/src/format_description/parse/mod.rs:146-153 | the zero-width span at the start |
| FormatDescriptionParse.Span.ShrinkToEnd | time/src/format_description/parse/mod.rs:155-162 | the zero-width span at the end |
| FormatDescriptionParse.Span.ShrinkToBefore | time/src/format_description/parse/mod.rs:164-173 | keeps the start and ends one byte before `start + pos` |
| FormatDescriptionParse.Span.ShrinkToAfter | time/src/format_description/parse/mod.rs:175-184 | starts one byte after `start + pos` and keeps the end |
| FormatDescriptionParse.Span.Error | time/src/format_description/parse/mod.rs:186-192 | an error with the message over the span |
| FormatDescriptionParse.MakeSpanned | time/src/format_description/parse/mod.rs:195-222 | the value with the span attached |
| FormatDescriptionParse.LocatedFrom | time/src/format_description/parse/mod.rs:83-93 | the reference: the i-th byte paired with location `start + i`, same length |
| FormatDescriptionParse.AttachLocation | time/src/format_description/parse/mod.rs:83-93 | the i-th byte is paired with `Location { byte: i }`, keeping the bytes and their order |
| FormatDescriptionParse.LocatedConcat | time/src/format_description/parse/mod.rs:83-93 | the second part of a concatenation is located where the first one ends |
| FormatDescriptionParse.LocationOffsets | time/src/format_description/parse/mod.rs:116-124 | offset 0 stays put; two offsets add up |
| FormatDescriptionParse.ShrinkSpan | time/src/format_description/parse/mod.rs:102-162 | shrinking `a.to(b)` gives `a.to_self()` or `b.to_self()`; a location's error is its zero-width span's error |
| FormatDescriptionParse.ShrinkAroundPosition | time/src/format_description/parse/mod.rs:164-184 | shrinking to before position 1 is shrinking to the start; after `pos` starts at `start.offset(pos + 1)`, two bytes past the end of "before `pos`" |
| OffsetMacro.TokenStream.Parse | time-macros/src/offset.rs:16-83 | reads the offset step by step and leaves the stream exactly as the reference parser `ParseOffset` does |
| OffsetMacro.ParseUtc | time-macros/src/offset.rs:17-23 | a leading `utc` or `UTC` gives (0, 0, 0) and nothing more is read |
| OffsetMacro.SignRequired | time-macros/src/offset.rs:25-37 | otherwise a sign is needed: another token is consumed and reported, end of input is the missing "sign" |
| OffsetMacro.ParseHoursOnly | time-macros/src/offset.rs:39-41 | `±h` not followed by `:` gives minutes and seconds 0 and reads nothing more |
| OffsetMacro.ParseHoursMinutes | time-macros/src/offset.rs:39-54 | `±h:m` not followed by `:` gives seconds 0 |
| OffsetMacro.ParseFullForm | time-macros/src/offset.rs:39-82 | `±h:m:s` in range gives the three fields times the sign, whatever follows |
| OffsetMacro.ValidationOrder | time-macros/src/offset.rs:55-82 | hours above 25 are reported first, then minutes of 60 or more, then seconds of 60 or more; otherwise all three are multiplied by the sign |
| OffsetMacro.HourErrors | time-macros/src/offset.rs:39 | after the sign, a missing hour, a non-number or a number too large for an `i8` is the hour's error |
| OffsetMacro.MinuteErrors | time-macros/src/offset.rs:43-44 | a `:` after the hours with no usable minutes after it is the minute's error |
| OffsetMacro.SecondErrors | time-macros/src/offset.rs:48-49 | a second `:` with no usable seconds after it is the second's error |
| OffsetMacro.Validate | time-macros/src/offset.rs:55-82 | Ok exactly when hours are at most 25 and minutes and seconds below 60, every field then multiplied by the sign and in range; otherwise an `InvalidComponent` |
| OffsetMacro.ParseOffset | time-macros/src/offset.rs:16-83 | every parsed offset has hours within ±25, minutes and seconds within ±59, and the three never differ in sign; no more tokens are left than were given |
| OffsetMacro.ParseLeavesSuffix | time-macros/src/offset.rs:16-83 | the parser only takes tokens off the front |

## Left out

- `time/src/parsing/combinator.rs` is not part of this model. `Combinators` defines the combinators the component parsers call from their documented behaviour:
  - `sign`, `opt`, `any_digit`, `first_match` (case-insensitive by ASCII lower case);
  - `n_to_m_digits`: greedy, the leading digits up to `m`, and none with fewer than `n`;
  - the padded variants: space padding skips up to `n - 1` spaces that stand for the missing digits; no padding reads 1 to `m` digits.
- The combinators' integer overflow is not modelled. Every width used fits its result type: 23 digits fit a u128, 3 digits a u16, 2 digits a u8.
- `Component` is left opaque in `OwnedFormatItems`. Only its equality is used, so its modifiers (`time/src/format_description/component.rs`, not part of this model) are not spelled out.
- The component parsers' modifiers:
  - the padding, representation, case and sign flags that the parsers read are modelled;
  - the `large-dates` feature's `YearRange::Extended` branches (`component.rs:26-29`, `51-54`) and the date constants for ±999999 are left out, and the default configuration (±9999) is fixed;
  - the `hour` parser's `is_12_hour_clock` modifier has no effect in `parse_hour` and is not carried.
- The `util` helpers (`is_leap_year`, `days_in_year`, `weeks_in_year`), `Month` and `Weekday` are not part of this model. `Calendar` defines them:
  - `weeks_in_year` is 53 exactly when the year starts on a Thursday, or on a Wednesday in a leap year;
  - `ensure_ranged!` gives the `ComponentRange` of "year" (or "julian_day") with the bounds and the value.
- `Duration` and `std::time::Duration` internals: a duration is its whole-day count and a sub-day part of the same sign. `checked_add` and the others read only the whole days.
- `NonZero<u8>`/`NonZero<u16>` results of `parse_day` and `parse_ordinal` are modelled as the parsed value, with zero refused.
- The `Add`, `Sub`, `*_occurrence` operators that panic are modelled with the requirement that the checked variant has a result. The `+=` and `-=` macro impls (`date.rs:1456`, `1482`) are not modelled.
- Display, `Debug`, `format_into`, `format` and `Date::parse` (`date.rs:1295-1430`) are formatter and parser plumbing and are left out. So is `OwnedFormatItem`'s `Debug` (lossy UTF-8).
- `with_hms*`, `midnight` and `with_time` (`date.rs:1189-1293`) wrap the `Time` and `PrimitiveDateTime` types, which are not part of this model.
- The `parse_borrowed`, `parse_owned` and `parse` pipeline (`parse/mod.rs:38-80`) calls the lexer, AST, format-item and strftime modules, which are not part of this model. The `Error` and `Unused` plumbing and `Spanned`'s `Deref` are left out.
- `time-macros/src/helpers.rs` is not part of this model. `consume_any_ident` and `consume_punct` are modelled as taking a matching token off the front and leaving any other token in place. `consume_number` takes the front token, which must be an integer literal that fits an `i8`; another token is `UnexpectedToken`, an oversized literal is `InvalidComponent`, and end of input is `UnexpectedEndOfInput`.
- Proc-macro spans, literal suffixes and underscores in literals are left out: a number token is its value. `Offset::append_to` is code generation and is left out.
- `FormatDescriptionParse.Location.Offset`, `Span.ShrinkToBefore`, `Span.ShrinkToAfter` and `AttachLocation` require their `u32` arithmetic not to overflow or underflow. Rust panics there in debug builds and wraps in release builds; the wrapped results are not modelled.
- ParseYear: the round-trip lemmas cover zero padding with either sign, space padding for an unsigned Full year, and an unsigned Century with zero or no padding. Other combinations of padding and sign rely on `ParseYear`'s own contract alone.
- The Julian-day, Baum and ISO-week arithmetic is proved only on its domain (the date range). The fixed-width intermediate values there are proved to fit their Rust types.

## Findings

| source | as written | input that shows it | evidently intended | confidence | as-written member | corrected member |
|---|---|---|---|---|---|---|
| time/src/date.rs:238-252 | `from_iso_week_date` checks the year and the week, then hands `year + 1` to the unchecked constructor whenever the ordinal passes the year's end | `from_iso_week_date(9999, 52, Saturday)` and `(9999, 52, Sunday)`: ordinals 366 and 367 of 9999 become 10000-01-01 and 10000-01-02, beyond `Date::MAX`, and break the type's year-range invariant | a `ComponentRange` error for the year 10000, as for any other date past MAX | not executed | Dates.FromIsoWeekDateAsWritten, Dates.IsoWeekDateBeyondMax | Dates.FromIsoWeekDate |
