# Age widget: a verified model of the age calculation and the daily refresh

The Age widget is a small desktop program (Age/age.py). It shows two ages: the time since a date of birth, and the time since a college start date. Each age is given as whole years, whole months and remaining days. The widget polls the clock. When the day changes it recomputes both ages, then records the day in a one-key state dictionary that it saves to a file.

This project models the program's core in Dafny 4.11 and proves properties of that model. It has three modules:

- `Dates` (dates.dfy) covers the parts of `datetime.date` the program relies on:
  - years 1 to 9999, leap years, and the lengths of months;
  - the lexicographic order on dates;
  - `replace`, which fails when the requested day does not exist;
  - the day ordinal behind `(a - b).days`;
  - the `YYYY-MM-DD` form of `isoformat`, with its inverse parse.
- `Age` (age.dfy) models `get_age_parts` twice:
  - `AgeParts` is the calculation as written. It advances months by a case split on whether they run into the next year; `NextCandidate` and `MonthStartFormula` prove that split equal to the source's `%` and `//` formulas, formula by formula.
  - `GetAgeParts` is the same calculation in the source's imperative form: a method whose `while` loop counts months. It is proved equal to `AgeParts`.
  - The lemmas state what the result means and exactly when the function raises `ValueError`.
  - `CorrectedAgeParts` is the evident intent of line 58 (see Findings).
- `Refresh` (refresh.dfy) covers the rest of the program logic:
  - the `load_state` fallback;
  - the due check made when the poll fires;
  - the update that records today's date.

  The class `Tracker` owns the module-level `state` dictionary and the state file behind it.

Care points in the model:

- An exception from `get_age_parts` comes back as the value `AgeResult.ValueError`.
- The calendar day is passed in as a parameter.
- The state file is an abstract value: missing, unreadable, or holding a dictionary.

## Model

| member | source | states |
|---|---|---|
| `Dates.Valid` | Age/age.py:42-58 | the dates `datetime.date` accepts: years 1 to 9999, months 1 to 12, a day within the month's length. No contract of its own; `DaysInMonth` and `OrdinalNextDay` give it meaning |
| `Dates.Replace` | Age/age.py:42-58 | `replace` at lines 42, 45, 51 and 58: the same day in the requested year and month, `None` (the `ValueError`) when that date does not exist. No contract of its own; `ShiftMonths`, `NextCandidate`, `MonthStartFormula` and `OnlyLeapDayDiffers` state what it yields |
| `Dates.Before` | Age/age.py:39-52 | the `<` and `>` comparisons at lines 39 and 43: year, then month, then day. No contract of its own; `OrdinalOrder` proves it agrees with the day ordinal |
| `Dates.NotAfter` | Age/age.py:52 | the `<=` comparison at line 52. No contract of its own; `OrdinalOrder` gives its meaning |
| `Dates.DaysInMonth` | Age/age.py:42 | a month has 28 to 31 days, and 29 exactly for February of a leap year |
| `Dates.Ordinal` | Age/age.py:59 | the day ordinal of a valid date is at least 1 (0001-01-01 is day 1) |
| `Dates.OrdinalOrder` | Age/age.py:59 | the ordinal orders valid dates exactly as date comparison does, and two dates have the same ordinal exactly when they are equal |
| `Dates.OrdinalNextDay` | Age/age.py:59 | the calendar's next day has the ordinal one higher, so `(a - b).days` counts days |
| `Dates.OrdinalYearLater` | Age/age.py:59 | the same month and day one year later lies 366 days on when the year ahead holds a February 29, else 365 |
| `Dates.DaysBetween` | Age/age.py:59 | `(to_date - month_start).days`, the difference of day ordinals. No contract of its own; `OrdinalNextDay`, `OrdinalOrder` and `OrdinalYearLater` state that it counts calendar days |
| `Dates.IsoFormat` | Age/age.py:150-151 | `isoformat` is ten characters, digits with `-` at positions 4 and 7 |
| `Dates.ParseIsoFormat` | Age/age.py:151 | parsing the ISO string of a valid date gives the date back |
| `Dates.IsoFormatInjective` | Age/age.py:155-156 | two valid dates have the same ISO string exactly when they are the same date |
| `Age.AgeParts` | Age/age.py:38-60 | `get_age_parts` as written. No contract of its own; `AgePartsBounds`, `AgePartsMeaning`, `AgePartsErrors` and `AgePartsMonotone` state what it returns, and `GetAgeParts` is the loop form proved equal to it |
| `Age.PartsFrom` | Age/age.py:46-59 | lines 46-59 once the anniversary is known. No contract of its own; `PartsFromMonotone`, `PartsFromWithinYear` and `PartsFromWrapped` state what it returns |
| `Age.YearsAndAnniversary` | Age/age.py:41-45 | fails exactly for a February 29 `from` whose anniversary does not exist; otherwise years is the full-year count, at least 0, and the anniversary is a valid date no later than `to` with the next one after `to` |
| `Age.FindAnniversary` | Age/age.py:41-45 | the in-place decrement of `years` and the rebuilt anniversary agree with `YearsAndAnniversary` |
| `Age.ShiftMonths` | Age/age.py:49-51 | advancing `k` months, when the date exists, gives a valid date on the anniversary's day of the month |
| `Age.NextCandidate` | Age/age.py:49-51 | the source's `%` and `//` formulas for the next candidate give the anniversary advanced one month past the count, in the next year once the months wrap, and fail exactly where that date does not exist |
| `Age.Fits` | Age/age.py:49-52 | the loop's test that the next candidate exists and is no later than `to`. No contract of its own; `FitsGrow`, `ShiftOrder` and `TwelveMonthsNeverFit` state its meaning |
| `Age.ShiftOrder` | Age/age.py:49-52 | advancing more months gives a strictly later date |
| `Age.TwelveMonthsNeverFit` | Age/age.py:47-57 | twelve months on is the next anniversary, which lies after `to`, so the loop cannot count 12 |
| `Age.MonthsFrom` | Age/age.py:46-57 | the loop's count is at most 11; every month up to it fits (exists and is no later than `to`); the next month does not |
| `Age.CountMonths` | Age/age.py:46-57 | the `while True` loop with its guarded `replace` terminates with the count `MonthsFrom` gives, at most 11, and maximal |
| `Age.MonthsFromUnique` | Age/age.py:47-57 | a count that fits for every month up to it while the next month does not is the count the loop stops at |
| `Age.GetAgeParts` | Age/age.py:38-60 | the method equals the as-written `AgeParts`; on success years >= 0, 0 <= months <= 11 and days >= 0 |
| `Age.MonthStart` | Age/age.py:58 | line 58's `month_start`, kept in the anniversary's year. No contract of its own; `MonthStartFormula`, `MonthStartNotAfter` and `MonthStartFails` state its meaning |
| `Age.MonthStartFormula` | Age/age.py:58 | line 58's `%` formula replaces the month the counted months reach, while keeping the anniversary's year |
| `Age.MonthStartNotAfter` | Age/age.py:58 | line 58's date, when it exists, is never later than `to` |
| `Age.AgePartsBounds` | Age/age.py:38-60 | every result that does not raise has years >= 0, 0 <= months <= 11 and days >= 0 |
| `Age.AgePartsZero` | Age/age.py:39-40 | a `to` before `from`, or equal to it, gives (0, 0, 0) |
| `Age.FitsGrow` | Age/age.py:52 | a month that fits before one `to` fits before every later `to` |
| `Age.MonthsGrow` | Age/age.py:46-57 | from the same anniversary, a later `to` never makes the loop count fewer months |
| `Age.SameCountDaysGrow` | Age/age.py:58-59 | with the same anniversary and month count, line 58 builds the same date, so a later `to` has at least as many days |
| `Age.PartsFromMonotone` | Age/age.py:46-59 | from the same anniversary, a later `to` never gives a lexicographically smaller (months, days) |
| `Age.AgePartsMonotone` | Age/age.py:38-60 | for a fixed `from`, a later `to` never gives a lexicographically smaller (years, months, days), whenever neither call raises |
| `Age.AgePartsMeaning` | Age/age.py:41-57 | years is the full years; `from` advanced that many years is an anniversary no later than `to` with the next one after `to`; the months all fit and the next month does not |
| `Age.AgePartsWholeYears` | Age/age.py:41-59 | exactly `n` years after `from` gives (n, 0, 0) |
| `Age.AgePartsWholeYearsExample` | Age/age.py:9 | 1994-07-12 to 2024-07-12 gives (30, 0, 0) |
| `Age.WholeMonthsCounted` | Age/age.py:41-57 | when `to` is `n` years and `m` months after `from` and every month in between has `from`'s day, the anniversary is `n` years on and the loop counts `m`; a February 29 `from` is covered while the months stay in its leap year, since line 42 raises beyond it |
| `Age.ShortDayMonthsExist` | Age/age.py:49-51 | a day of the month up to the 28th exists in every month the loop advances to, up to an existing `to` |
| `Age.AgePartsWholeMonths` | Age/age.py:58-59 | as written, for a `from` on the 28th or earlier, the same `to` gives (n, m, 0) while the months stay in the anniversary's year; after they wrap, the days are the length of a whole year |
| `Age.PartsFromWithinYear` | Age/age.py:58-59 | when the counted months reach `to` exactly within the anniversary's year, line 58 rebuilds `to` and the days are 0 |
| `Age.PartsFromWrapped` | Age/age.py:58-59 | when they reach `to` exactly after running into the next year, line 58 rebuilds `to`'s month and day a year early and the days are that year's length |
| `Age.YearBackLength` | Age/age.py:59 | from a date back to the same month and day a year earlier is 366 days when the year in between holds a February 29, else 365 |
| `Age.AgePartsYearWrapExample` | Age/age.py:58-59 | as written, 2015-04-07 to 2024-01-07 gives (8, 9, 365) |
| `Age.CorrectedWholeMonths` | Age/age.py:41-59 | corrected, `n` years and `m` months after `from` gives (n, m, 0) whenever every month in between has `from`'s day (and, for a February 29 `from`, the months stay in its year) |
| `Age.CorrectedYearWrapExample` | Age/age.py:58-59 | corrected, 2015-04-07 to 2024-01-07 gives (8, 9, 0) |
| `Age.CorrectedThirtiethExample` | Age/age.py:41-59 | corrected, 2020-03-30 to 2020-05-30 gives (0, 2, 0) |
| `Age.CorrectedAgeParts` | Age/age.py:38-59 | `get_age_parts` with line 58 counting from the date the month loop reached. No contract of its own; `CorrectedAgePartsErrors`, `CorrectedAgePartsMeaning` and `AgePartsAgainstCorrected` state what it returns |
| `Age.CorrectedAgePartsErrors` | Age/age.py:42-45 | the corrected calculation raises only at lines 42/45, for a February 29 `from` whose anniversary does not exist |
| `Age.CorrectedAgePartsMeaning` | Age/age.py:58-59 | corrected, the days run from the date the months reached up to `to`, are at least 0, and are fewer than the days to the next month when that month exists |
| `Age.RemainderBounds` | Age/age.py:47-59 | from the date the maximal month count reaches, the days to `to` are at least 0 and fewer than the days on to the next month, when that month exists |
| `Age.AgePartsAgainstCorrected` | Age/age.py:58-59 | as written and corrected agree on years and months; they agree on days exactly when the months stay in the anniversary's year, and otherwise differ by 365 or 366; a corrected failure is an as-written failure too |
| `Age.CrashAnniversary` | Age/age.py:41-45 | on the line-58 crash inputs, the anniversary is the 29th of `from`'s month in the year before `to` |
| `Age.CrashMonthFits` | Age/age.py:49-52 | on those inputs, every month up to February 29 of `to`'s year fits |
| `Age.CrashMonths` | Age/age.py:46-57 | on those inputs, the loop counts exactly up to February 29 of `to`'s year |
| `Age.OnlyLeapDayDiffers` | Age/age.py:58 | a day that one year's month lacks and another year's same month has is February 29, in a leap year mapped from a common one |
| `Age.MonthStartFailsOnlyAfterWrap` | Age/age.py:58 | line 58 can raise only once the months counted run into the next year |
| `Age.WrappedMonthStartGap` | Age/age.py:58 | after the wrap, line 58 raises on a day the anniversary's year lacks and the next year has |
| `Age.LeapWindowReached` | Age/age.py:47-57 | a loop that reaches February 29 and stops there leaves `to` between February 29 and March 28 of that leap year |
| `Age.MonthStartFailsAt` | Age/age.py:58 | line 58 raises only for a 29th anniversary from March on, with `to` between February 29 and March 28 of the following leap year |
| `Age.MonthStartFailsOnlyOnCrash` | Age/age.py:58 | the same, for the count the loop actually returns |
| `Age.CrashMonthStart` | Age/age.py:58 | on those anniversaries, line 58 asks for February 29 of a common year and raises |
| `Age.MonthStartFails` | Age/age.py:58 | line 58 raises exactly on the crash inputs |
| `Age.AgePartsErrors` | Age/age.py:42-58 | `get_age_parts` raises exactly for `from` <= `to` where either a February 29 `from` lacks its anniversary (lines 42/45) or the inputs are the line-58 crash inputs |
| `Age.AgePartsCrashExample` | Age/age.py:58 | as written, 2022-03-29 to 2024-02-29 raises |
| `Age.CorrectedCrashExample` | Age/age.py:58-59 | corrected, 2022-03-29 to 2024-02-29 gives (1, 11, 0) |
| `Refresh.DefaultState` | Age/age.py:28-29 | the fallback state has the single key `lastDate`, holding the empty string |
| `Refresh.LoadState` | Age/age.py:22-29 | a stored dictionary is loaded as it is; a missing or unreadable file gives the fallback state |
| `Refresh.Recorded` | Age/age.py:151 | recording a day adds only the `lastDate` key, sets it to that day's ISO string, and leaves every other key as it was |
| `Refresh.RefreshDue` | Age/age.py:155-156 | the poll's test that the stored `lastDate` is missing or differs from today's ISO string. No contract of its own; `DefaultStateAlwaysDue`, `RecordedDueIff` and `RecordedChangesIffDue` state its meaning |
| `Refresh.DefaultStateAlwaysDue` | Age/age.py:155-157 | the fallback state is due on every day |
| `Refresh.LoadFailureAlwaysDue` | Age/age.py:27-29 | after a missing or unreadable state file, the first poll refreshes |
| `Refresh.RecordedDueIff` | Age/age.py:151-156 | after recording a day, a refresh is due exactly on the other days |
| `Refresh.RecordedChangesIffDue` | Age/age.py:151-156 | recording a day changes the state exactly when a refresh was due on that day |
| `Refresh.RecordedIdempotent` | Age/age.py:151 | recording the same day twice is the same as recording it once |
| `Refresh.ConfiguredAgesNeverFail` | Age/age.py:9-10 | neither configured reference date makes `get_age_parts` raise, on any day |
| `Refresh.Tracker.constructor` | Age/age.py:35 | the state is what `load_state` returns for the file as found |
| `Refresh.Tracker.SaveState` | Age/age.py:31-33 | a successful write stores the whole dictionary; the state in memory is unchanged |
| `Refresh.Tracker.UpdateWidget` | Age/age.py:140-152 | computes the age and then the college age; records today once both exist; saves when the write succeeds; a failing save leaves the in-memory record in place |
| `Refresh.Tracker.EnsureDailyUpdate` | Age/age.py:154-157 | updates exactly when a refresh is due; only `lastDate` changes; when the clock has not passed midnight in between, no refresh is due afterwards |

## Left out

- The PyQt widget, its labels, layout and styling, the tray menu, the 30-second `QTimer` and the window position are not modelled (Age/age.py:63-177). They are user interface. The first update `__init__` makes at line 138 is `Tracker.UpdateWidget` called directly.
- File input and output is not modelled: `open`, `json.load`, `json.dump`, `os.makedirs` and the `LOCALAPPDATA` path. The state file is the value `StoredFile`. A failed load is `Missing` or `Unreadable`. A write that may fail is the `writeOk` parameter.
- Only stored dictionaries whose keys and values are strings are modelled. A file holding other JSON (a number under `lastDate`, a list) is not.
- `datetime.strptime` is not modelled. The two configured dates are given as parsed values (`DOB_AGE`, `DOB_COLLEGE`).
- `date.today()` is not modelled. Each reading of the clock is a parameter: `today` at line 155 and `now` at line 141.
- The label text built by f-strings at lines 144, 148 and 150 is not modelled. It is presentation only.
- What happens after an exception is not modelled. If a calculation or the save raises, the exception leaves the update, and nothing in the program catches it. In the model, a raising calculation records nothing, and a failing save leaves `disk` as it was.
- `get_age_parts` is not total: it raises at lines 42, 45 and 58. The model returns `ValueError` there, and `AgePartsErrors` gives the exact inputs that raise.
- One would expect 2015-04-07 to 2024-01-07 to give (8, 9, 0), counted from the date the month loop reached. The code gives (8, 9, 365). The model follows the code, and Findings records the difference.
- The loop stops at the first month whose day does not exist, even if later months would fit. So 2020-01-31 to 2020-03-31 gives (0, 0, 60). The model keeps this behaviour, and `MonthsFrom` states it.
- A failed `save_state` raises out of `update_widget`, and nothing in the program catches it. Line 151 has already recorded today in memory when line 152 raises. `UpdateWidget` and `EnsureDailyUpdate` with `writeOk == false` capture the state at that moment: memory holds today, and `disk` is unchanged. What follows the uncaught exception (the program ending) is not modelled.

## Findings

| source | as written | input that shows it | evidently intended | confidence | as-written member | corrected member |
|---|---|---|---|---|---|---|
| Age/age.py:58 | `month_start` replaces only the month and keeps the anniversary's year; once the months counted run into the next year, `days` is counted from a date a year too early | 2015-04-07 to 2024-01-07 gives (8, 9, 365) | `month_start` is the date the month loop reached, giving (8, 9, 0) | high, not executed | `Age.AgePartsYearWrapExample` | `Age.CorrectedYearWrapExample` |
| Age/age.py:58 | for the same reason, line 58 can ask for February 29 of a common year and raise `ValueError` | 2022-03-29 to 2024-02-29 raises, because line 58 builds 2023-02-29 | (1, 11, 0), counted from 2024-02-29 | high, not executed | `Age.AgePartsCrashExample` | `Age.CorrectedCrashExample` |
