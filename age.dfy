/**
 The calendar-aware age calculation `get_age_parts` (Age/age.py, lines 38-60): whole
 years, then whole months counted forward from the anniversary, then the days left.

 `AgeParts` is the calculation as written, with the month arithmetic as a case split on
 whether the months run into the next year; `NextCandidate` and `MonthStartFormula` prove
 it equal to the source's `%` and `//` formulas. `GetAgeParts` is the same calculation in
 the source's own imperative form, proved equal to `AgeParts`. The
 lemmas say what the result means. `CorrectedAgeParts` counts the days from the date the
 month loop actually reached, which is what line 58 evidently intends.
 */
module Age {
  import opened Dates

  /** What `get_age_parts` produces: the (years, months, days) triple it returns, or the
      `ValueError` one of its unguarded `replace` calls raises. */
  datatype AgeResult = Parts(years: int, months: int, days: int) | ValueError

  /** The years count and the anniversary date once lines 41-45 have run. */
  datatype Start = Start(years: int, anniversary: Date)

  /** The same month and day one year later (possibly not a valid date). */
  function YearLater(a: Date): Date {
    Date(a.year + 1, a.month, a.day)
  }

  /** The month and day of `a` come before those of `b` within a year. */
  predicate MonthDayBefore(a: Date, b: Date) {
    a.month < b.month || (a.month == b.month && a.day < b.day)
  }

  /** Whole years from `from` to `to`, read off the calendar fields alone. */
  function FullYears(from: Date, to: Date): int {
    to.year - from.year - (if MonthDayBefore(to, from) then 1 else 0)
  }

  predicate IsLeapDay(d: Date) {
    d.month == 2 && d.day == 29
  }

  /** Lines 41-45: the year difference, decremented once when this year's anniversary is
      still ahead, and the anniversary that goes with it. Fails when a `replace` must
      build a February 29 in a year without one. */
  function YearsAndAnniversary(from: Date, to: Date): (r: Option<Start>)
    requires Valid(from) && Valid(to) && NotAfter(from, to)
    ensures r.None? <==> IsLeapDay(from) && (!IsLeap(to.year) || MonthDayBefore(to, from))
    ensures r.Some? ==>
      && r.value.years == FullYears(from, to) >= 0
      && r.value.anniversary == Date(from.year + r.value.years, from.month, from.day)
      && Valid(r.value.anniversary)
      && NotAfter(r.value.anniversary, to)
      && Before(to, YearLater(r.value.anniversary))
  {
    var years := to.year - from.year;
    match Replace(from, from.year + years, from.month)
    case None => None
    case Some(anniversary) =>
      if Before(to, anniversary) then
        match Replace(from, from.year + years - 1, from.month)
        case None => None
        case Some(earlier) => Some(Start(years - 1, earlier))
      else
        Some(Start(years, anniversary))
  }

  /** Lines 49-51: the anniversary advanced by `k` months, keeping its day; `None` when
      that day does not exist in the target month. For the at most 12 months the loop
      tries, the target lies in the anniversary's year or the next. */
  function ShiftMonths(a: Date, k: nat): (r: Option<Date>)
    requires 1 <= a.month <= 12 && k <= 12
    ensures r.Some? ==> Valid(r.value) && r.value.day == a.day
  {
    if a.month + k <= 12 then Replace(a, a.year, a.month + k)
    else Replace(a, a.year + 1, a.month + k - 12)
  }

  /** Line 52: advancing `k` months gives an existing date no later than `to`. */
  predicate Fits(a: Date, to: Date, k: nat)
    requires 1 <= a.month <= 12 && k <= 12
  {
    ShiftMonths(a, k).Some? && NotAfter(ShiftMonths(a, k).value, to)
  }

  /** Month index arithmetic within two years. */
  lemma MonthIndex(i: int)
    requires 0 <= i < 24
    ensures i < 12 ==> i % 12 == i && i / 12 == 0
    ensures i >= 12 ==> i % 12 == i - 12 && i / 12 == 1
  {
  }

  lemma ShiftZero(a: Date)
    requires Valid(a)
    ensures ShiftMonths(a, 0) == Some(a)
  {
  }

  /** Advancing months never moves backwards in the calendar. */
  lemma ShiftOrder(a: Date, j: nat, k: nat)
    requires 1 <= a.month <= 12 && j < k <= 12
    requires ShiftMonths(a, j).Some? && ShiftMonths(a, k).Some?
    ensures Before(ShiftMonths(a, j).value, ShiftMonths(a, k).value)
  {
  }

  /** Twelve months on is the next anniversary, which lies after `to`. */
  lemma TwelveMonthsNeverFit(a: Date, to: Date)
    requires 1 <= a.month <= 12 && Before(to, YearLater(a))
    ensures !Fits(a, to, 12)
  {
  }

  /** Lines 46-57: the months the loop counts once it has counted `m`; it stops at the
      first month that does not exist or lies past `to`, and never passes 11. */
  function MonthsFrom(a: Date, to: Date, m: nat): (r: nat)
    requires 1 <= a.month <= 12 && Before(to, YearLater(a)) && m <= 11
    ensures m <= r <= 11
    ensures forall k :: m < k <= r ==> Fits(a, to, k)
    ensures !Fits(a, to, r + 1)
    decreases 11 - m
  {
    if Fits(a, to, m + 1) then
      TwelveMonthsNeverFit(a, to);
      var r := MonthsFrom(a, to, m + 1);
      assert forall k :: m + 1 < k <= r ==> Fits(a, to, k);
      r
    else
      m
  }

  /** Line 58 as written: the anniversary with only its month replaced, so it keeps the
      anniversary's year even when the months counted run into the next year. */
  function MonthStart(a: Date, months: nat): Option<Date>
    requires 1 <= a.month <= 12 && months <= 11
  {
    Replace(a, a.year, if a.month + months <= 12 then a.month + months else a.month + months - 12)
  }

  /** Line 58's `%` formula gives the month `MonthStart` replaces. */
  lemma MonthStartFormula(a: Date, months: nat)
    requires 1 <= a.month <= 12 && months <= 11
    ensures Replace(a, a.year, (a.month + months - 1) % 12 + 1) == MonthStart(a, months)
  {
    MonthIndex(a.month + months - 1);
  }

  /** Lines 46-59 as written, once the anniversary is known: the months counted, then
      the days from line 58's `month_start`. */
  function PartsFrom(years: int, anniversary: Date, to: Date): AgeResult
    requires Valid(anniversary) && Valid(to) && Before(to, YearLater(anniversary))
  {
    var months := MonthsFrom(anniversary, to, 0);
    match MonthStart(anniversary, months)
    case None => ValueError
    case Some(monthStart) => Parts(years, months, DaysBetween(to, monthStart))
  }

  /** `get_age_parts(from, to)` as written (lines 38-60). */
  function AgeParts(from: Date, to: Date): AgeResult
    requires Valid(from) && Valid(to)
  {
    if Before(to, from) then Parts(0, 0, 0)
    else
      match YearsAndAnniversary(from, to)
      case None => ValueError
      case Some(Start(years, anniversary)) => PartsFrom(years, anniversary, to)
  }

  /** Lines 49-51: the date one month further on than counted, by the source's `%` and
      `//` formulas; `None` where the `replace` raises. */
  method NextCandidate(anniversary: Date, months: nat) returns (newDate: Option<Date>)
    requires 1 <= anniversary.month <= 12 && months <= 11
    ensures newDate == ShiftMonths(anniversary, months + 1)
  {
    var newMonth := (anniversary.month + months + 1 - 1) % 12 + 1;
    var newYear := anniversary.year + (anniversary.month + months + 1 - 1) / 12;
    MonthIndex(anniversary.month + months);
    newDate := Replace(anniversary, newYear, newMonth);
  }

  /** Lines 46-57 in the source's imperative form: count months forward from the
      anniversary until a `replace` fails or the date passes `to`. The loop has no bound
      of its own; it stops within 11 steps because `to` comes before the next
      anniversary. */
  method CountMonths(anniversary: Date, to: Date) returns (months: nat)
    requires Valid(anniversary) && Before(to, YearLater(anniversary))
    ensures months == MonthsFrom(anniversary, to, 0)
    ensures months <= 11
    ensures forall k :: 1 <= k <= months ==> Fits(anniversary, to, k)
    ensures !Fits(anniversary, to, months + 1)
  {
    months := 0;
    while true
      invariant months <= 11
      invariant MonthsFrom(anniversary, to, months) == MonthsFrom(anniversary, to, 0)
      decreases 11 - months
    {
      var newDate := NextCandidate(anniversary, months);
      if newDate.None? {
        assert MonthsFrom(anniversary, to, months) == months;
        break;
      }
      if NotAfter(newDate.value, to) {
        TwelveMonthsNeverFit(anniversary, to);
        months := months + 1;
      } else {
        assert MonthsFrom(anniversary, to, months) == months;
        break;
      }
    }
  }

  /** Lines 41-45 in the source's imperative form: `years` decremented in place and the
      anniversary rebuilt when this year's anniversary is still ahead. */
  method FindAnniversary(from: Date, to: Date) returns (start: Option<Start>)
    requires Valid(from) && Valid(to) && NotAfter(from, to)
    ensures start == YearsAndAnniversary(from, to)
  {
    var years := to.year - from.year;
    var replaced := Replace(from, from.year + years, from.month);
    if replaced.None? {
      return None;
    }
    var anniversary := replaced.value;
    if Before(to, anniversary) {
      years := years - 1;
      replaced := Replace(from, from.year + years, from.month);
      if replaced.None? {
        return None;
      }
      anniversary := replaced.value;
    }
    return Some(Start(years, anniversary));
  }

  /** Lines 38-60: the early return for a `to` before `from`, the anniversary, the month
      loop, and the days counted from line 58's `month_start`. */
  method GetAgeParts(from: Date, to: Date) returns (r: AgeResult)
    requires Valid(from) && Valid(to)
    ensures r == AgeParts(from, to)
    ensures r.Parts? ==> r.years >= 0 && 0 <= r.months <= 11 && r.days >= 0
  {
    if Before(to, from) {
      return Parts(0, 0, 0);
    }
    var start := FindAnniversary(from, to);
    if start.None? {
      return ValueError;
    }
    var years, anniversary := start.value.years, start.value.anniversary;
    assert AgeParts(from, to) == PartsFrom(years, anniversary, to);
    var months := CountMonths(anniversary, to);
    var monthStart := Replace(anniversary, anniversary.year, (anniversary.month + months - 1) % 12 + 1);
    MonthStartFormula(anniversary, months);
    if monthStart.None? {
      return ValueError;
    }
    var days := DaysBetween(to, monthStart.value);
    AgePartsBounds(from, to);
    return Parts(years, months, days);
  }

  /** Line 58's date is never later than `to`: it is the date the loop reached, or, when
      the count runs into the next year, a date before the anniversary. */
  lemma MonthStartNotAfter(a: Date, to: Date, months: nat)
    requires Valid(a) && NotAfter(a, to) && months <= 11
    requires months > 0 ==> Fits(a, to, months)
    requires MonthStart(a, months).Some?
    ensures NotAfter(MonthStart(a, months).value, to)
  {
    var n := a.month + months - 1;
    if n < 12 {
      assert n % 12 == n && n / 12 == 0;
    } else {
      assert n % 12 == n - 12;
    }
  }

  /** The bounds on every result that does not raise: years >= 0, 0 <= months <= 11, days >= 0. */
  lemma AgePartsBounds(from: Date, to: Date)
    requires Valid(from) && Valid(to)
    ensures AgeParts(from, to).Parts? ==>
      AgeParts(from, to).years >= 0 && 0 <= AgeParts(from, to).months <= 11 && AgeParts(from, to).days >= 0
  {
    if !Before(to, from) && YearsAndAnniversary(from, to).Some? {
      var a := YearsAndAnniversary(from, to).value.anniversary;
      var months := MonthsFrom(a, to, 0);
      if MonthStart(a, months).Some? {
        MonthStartNotAfter(a, to, months);
        OrdinalOrder(to, MonthStart(a, months).value);
      }
    }
  }

  /** No time has passed when `to` is before `from` (line 39) or is `from` itself. */
  lemma AgePartsZero(from: Date, to: Date)
    requires Valid(from) && Valid(to)
    requires Before(to, from) || from == to
    ensures AgeParts(from, to) == Parts(0, 0, 0)
  {
    if from == to {
      AgePartsWholeYears(from, 0);
    }
  }

  /** The order of (years, months, days) triples: by years, then months, then days. */
  predicate NotLaterParts(p: AgeResult, q: AgeResult)
    requires p.Parts? && q.Parts?
  {
    p.years < q.years || (p.years == q.years && (p.months < q.months || (p.months == q.months && p.days <= q.days)))
  }

  /** A month that fits before one `to` fits before any later `to`. */
  lemma FitsGrow(a: Date, t1: Date, t2: Date, k: nat)
    requires 1 <= a.month <= 12 && k <= 12 && Fits(a, t1, k) && NotAfter(t1, t2)
    ensures Fits(a, t2, k)
  {
  }

  /** From one anniversary, a later `to` never counts fewer months: the months that fit
      before the earlier `to` fit before the later one too. */
  lemma MonthsGrow(a: Date, t1: Date, t2: Date)
    requires 1 <= a.month <= 12 && Before(t1, YearLater(a)) && Before(t2, YearLater(a)) && NotAfter(t1, t2)
    ensures MonthsFrom(a, t1, 0) <= MonthsFrom(a, t2, 0)
  {
    var r1, r2 := MonthsFrom(a, t1, 0), MonthsFrom(a, t2, 0);
    if r2 < r1 {
      assert Fits(a, t1, r2 + 1);
      FitsGrow(a, t1, t2, r2 + 1);
    }
  }

  /** With the same month count, line 58's date is the same, so the later `to` has at
      least as many days left. */
  lemma SameCountDaysGrow(n: int, a: Date, t1: Date, t2: Date)
    requires Valid(a) && Valid(t1) && Valid(t2) && NotAfter(t1, t2)
    requires Before(t1, YearLater(a)) && Before(t2, YearLater(a))
    requires MonthsFrom(a, t1, 0) == MonthsFrom(a, t2, 0)
    requires PartsFrom(n, a, t1).Parts? && PartsFrom(n, a, t2).Parts?
    ensures PartsFrom(n, a, t1).days <= PartsFrom(n, a, t2).days
  {
    OrdinalOrder(t1, t2);
  }

  /** From one anniversary, lines 46-59 never give a later `to` a smaller result. */
  lemma PartsFromMonotone(n: int, a: Date, t1: Date, t2: Date)
    requires Valid(a) && Valid(t1) && Valid(t2) && NotAfter(t1, t2)
    requires Before(t1, YearLater(a)) && Before(t2, YearLater(a))
    requires PartsFrom(n, a, t1).Parts? && PartsFrom(n, a, t2).Parts?
    ensures NotLaterParts(PartsFrom(n, a, t1), PartsFrom(n, a, t2))
  {
    MonthsGrow(a, t1, t2);
    if MonthsFrom(a, t1, 0) == MonthsFrom(a, t2, 0) {
      SameCountDaysGrow(n, a, t1, t2);
    }
  }

  /** For a fixed `from`, a later `to` never gives a smaller (years, months, days), as the
      code is written, whenever neither call raises. */
  lemma AgePartsMonotone(from: Date, t1: Date, t2: Date)
    requires Valid(from) && Valid(t1) && Valid(t2) && NotAfter(t1, t2)
    requires AgeParts(from, t1).Parts? && AgeParts(from, t2).Parts?
    ensures NotLaterParts(AgeParts(from, t1), AgeParts(from, t2))
  {
    if Before(t1, from) {
      AgePartsBounds(from, t2);
    } else {
      assert NotAfter(from, t2);
      var s1 := YearsAndAnniversary(from, t1).value;
      var s2 := YearsAndAnniversary(from, t2).value;
      assert AgeParts(from, t1) == PartsFrom(s1.years, s1.anniversary, t1);
      assert AgeParts(from, t2) == PartsFrom(s2.years, s2.anniversary, t2);
      if s1.years == s2.years {
        assert s1 == s2;
        PartsFromMonotone(s1.years, s1.anniversary, t1, t2);
      } else {
        assert s1.years < s2.years;
      }
    }
  }

  /** What the years and months count: `years` whole years take `from` to an anniversary
      no later than `to` and the next one lies after it; `months` is the first month count
      from that anniversary after which the next month does not exist or lies past `to`. */
  lemma AgePartsMeaning(from: Date, to: Date, years: int, months: nat, days: int)
    requires Valid(from) && Valid(to) && NotAfter(from, to)
    requires AgeParts(from, to) == Parts(years, months, days)
    ensures years == FullYears(from, to) && months <= 11
    ensures var a := Date(from.year + years, from.month, from.day);
      && Valid(a) && NotAfter(a, to) && Before(to, YearLater(a))
      && (forall k :: 1 <= k <= months ==> Fits(a, to, k))
      && !Fits(a, to, months + 1)
  {
    var start := YearsAndAnniversary(from, to).value;
    var a := start.anniversary;
    assert AgeParts(from, to) == PartsFrom(start.years, a, to);
    assert years == start.years && months == MonthsFrom(a, to, 0);
    assert a == Date(from.year + years, from.month, from.day);
  }

  /** The month count is determined: any count whose months all fit and whose next
      month does not is the one the loop returns. */
  lemma {:induction false} MonthsFromUnique(a: Date, to: Date, m: nat)
    requires 1 <= a.month <= 12 && Before(to, YearLater(a)) && m <= 11
    requires forall k :: 1 <= k <= m ==> Fits(a, to, k)
    requires !Fits(a, to, m + 1)
    ensures MonthsFrom(a, to, 0) == m
  {
  }

  /** A whole number of years after `from` gives (n, 0, 0). */
  lemma AgePartsWholeYears(from: Date, n: nat)
    requires Valid(from) && Valid(Date(from.year + n, from.month, from.day))
    ensures AgeParts(from, Date(from.year + n, from.month, from.day)) == Parts(n, 0, 0)
  {
    var to := Date(from.year + n, from.month, from.day);
    assert YearsAndAnniversary(from, to) == Some(Start(n, to));
    ShiftZero(to);
    if ShiftMonths(to, 1).Some? {
      ShiftOrder(to, 0, 1);
    }
    MonthsFromUnique(to, to, 0);
    assert MonthStart(to, 0) == Some(to);
  }

  /** Line 58 as evidently intended: the days are counted from the date the month loop
      reached, the anniversary advanced by `months` months, in whichever year that is. */
  function CorrectedAgeParts(from: Date, to: Date): AgeResult
    requires Valid(from) && Valid(to)
  {
    if Before(to, from) then Parts(0, 0, 0)
    else
      match YearsAndAnniversary(from, to)
      case None => ValueError
      case Some(Start(years, anniversary)) => CorrectedPartsFrom(years, anniversary, to)
  }

  /** The corrected lines 46-59 once the anniversary is known. */
  function CorrectedPartsFrom(years: int, anniversary: Date, to: Date): AgeResult
    requires Valid(anniversary) && Valid(to) && Before(to, YearLater(anniversary))
  {
    var months := MonthsFrom(anniversary, to, 0);
    ShiftZero(anniversary);
    assert months == 0 || Fits(anniversary, to, months);
    Parts(years, months, DaysBetween(to, ShiftMonths(anniversary, months).value))
  }

  /** The corrected calculation fails only for a February 29 `from` whose anniversary
      does not exist: line 58 can no longer raise. */
  lemma CorrectedAgePartsErrors(from: Date, to: Date)
    requires Valid(from) && Valid(to) && NotAfter(from, to)
    ensures CorrectedAgeParts(from, to).ValueError? <==> IsLeapDay(from) && (!IsLeap(to.year) || MonthDayBefore(to, from))
  {
  }

  /** The corrected days are a true remainder: counted from the date the months reached
      up to `to`, and fewer than the days on to the next month, when that month exists. */
  lemma CorrectedAgePartsMeaning(from: Date, to: Date, years: int, months: int, days: int)
    requires Valid(from) && Valid(to) && NotAfter(from, to)
    requires CorrectedAgeParts(from, to) == Parts(years, months, days)
    ensures years == FullYears(from, to) >= 0 && 0 <= months <= 11
    ensures var a := Date(from.year + years, from.month, from.day);
      && ShiftMonths(a, months).Some?
      && days == DaysBetween(to, ShiftMonths(a, months).value) >= 0
      && (ShiftMonths(a, months + 1).Some? ==>
            days < DaysBetween(ShiftMonths(a, months + 1).value, ShiftMonths(a, months).value))
  {
    var start := YearsAndAnniversary(from, to).value;
    var a := start.anniversary;
    var m := MonthsFrom(a, to, 0);
    ShiftZero(a);
    assert m == 0 || Fits(a, to, m);
    var reached := ShiftMonths(a, m).value;
    assert CorrectedAgeParts(from, to) == CorrectedPartsFrom(start.years, a, to);
    assert years == start.years && months == m && days == DaysBetween(to, reached);
    assert a == Date(from.year + years, from.month, from.day);
    RemainderBounds(a, to, months);
  }

  /** The days from the date `m` months on up to `to` are at least 0, and fewer than the
      days on to the month after. */
  lemma RemainderBounds(a: Date, to: Date, m: nat)
    requires Valid(a) && Valid(to) && Before(to, YearLater(a)) && m <= 11
    requires (m == 0 || Fits(a, to, m)) && NotAfter(a, to) && !Fits(a, to, m + 1)
    ensures ShiftMonths(a, m).Some?
    ensures DaysBetween(to, ShiftMonths(a, m).value) >= 0
    ensures ShiftMonths(a, m + 1).Some? ==>
      DaysBetween(to, ShiftMonths(a, m).value) < DaysBetween(ShiftMonths(a, m + 1).value, ShiftMonths(a, m).value)
  {
    ShiftZero(a);
    var reached := ShiftMonths(a, m).value;
    OrdinalOrder(reached, to);
    if ShiftMonths(a, m + 1).Some? {
      OrdinalOrder(to, ShiftMonths(a, m + 1).value);
    }
  }

  /** As written and corrected agree on years and months, and on days unless the months
      counted run into the next year; then line 58 counts from a year too early, so the
      days exceed the corrected ones by a whole year, or `replace` raises. */
  lemma AgePartsAgainstCorrected(from: Date, to: Date)
    requires Valid(from) && Valid(to)
    ensures var r, c := AgeParts(from, to), CorrectedAgeParts(from, to);
      && (c.ValueError? ==> r.ValueError?)
      && (r.Parts? ==>
            && c.Parts? && r.years == c.years && r.months == c.months
            && (r.days == c.days <==> from.month + c.months <= 12)
            && (r.days != c.days ==> 365 <= r.days - c.days <= 366))
      && (c.Parts? && from.month + c.months <= 12 ==> r == c)
  {
    if !Before(to, from) && YearsAndAnniversary(from, to).Some? {
      var a := YearsAndAnniversary(from, to).value.anniversary;
      var months := MonthsFrom(a, to, 0);
      ShiftZero(a);
      assert months == 0 || Fits(a, to, months);
      var reached := ShiftMonths(a, months).value;
      if a.month + months <= 12 {
        assert MonthStart(a, months) == Some(reached);
      } else {
        if MonthStart(a, months).Some? {
          var s := MonthStart(a, months).value;
          assert reached == Date(s.year + 1, s.month, s.day);
          OrdinalYearLater(s);
        }
      }
    }
  }

  /** Every month from the anniversary up to `m` months on exists. */
  predicate MonthsExist(a: Date, m: nat)
    requires 1 <= a.month <= 12 && m <= 11
  {
    forall k :: 0 <= k <= m ==> ShiftMonths(a, k).Some?
  }

  /** A day of the month every month has exists in every month the shifts reach. */
  lemma ShortDayMonthsExist(a: Date, m: nat, to: Date)
    requires 1 <= a.month <= 12 && 1 <= a.day <= 28 && a.year >= 1 && m <= 11
    requires ShiftMonths(a, m) == Some(to)
    ensures MonthsExist(a, m)
  {
    forall k | 0 <= k <= m
      ensures ShiftMonths(a, k).Some?
    {
      assert a.month + k > 12 ==> a.month + m > 12;
    }
  }

  /** `to` exactly `n` years and `m` months after `from`, with every month in between
      holding `from`'s day: the anniversary is `n` years on and the loop counts exactly
      `m` months. A February 29 `from` whose months run into the next, common, year is
      left out, as line 42 raises there. */
  lemma WholeMonthsCounted(from: Date, n: nat, m: nat, to: Date)
    requires Valid(from) && m <= 11
    requires ShiftMonths(Date(from.year + n, from.month, from.day), m) == Some(to)
    requires MonthsExist(Date(from.year + n, from.month, from.day), m)
    requires !IsLeapDay(from) || from.month + m <= 12
    ensures var a := Date(from.year + n, from.month, from.day);
      && Valid(a) && Valid(to) && NotAfter(from, to) && Before(to, YearLater(a))
      && YearsAndAnniversary(from, to) == Some(Start(n, a))
      && MonthsFrom(a, to, 0) == m
  {
    var a := Date(from.year + n, from.month, from.day);
    assert ShiftMonths(a, 0).Some?;
    ShiftZero(a);
    if m > 0 {
      ShiftOrder(a, 0, m);
    }
    assert YearsAndAnniversary(from, to) == Some(Start(n, a));
    forall k | 1 <= k <= m
      ensures Fits(a, to, k)
    {
      assert ShiftMonths(a, k).Some?;
      if k < m {
        ShiftOrder(a, k, m);
      }
    }
    if ShiftMonths(a, m + 1).Some? {
      ShiftOrder(a, m, m + 1);
    }
    MonthsFromUnique(a, to, m);
  }

  /** The whole-months property holds of the corrected calculation: `to`
      exactly `n` years and `m` months after `from` gives (n, m, 0). */
  lemma CorrectedWholeMonths(from: Date, n: nat, m: nat, to: Date)
    requires Valid(from) && m <= 11
    requires ShiftMonths(Date(from.year + n, from.month, from.day), m) == Some(to)
    requires MonthsExist(Date(from.year + n, from.month, from.day), m)
    requires !IsLeapDay(from) || from.month + m <= 12
    ensures CorrectedAgeParts(from, to) == Parts(n, m, 0)
  {
    var a := Date(from.year + n, from.month, from.day);
    WholeMonthsCounted(from, n, m, to);
    assert CorrectedAgeParts(from, to) == CorrectedPartsFrom(n, a, to);
    assert DaysBetween(to, to) == 0;
  }

  /** The same `to` as written: (n, m, 0) while the months stay within the anniversary's
      year, and otherwise (n, m, d) with d the length of the year that ends at `to`'s
      month and day, because line 58 keeps the anniversary's year. */
  lemma AgePartsWholeMonths(from: Date, n: nat, m: nat, to: Date)
    requires Valid(from) && from.day <= 28 && m <= 11
    requires ShiftMonths(Date(from.year + n, from.month, from.day), m) == Some(to)
    ensures AgeParts(from, to) == Parts(n, m, if from.month + m <= 12 then 0 else DaysInYear(if to.month > 2 then to.year else to.year - 1))
  {
    var a := Date(from.year + n, from.month, from.day);
    ShortDayMonthsExist(a, m, to);
    WholeMonthsCounted(from, n, m, to);
    assert AgeParts(from, to) == PartsFrom(n, a, to);
    if from.month + m <= 12 {
      PartsFromWithinYear(n, a, to, m);
    } else {
      PartsFromWrapped(n, a, to, m);
    }
  }

  /** Lines 58-59 once the loop has counted exactly the `m` months to `to`, within the
      anniversary's year: line 58 rebuilds `to` itself. */
  lemma PartsFromWithinYear(n: int, a: Date, to: Date, m: nat)
    requires Valid(a) && Valid(to) && Before(to, YearLater(a)) && m <= 11 && a.month + m <= 12
    requires ShiftMonths(a, m) == Some(to) && MonthsFrom(a, to, 0) == m
    ensures PartsFrom(n, a, to) == Parts(n, m, 0)
  {
    assert MonthStart(a, m) == Some(to);
    assert DaysBetween(to, to) == 0;
  }

  /** The same count run into the next year: line 58 rebuilds `to`'s month and day in
      the anniversary's year, a whole year before `to`. */
  lemma PartsFromWrapped(n: int, a: Date, to: Date, m: nat)
    requires Valid(a) && Valid(to) && Before(to, YearLater(a)) && a.day <= 28 && m <= 11 && a.month + m > 12
    requires ShiftMonths(a, m) == Some(to) && MonthsFrom(a, to, 0) == m
    ensures PartsFrom(n, a, to) == Parts(n, m, DaysInYear(if to.month > 2 then to.year else to.year - 1))
  {
    var s := Date(a.year, to.month, a.day);
    assert MonthStart(a, m) == Some(s);
    assert PartsFrom(n, a, to) == Parts(n, m, DaysBetween(to, s));
    YearBackLength(to, s);
  }

  /** From a date back to the same month and day a year earlier is the length of the
      year that ends at it. */
  lemma YearBackLength(to: Date, s: Date)
    requires Valid(s) && Valid(to) && to == Date(s.year + 1, s.month, s.day)
    ensures DaysBetween(to, s) == DaysInYear(if to.month > 2 then to.year else to.year - 1)
  {
    OrdinalYearLater(s);
    assert (if to.month > 2 then to.year else to.year - 1) == (if s.month > 2 then s.year + 1 else s.year);
  }

  /** The first configured reference date: 1994-07-12 to 2024-07-12 is (30, 0, 0). */
  lemma AgePartsWholeYearsExample()
    ensures AgeParts(Date(1994, 7, 12), Date(2024, 7, 12)) == Parts(30, 0, 0)
  {
    AgePartsWholeYears(Date(1994, 7, 12), 30);
  }

  /** The second configured reference date: 2015-04-07 to 2024-01-07 is (8, 9, 365) as
      written, where (8, 9, 0) is meant. */
  lemma AgePartsYearWrapExample()
    ensures AgeParts(Date(2015, 4, 7), Date(2024, 1, 7)) == Parts(8, 9, 365)
  {
    assert ShiftMonths(Date(2023, 4, 7), 9) == Some(Date(2024, 1, 7));
    AgePartsWholeMonths(Date(2015, 4, 7), 8, 9, Date(2024, 1, 7));
  }

  lemma CorrectedYearWrapExample()
    ensures CorrectedAgeParts(Date(2015, 4, 7), Date(2024, 1, 7)) == Parts(8, 9, 0)
  {
    assert ShiftMonths(Date(2023, 4, 7), 9) == Some(Date(2024, 1, 7));
    ShortDayMonthsExist(Date(2023, 4, 7), 9, Date(2024, 1, 7));
    CorrectedWholeMonths(Date(2015, 4, 7), 8, 9, Date(2024, 1, 7));
  }

  /** A 30th whose months all have a 30th: 2020-03-30 to 2020-05-30 is (0, 2, 0). */
  lemma CorrectedThirtiethExample()
    ensures CorrectedAgeParts(Date(2020, 3, 30), Date(2020, 5, 30)) == Parts(0, 2, 0)
  {
    var a := Date(2020, 3, 30);
    assert ShiftMonths(a, 0).Some? && ShiftMonths(a, 1).Some?;
    assert ShiftMonths(a, 2) == Some(Date(2020, 5, 30));
    assert MonthsExist(a, 2);
    CorrectedWholeMonths(a, 0, 2, Date(2020, 5, 30));
  }

  /** The inputs for which line 58 raises: a `from` on the 29th of a month from March to
      December, and a `to` from February 29 up to March 28 of a leap year. The months then
      run to February 29 of the leap year, and line 58 asks for February 29 of the year
      before it. */
  predicate MonthStartCrash(from: Date, to: Date) {
    from.day == 29 && from.month >= 3 && IsLeap(to.year) &&
    ((to.month == 2 && to.day == 29) || (to.month == 3 && to.day < 29))
  }

  lemma CrashAnniversary(from: Date, to: Date)
    requires Valid(from) && Valid(to) && NotAfter(from, to) && MonthStartCrash(from, to)
    ensures YearsAndAnniversary(from, to) == Some(Start(to.year - 1 - from.year, Date(to.year - 1, from.month, 29)))
  {
    assert MonthDayBefore(to, from);
  }

  lemma CrashMonthFits(from: Date, to: Date, k: nat)
    requires Valid(from) && Valid(to) && MonthStartCrash(from, to) && 1 <= k <= 14 - from.month
    ensures Fits(Date(to.year - 1, from.month, 29), to, k)
  {
    MonthIndex(from.month + k - 1);
  }

  lemma CrashMonths(from: Date, to: Date)
    requires Valid(from) && Valid(to) && NotAfter(from, to) && MonthStartCrash(from, to)
    ensures var a := Date(to.year - 1, from.month, 29);
      && YearsAndAnniversary(from, to) == Some(Start(to.year - 1 - from.year, a))
      && MonthsFrom(a, to, 0) == 14 - from.month
  {
    var a := Date(to.year - 1, from.month, 29);
    CrashAnniversary(from, to);
    forall k | 1 <= k <= 14 - from.month
      ensures Fits(a, to, k)
    {
      CrashMonthFits(from, to, k);
    }
    MonthIndex(14);
    assert !Fits(a, to, 15 - from.month);
    MonthsFromUnique(a, to, 14 - from.month);
  }

  /** A day that one year's month has and another's lacks is February 29. */
  lemma OnlyLeapDayDiffers(day: int, y1: int, y2: int, m: int)
    requires 1 <= m <= 12 && DaysInMonth(y1, m) < day <= DaysInMonth(y2, m)
    ensures m == 2 && day == 29 && IsLeap(y2) && !IsLeap(y1)
  {
  }

  /** Within the anniversary's own year line 58 asks for a date the loop reached, so it
      can fail only once the months have wrapped into the next year. */
  lemma MonthStartFailsOnlyAfterWrap(a: Date, to: Date, months: nat)
    requires Valid(a) && months <= 11 && (months == 0 || Fits(a, to, months))
    requires MonthStart(a, months).None?
    ensures a.month + months > 12
  {
    ShiftZero(a);
  }

  /** After the wrap, line 58 fails exactly on a day the next year's month has and the
      anniversary's year's month lacks. */
  lemma WrappedMonthStartGap(a: Date, to: Date, months: nat)
    requires Valid(a) && months <= 11 && a.month + months > 12 && Fits(a, to, months)
    requires MonthStart(a, months).None?
    ensures DaysInMonth(a.year, a.month + months - 12) < a.day <= DaysInMonth(a.year + 1, a.month + months - 12)
  {
  }

  /** Line 58 raises only when the months have run into the next year and reached a
      February 29 that the anniversary's year lacks. */
  lemma MonthStartFailsOnlyOnCrash(a: Date, to: Date)
    requires Valid(a) && Valid(to) && NotAfter(a, to) && Before(to, YearLater(a))
    requires MonthStart(a, MonthsFrom(a, to, 0)).None?
    ensures a.day == 29 && a.month >= 3 && to.year == a.year + 1 && IsLeap(to.year)
    ensures (to.month == 2 && to.day == 29) || (to.month == 3 && to.day < 29)
  {
    var months := MonthsFrom(a, to, 0);
    assert months == 0 || Fits(a, to, months);
    MonthStartFailsAt(a, to, months);
  }

  lemma MonthStartFailsAt(a: Date, to: Date, months: nat)
    requires Valid(a) && Valid(to) && months <= 11
    requires (months == 0 || Fits(a, to, months)) && !Fits(a, to, months + 1)
    requires MonthStart(a, months).None?
    ensures a.day == 29 && a.month >= 3 && to.year == a.year + 1 && IsLeap(to.year)
    ensures (to.month == 2 && to.day == 29) || (to.month == 3 && to.day < 29)
  {
    MonthStartFailsOnlyAfterWrap(a, to, months);
    WrappedMonthStartGap(a, to, months);
    OnlyLeapDayDiffers(a.day, a.year, a.year + 1, a.month + months - 12);
    LeapWindowReached(a, to, months);
  }

  lemma LeapWindowReached(a: Date, to: Date, months: nat)
    requires Valid(a) && Valid(to) && a.day == 29 && a.month + months == 14 && months <= 11
    requires Fits(a, to, months) && !Fits(a, to, months + 1) && IsLeap(a.year + 1)
    ensures to.year == a.year + 1
    ensures (to.month == 2 && to.day == 29) || (to.month == 3 && to.day < 29)
  {
  }

  lemma CrashMonthStart(a: Date, leapYear: int)
    requires Valid(a) && a.day == 29 && a.month >= 3 && a.year + 1 == leapYear && IsLeap(leapYear)
    ensures MonthStart(a, 14 - a.month) == None
  {
    assert a.year % 4 != 0;
  }

  lemma MonthStartFails(from: Date, to: Date)
    requires Valid(from) && Valid(to) && NotAfter(from, to)
    requires YearsAndAnniversary(from, to).Some?
    ensures var a := YearsAndAnniversary(from, to).value.anniversary;
      MonthStart(a, MonthsFrom(a, to, 0)).None? <==> MonthStartCrash(from, to)
  {
    var a := YearsAndAnniversary(from, to).value.anniversary;
    if MonthStartCrash(from, to) {
      CrashMonths(from, to);
      assert a == Date(to.year - 1, from.month, 29);
      CrashMonthStart(a, to.year);
    } else if MonthStart(a, MonthsFrom(a, to, 0)).None? {
      MonthStartFailsOnlyOnCrash(a, to);
    }
  }

  /** When `get_age_parts` raises: on a February 29 `from` whose anniversary at line 42
      or 45 does not exist, and on the inputs of `MonthStartCrash`, at line 58. */
  lemma AgePartsErrors(from: Date, to: Date)
    requires Valid(from) && Valid(to)
    ensures AgeParts(from, to).ValueError? <==>
      NotAfter(from, to) &&
      ((IsLeapDay(from) && (!IsLeap(to.year) || MonthDayBefore(to, from))) || MonthStartCrash(from, to))
  {
    if NotAfter(from, to) && YearsAndAnniversary(from, to).Some? {
      MonthStartFails(from, to);
    }
  }

  /** 2022-03-29 to 2024-02-29 raises at line 58, which asks for 2023-02-29; the
      corrected calculation gives (1, 11, 0). */
  lemma AgePartsCrashExample()
    ensures AgeParts(Date(2022, 3, 29), Date(2024, 2, 29)) == ValueError
  {
    AgePartsErrors(Date(2022, 3, 29), Date(2024, 2, 29));
  }

  lemma CorrectedCrashExample()
    ensures CorrectedAgeParts(Date(2022, 3, 29), Date(2024, 2, 29)) == Parts(1, 11, 0)
  {
    CrashMonths(Date(2022, 3, 29), Date(2024, 2, 29));
    assert ShiftMonths(Date(2023, 3, 29), 11) == Some(Date(2024, 2, 29));
  }
}
