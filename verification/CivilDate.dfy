/** The closed-form civil-date algorithm of the audit log's syslog export, against the
    Gregorian calendar defined by counting years, months and days. */
module CivilDate {

  datatype Date = Date(year: nat, month: nat, day: nat)

  // ---------------------------------------------------------------------------
  // The calendar, by counting
  // ---------------------------------------------------------------------------

  predicate IsLeap(y: nat) {
    y % 4 == 0 && (y % 100 != 0 || y % 400 == 0)
  }

  function YearLength(y: nat): nat {
    if IsLeap(y) then 366 else 365
  }

  function MonthLength(y: nat, m: nat): nat {
    if m == 2 then (if IsLeap(y) then 29 else 28)
    else if m in {4, 6, 9, 11} then 30
    else 31
  }

  /** A real calendar day, not before the UNIX epoch. */
  predicate Valid(d: Date) {
    1970 <= d.year && 1 <= d.month <= 12 && 1 <= d.day <= MonthLength(d.year, d.month)
  }

  /** Days from 1970-01-01 to the first day of year y. */
  function DaysBeforeYear(y: nat): nat {
    if y <= 1970 then 0 else DaysBeforeYear(y - 1) + YearLength(y - 1)
  }

  /** Days from the first day of year y to the first day of its month m. */
  function DaysBeforeMonth(y: nat, m: nat): nat {
    if m <= 1 then 0 else DaysBeforeMonth(y, m - 1) + MonthLength(y, m - 1)
  }

  /** The day number of a date: the independent inverse of DaysToYmd. */
  function DaysFromCivil(d: Date): (n: int)
  {
    DaysBeforeYear(d.year) + DaysBeforeMonth(d.year, d.month) + d.day - 1
  }

  /** Calendar order. */
  predicate Before(a: Date, b: Date) {
    a.year < b.year
    || (a.year == b.year && a.month < b.month)
    || (a.year == b.year && a.month == b.month && a.day < b.day)
  }

  // ---------------------------------------------------------------------------
  // The algorithm
  // ---------------------------------------------------------------------------

  /** Year of the 400-year era that starts on 1 March. */
  function YearOfEra(doe: nat): int {
    (doe - doe / 1460 + doe / 36524 - doe / 146096) / 365
  }

  /** Days from the start of an era to 1 March of its year y. */
  function EraDays(y: int): int {
    365 * y + y / 4 - y / 100 + y / 400
  }

  /** March-based year, month counted from March (0 to 11) and day of month. */
  datatype MarchDate = MarchDate(year: int, month: int, day: int)

  /** Days since the epoch to a March-based date; adding the parts up again gives the day back. */
  function DaysToMarch(days: nat): (r: MarchDate)
    ensures 0 <= r.month <= 11 && 1 <= r.day
    ensures EraDays(r.year) + (153 * r.month + 2) / 5 + r.day - 1 == days + 719468
    ensures r.year >= 1969 && (r.year == 1969 ==> r.month >= 10)
    ensures r.day <= MonthLength(if r.month < 10 then r.year else r.year + 1,
                                 if r.month < 10 then r.month + 3 else r.month - 9)
  {
    var z := days + 719468;
    var era := z / 146097;
    var doe := z - era * 146097;
    var yoe := YearOfEra(doe);
    YearOfEraBounds(doe);
    var y := yoe + era * 400;
    var doy := doe - (365 * yoe + yoe / 4 - yoe / 100);
    var mp := (5 * doy + 2) / 153;
    var d := doy - (153 * mp + 2) / 5 + 1;
    SplitIsValid(days, era, doe, yoe, doy, mp);
    EraShift(yoe, era);
    MarchDate(y, mp, d)
  }

  /** Days since the epoch to (year, month, day). */
  function DaysToYmd(days: nat): (d: Date)
    ensures Valid(d)
  {
    var p := DaysToMarch(days);
    var m := if p.month < 10 then p.month + 3 else p.month - 9;
    Date(if m <= 2 then p.year + 1 else p.year, m, p.day)
  }

  /** The era year found by the three corrective divisions is the one that contains the day. */
  lemma YearOfEraBounds(doe: nat)
    requires doe < 146097
    ensures 0 <= YearOfEra(doe) <= 399
    ensures EraDays(YearOfEra(doe)) <= doe < EraDays(YearOfEra(doe) + 1)
  {
    if doe < 146096 {
      // Century b, leap cycle t of the century, and u days into that cycle.
      var b := doe / 36524;
      var t := (doe - 36500 * b) / 1460;
      var u := doe - 36500 * b - 1460 * t;
      var v := (u - t - 24 * b) / 365;
      assert doe / 1460 == 25 * b + t;
      assert YearOfEra(doe) == 100 * b + 4 * t + v;
      CycleYear(b, t, u, v);
    }
  }

  lemma CycleYear(b: int, t: int, u: int, v: int)
    requires 0 <= b <= 3 && 0 <= t && 0 <= u < 1460 && v == (u - t - 24 * b) / 365
    requires 0 <= 1460 * t + u - 24 * b < 36524
    ensures 0 <= 100 * b + 4 * t + v <= 399
    ensures EraDays(100 * b + 4 * t + v) <= 36500 * b + 1460 * t + u < EraDays(100 * b + 4 * t + v + 1)
  {
    var w := 4 * t + v;
    assert -1 <= v <= 3;
    assert 0 <= w <= 99;
    EraDaysInCentury(b, w);
    if w < 99 {
      EraDaysInCentury(b, w + 1);
      assert (w + 1) / 4 == t + (v + 1) / 4;
    }
    assert w / 4 == t + v / 4;
  }

  lemma EraDaysInCentury(b: int, w: int)
    requires 0 <= b <= 3 && 0 <= w <= 99
    ensures EraDays(100 * b + w) == 36524 * b + 365 * w + w / 4
    ensures w == 99 ==> EraDays(100 * b + w + 1) >= 36524 * (b + 1)
  {
    assert (100 * b + w) / 4 == 25 * b + w / 4;
    assert (100 * b + w) / 100 == b;
  }

  lemma {:induction false} LeapPeriod(y: nat, era: nat)
    ensures IsLeap(y + 400 * era) == IsLeap(y)
  {
    if era > 0 {
      LeapPeriod(y, era - 1);
      LeapAfterEra(y + 400 * (era - 1));
    }
  }

  lemma LeapAfterEra(y: nat)
    ensures IsLeap(y + 400) == IsLeap(y)
  {
    assert (y + 400) % 4 == y % 4;
    assert (y + 400) % 100 == y % 100;
    assert (y + 400) % 400 == y % 400;
  }

  lemma QuotientStep4(y: nat)
    ensures (y + 1) / 4 - y / 4 == if (y + 1) % 4 == 0 then 1 else 0
  {
  }

  lemma QuotientStep100(y: nat)
    ensures (y + 1) / 100 - y / 100 == if (y + 1) % 100 == 0 then 1 else 0
  {
  }

  lemma QuotientStep400(y: nat)
    ensures (y + 1) / 400 - y / 400 == if (y + 1) % 400 == 0 then 1 else 0
  {
  }

  lemma CenturyDivides(y: nat)
    ensures y % 400 == 0 ==> y % 100 == 0
    ensures y % 100 == 0 ==> y % 4 == 0
  {
    if y % 400 == 0 {
      MultipleOf100(y, 4 * (y / 400));
    }
    if y % 100 == 0 {
      MultipleOf4(y, 25 * (y / 100));
    }
  }

  lemma MultipleOf100(y: nat, q: nat)
    requires y == 100 * q
    ensures y % 100 == 0
  {
  }

  lemma MultipleOf4(y: nat, q: nat)
    requires y == 4 * q
    ensures y % 4 == 0
  {
  }

  /** A March-based year is as long as the calendar year in which it ends. */
  lemma EraYearLength(y: nat)
    ensures EraDays(y + 1) - EraDays(y) == YearLength(y + 1)
  {
    QuotientStep4(y);
    QuotientStep100(y);
    QuotientStep400(y);
    CenturyDivides(y + 1);
  }

  lemma SplitIsValid(days: nat, era: int, doe: int, yoe: int, doy: int, mp: int)
    requires era == (days + 719468) / 146097 && doe == days + 719468 - era * 146097
    requires 0 <= yoe <= 399 && EraDays(yoe) <= doe < EraDays(yoe + 1)
    requires doy == doe - (365 * yoe + yoe / 4 - yoe / 100)
    requires mp == (5 * doy + 2) / 153
    ensures 0 <= doy <= 365 && 0 <= mp <= 11
    ensures var m := if mp < 10 then mp + 3 else mp - 9;
            var y := if m <= 2 then yoe + era * 400 + 1 else yoe + era * 400;
            var d := doy - (153 * mp + 2) / 5 + 1;
            y >= 1970 && d >= 1 && Valid(Date(y, m, d))
  {
    EraYearLength(yoe);
    assert era >= 4;
    LeapPeriod(yoe + 1, era);
    if era == 4 {
      assert doe >= 135080;
      assert yoe >= 369;
    }
  }

  // ---------------------------------------------------------------------------
  // Inverse and order
  // ---------------------------------------------------------------------------

  lemma {:induction false} DaysBeforeYearClosed(y: nat)
    requires y >= 1970
    ensures DaysBeforeYear(y) == EraDays(y - 1) - 719162
  {
    if y > 1970 {
      DaysBeforeYearClosed(y - 1);
      EraYearLength(y - 2);
    }
  }

  lemma DaysBeforeMonthTable(y: nat)
    ensures DaysBeforeMonth(y, 1) == 0 && DaysBeforeMonth(y, 2) == 31
    ensures var f := if IsLeap(y) then 60 else 59;
            && DaysBeforeMonth(y, 3) == f && DaysBeforeMonth(y, 4) == f + 31 && DaysBeforeMonth(y, 5) == f + 61
            && DaysBeforeMonth(y, 6) == f + 92 && DaysBeforeMonth(y, 7) == f + 122 && DaysBeforeMonth(y, 8) == f + 153
            && DaysBeforeMonth(y, 9) == f + 184 && DaysBeforeMonth(y, 10) == f + 214
            && DaysBeforeMonth(y, 11) == f + 245 && DaysBeforeMonth(y, 12) == f + 275
  {
    assert DaysBeforeMonth(y, 2) == 31;
    assert DaysBeforeMonth(y, 4) == DaysBeforeMonth(y, 3) + 31;
    assert DaysBeforeMonth(y, 6) == DaysBeforeMonth(y, 4) + 61;
    assert DaysBeforeMonth(y, 8) == DaysBeforeMonth(y, 6) + 61;
    assert DaysBeforeMonth(y, 10) == DaysBeforeMonth(y, 8) + 61;
  }

  /** Counting from 1 March: month mp of March-year y starts (153 * mp + 2) / 5 days in. */
  lemma MarchCount(y: nat, mp: nat, day: nat)
    requires mp <= 11 && y >= 1969 && (y == 1969 ==> mp >= 10)
    ensures var m := if mp < 10 then mp + 3 else mp - 9;
            var y' := if m <= 2 then y + 1 else y;
            DaysFromCivil(Date(y', m, day)) == EraDays(y) + (153 * mp + 2) / 5 + day - 1 - 719468
  {
    var y' := if mp >= 10 then y + 1 else y;
    DaysBeforeYearClosed(y');
    DaysBeforeMonthTable(y');
    EraYearLength(y' - 1);
  }

  lemma EraShift(y: nat, era: nat)
    ensures EraDays(y + 400 * era) == EraDays(y) + 146097 * era
  {
    assert (y + 400 * era) / 4 == y / 4 + 100 * era;
    assert (y + 400 * era) / 100 == y / 100 + 4 * era;
    assert (y + 400 * era) / 400 == y / 400 + era;
  }

  /** Counting days from the epoch undoes the algorithm, for every day number. */
  lemma DaysFromCivilOfDaysToYmd(days: nat)
    ensures DaysFromCivil(DaysToYmd(days)) == days
  {
    var p := DaysToMarch(days);
    MarchCount(p.year, p.month, p.day);
  }

  lemma {:induction false} DaysBeforeMonthMonotone(y: nat, m: nat, n: nat)
    requires 1 <= m < n <= 13
    ensures DaysBeforeMonth(y, m) + MonthLength(y, m) <= DaysBeforeMonth(y, n)
  {
    if m < n - 1 {
      DaysBeforeMonthMonotone(y, m, n - 1);
    }
  }

  lemma {:induction false} DaysBeforeYearMonotone(y: nat, z: nat)
    requires 1970 <= y < z
    ensures DaysBeforeYear(y) + YearLength(y) <= DaysBeforeYear(z)
  {
    if y < z - 1 {
      DaysBeforeYearMonotone(y, z - 1);
    }
  }

  lemma DayWithinYear(d: Date)
    requires Valid(d)
    ensures DaysBeforeMonth(d.year, d.month) + d.day <= YearLength(d.year)
  {
    DaysBeforeMonthTable(d.year);
    assert DaysBeforeMonth(d.year, 13) == YearLength(d.year);
    DaysBeforeMonthMonotone(d.year, d.month, 13);
  }

  /** Day numbers order valid dates exactly as the calendar does. */
  lemma DaysFromCivilMonotone(a: Date, b: Date)
    requires Valid(a) && Valid(b)
    ensures Before(a, b) <==> DaysFromCivil(a) < DaysFromCivil(b)
  {
    if Before(a, b) {
      DaysFromCivilIncreases(a, b);
    } else if a != b {
      DaysFromCivilIncreases(b, a);
    }
  }

  lemma DaysFromCivilIncreases(a: Date, b: Date)
    requires Valid(a) && Valid(b) && Before(a, b)
    ensures DaysFromCivil(a) < DaysFromCivil(b)
  {
    if a.year < b.year {
      DaysBeforeYearMonotone(a.year, b.year);
      DayWithinYear(a);
    } else if a.month < b.month {
      DaysBeforeMonthMonotone(a.year, a.month, b.month);
    }
  }

  /** The algorithm undoes the counting, for every valid date: with DaysFromCivilOfDaysToYmd,
      a bijection between day numbers and the days of the calendar. */
  lemma DaysToYmdOfDaysFromCivil(d: Date)
    requires Valid(d)
    ensures DaysFromCivil(d) >= 0 && DaysToYmd(DaysFromCivil(d)) == d
  {
    var e := DaysToYmd(DaysFromCivil(d));
    DaysFromCivilOfDaysToYmd(DaysFromCivil(d));
    DaysFromCivilMonotone(d, e);
    DaysFromCivilMonotone(e, d);
  }

  lemma DaysToYmdMonotone(a: nat, b: nat)
    ensures a < b <==> Before(DaysToYmd(a), DaysToYmd(b))
  {
    DaysFromCivilOfDaysToYmd(a);
    DaysFromCivilOfDaysToYmd(b);
    DaysFromCivilMonotone(DaysToYmd(a), DaysToYmd(b));
  }
}
