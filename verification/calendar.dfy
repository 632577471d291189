/**
 The proleptic Gregorian calendar that JavaScript's `Date` uses, as a
 bijection between day counts relative to 1970-01-01 and valid
 year/month/day triples, plus the `toISOString` rendering of a date.
 */
module Calendar {
  import opened Text

  datatype Civil = Civil(year: int, month: int, day: int)

  predicate IsLeap(y: int) {
    y % 4 == 0 && (y % 100 != 0 || y % 400 == 0)
  }

  function YearLength(y: int): int {
    if IsLeap(y) then 366 else 365
  }

  function MonthLength(y: int, m: int): int
    requires 1 <= m <= 12
  {
    if m == 2 then (if IsLeap(y) then 29 else 28)
    else if m == 4 || m == 6 || m == 9 || m == 11 then 30
    else 31
  }

  predicate ValidCivil(c: Civil) {
    1 <= c.month <= 12 && 1 <= c.day <= MonthLength(c.year, c.month)
  }

  /** Days in the months of year `y` before month `m`. */
  function DaysBeforeMonth(y: int, m: int): (r: int)
    requires 1 <= m <= 13
    ensures 0 <= r
  {
    var common := [0, 31, 59, 90, 120, 151, 181, 212, 243, 273, 304, 334, 365][m - 1];
    common + (if m > 2 && IsLeap(y) then 1 else 0)
  }

  lemma DaysBeforeMonthStep(y: int, m: int)
    requires 1 <= m <= 12
    ensures DaysBeforeMonth(y, m + 1) == DaysBeforeMonth(y, m) + MonthLength(y, m)
  {
  }

  lemma DaysBeforeMonthYear(y: int)
    ensures DaysBeforeMonth(y, 13) == YearLength(y)
  {
  }

  lemma DaysBeforeMonthMono(y: int, m: int, m': int)
    requires 1 <= m <= m' <= 13
    ensures DaysBeforeMonth(y, m) <= DaysBeforeMonth(y, m')
    decreases m' - m
  {
    if m < m' {
      DaysBeforeMonthMono(y, m, m' - 1);
      DaysBeforeMonthStep(y, m' - 1);
    }
  }

  /** Days from the start of a 400-year era to the start of its year `y`. */
  function DaysBeforeYear(y: nat): nat {
    365 * y + (y + 3) / 4 - (y + 99) / 100 + (y + 399) / 400
  }

  lemma DaysBeforeYearStep(y: nat)
    ensures DaysBeforeYear(y + 1) == DaysBeforeYear(y) + YearLength(y)
  {
    CountStep4(y);
    CountStep100(y);
    CountStep400(y);
    LeapDivisors(y);
    if y % 400 == 0 {
      assert YearLength(y) == 366;
    } else if y % 100 == 0 {
      assert YearLength(y) == 365;
    } else if y % 4 == 0 {
      assert YearLength(y) == 366;
    } else {
      assert YearLength(y) == 365;
    }
  }

  lemma LeapDivisors(y: int)
    ensures y % 400 == 0 ==> y % 100 == 0
    ensures y % 100 == 0 ==> y % 4 == 0
  {
    if y % 400 == 0 {
      var q := y / 400;
      ModShift100(0, 4 * q);
    }
    if y % 100 == 0 {
      var q := y / 100;
      ModShift4(0, 25 * q);
    }
  }

  lemma CountStep4(y: nat)
    ensures (y + 4) / 4 - (y + 3) / 4 == if y % 4 == 0 then 1 else 0
  {
  }

  lemma CountStep100(y: nat)
    ensures (y + 100) / 100 - (y + 99) / 100 == if y % 100 == 0 then 1 else 0
  {
  }

  lemma CountStep400(y: nat)
    ensures (y + 400) / 400 - (y + 399) / 400 == if y % 400 == 0 then 1 else 0
  {
  }

  lemma DaysBeforeYearMono(y: nat, y': nat)
    requires y <= y'
    ensures DaysBeforeYear(y) + 365 * (y' - y) <= DaysBeforeYear(y')
    decreases y' - y
  {
    if y < y' {
      DaysBeforeYearMono(y, y' - 1);
      DaysBeforeYearStep(y' - 1);
    }
  }

  const EraDays := 146097
  /** Days from 0000-01-01 to 1970-01-01. */
  const DaysTo1970 := 719528

  /** The year of the era in which day `rem` of the era falls. */
  function YearInEra(rem: nat, y: nat): (r: nat)
    requires DaysBeforeYear(y) <= rem
    ensures y <= r
    ensures DaysBeforeYear(r) <= rem < DaysBeforeYear(r + 1)
    decreases rem - DaysBeforeYear(y)
  {
    DaysBeforeYearStep(y);
    if rem < DaysBeforeYear(y + 1) then y else YearInEra(rem, y + 1)
  }

  /** The month of year `y` in which day `doy` of the year falls. */
  function MonthInYear(y: int, doy: int, m: int): (r: int)
    requires 1 <= m <= 12
    requires DaysBeforeMonth(y, m) <= doy < YearLength(y)
    ensures m <= r <= 12
    ensures DaysBeforeMonth(y, r) <= doy < DaysBeforeMonth(y, r + 1)
    decreases 12 - m
  {
    DaysBeforeMonthYear(y);
    DaysBeforeMonthStep(y, m);
    if doy < DaysBeforeMonth(y, m + 1) then m else MonthInYear(y, doy, m + 1)
  }

  lemma LeapPeriodic(era: int, y: int)
    ensures IsLeap(era * 400 + y) == IsLeap(y)
    ensures YearLength(era * 400 + y) == YearLength(y)
  {
    var n := era * 400 + y;
    ModShift4(y, era * 100);
    ModShift100(y, era * 4);
    ModShift400(y, era);
  }

  lemma ModShift4(y: int, k: int)
    ensures (4 * k + y) % 4 == y % 4
  {
  }

  lemma ModShift100(y: int, k: int)
    ensures (100 * k + y) % 100 == y % 100
  {
  }

  lemma ModShift400(y: int, k: int)
    ensures (400 * k + y) % 400 == y % 400
  {
  }

  /** The date on day `rem` of the 400-year era `era`, era 0 starting on
      0000-01-01. */
  function CivilInEra(era: int, rem: int): (c: Civil)
    requires 0 <= rem < EraDays
    ensures ValidCivil(c)
  {
    var y := YearInEra(rem, 0);
    var year := era * 400 + y;
    var doy := rem - DaysBeforeYear(y);
    DaysBeforeYearStep(y);
    LeapPeriodic(era, y);
    var m := MonthInYear(year, doy, 1);
    DaysBeforeMonthStep(year, m);
    Civil(year, m, doy - DaysBeforeMonth(year, m) + 1)
  }

  /** The date `z` days after 1970-01-01 (before it, for negative `z`). */
  function CivilFromDays(z: int): (c: Civil)
    ensures ValidCivil(c)
  {
    var t := z + DaysTo1970;
    CivilInEra(t / EraDays, t % EraDays)
  }

  /** The day of its 400-year era on which a date falls. */
  function DayOfEra(c: Civil): int
    requires 1 <= c.month <= 12
  {
    DaysBeforeYear(c.year % 400) + DaysBeforeMonth(c.year, c.month) + c.day - 1
  }

  /** The number of days from 1970-01-01 to the date `c`. */
  function DaysFromCivil(c: Civil): int
    requires 1 <= c.month <= 12
  {
    EraDays * (c.year / 400) + DayOfEra(c) - DaysTo1970
  }

  lemma DivOf400(n: int, q: int, r: int)
    requires n == 400 * q + r && 0 <= r < 400
    ensures n / 400 == q && n % 400 == r
  {
  }

  lemma DivOfEra(n: int, q: int, r: int)
    requires n == EraDays * q + r && 0 <= r < EraDays
    ensures n / EraDays == q && n % EraDays == r
  {
  }

  lemma EraLength()
    ensures DaysBeforeYear(400) == EraDays
  {
  }

  /** The date on a day of an era lies in that era, on that day. */
  lemma CivilInEraParts(era: int, rem: int)
    requires 0 <= rem < EraDays
    ensures CivilInEra(era, rem).year / 400 == era
    ensures DayOfEra(CivilInEra(era, rem)) == rem
  {
    var y := YearInEra(rem, 0);
    EraLength();
    DivOf400(era * 400 + y, era, y);
  }

  /** A valid date is the date on its own day of its own era. */
  lemma CivilInEraOf(c: Civil)
    requires ValidCivil(c)
    ensures CivilInEra(c.year / 400, DayOfEra(c)) == c
  {
    var era := c.year / 400;
    var y := c.year % 400;
    var doy := DaysBeforeMonth(c.year, c.month) + c.day - 1;
    var rem := DayOfEra(c);
    DayOfEraBounds(c);
    YearInEraUnique(rem, y);
    assert era * 400 + y == c.year;
    assert rem - DaysBeforeYear(y) == doy;
    MonthInYearUnique(c.year, doy, c.month);
  }

  /** Converting a day count to a date and back gives the day count. */
  lemma {:induction false} DaysCivilRoundTrip(z: int)
    ensures DaysFromCivil(CivilFromDays(z)) == z
  {
    var t := z + DaysTo1970;
    var era, rem := t / EraDays, t % EraDays;
    EraSplit(t);
    CivilInEraParts(era, rem);
  }

  lemma EraSplit(t: int)
    ensures t == EraDays * (t / EraDays) + t % EraDays
    ensures 0 <= t % EraDays < EraDays
  {
  }

  /** A valid date converted to a day count and back gives the date. */
  lemma {:induction false} CivilDaysRoundTrip(c: Civil)
    requires ValidCivil(c)
    ensures CivilFromDays(DaysFromCivil(c)) == c
  {
    DayOfEraBounds(c);
    CivilFromDaysInEra(DaysFromCivil(c), c.year / 400, DayOfEra(c));
    CivilInEraOf(c);
  }

  lemma CivilFromDaysInEra(z: int, era: int, rem: int)
    requires 0 <= rem < EraDays && z + DaysTo1970 == EraDays * era + rem
    ensures CivilFromDays(z) == CivilInEra(era, rem)
  {
    DivOfEra(z + DaysTo1970, era, rem);
  }

  /** Where a valid date falls in its 400-year era. */
  lemma DayOfEraBounds(c: Civil)
    requires ValidCivil(c)
    ensures var y := c.year % 400;
            var doy := DaysBeforeMonth(c.year, c.month) + c.day - 1;
            && 0 <= doy < YearLength(c.year)
            && DaysBeforeMonth(c.year, c.month) <= doy < DaysBeforeMonth(c.year, c.month + 1)
            && DaysBeforeYear(y) + doy < DaysBeforeYear(y + 1)
            && DaysBeforeYear(y) + doy < EraDays
  {
    var era := c.year / 400;
    var y := c.year % 400;
    DaysBeforeMonthStep(c.year, c.month);
    DaysBeforeMonthMono(c.year, c.month + 1, 13);
    DaysBeforeMonthYear(c.year);
    assert c.year == era * 400 + y;
    LeapPeriodic(era, y);
    DaysBeforeYearStep(y);
    DaysBeforeYearMono(y + 1, 400);
    EraLength();
  }

  lemma YearInEraUnique(rem: nat, y: nat)
    requires DaysBeforeYear(y) <= rem < DaysBeforeYear(y + 1)
    ensures YearInEra(rem, 0) == y
  {
    var r := YearInEra(rem, 0);
    if r < y {
      DaysBeforeYearMono(r + 1, y);
    } else if r > y {
      DaysBeforeYearMono(y + 1, r);
    }
  }

  lemma MonthInYearUnique(year: int, doy: int, m: int)
    requires 1 <= m <= 12
    requires DaysBeforeMonth(year, m) <= doy < DaysBeforeMonth(year, m + 1)
    requires doy < YearLength(year)
    ensures MonthInYear(year, doy, 1) == m
  {
    var r := MonthInYear(year, doy, 1);
    if r < m {
      DaysBeforeMonthMono(year, r + 1, m);
    } else if r > m {
      DaysBeforeMonthMono(year, m + 1, r);
    }
  }

  /** The year as `toISOString` prints it: four digits for years 0 to
      9999, otherwise a sign and six digits. */
  function YearText(y: int): (r: string)
    requires -1_000_000 < y < 1_000_000
    ensures 0 <= y <= 9999 ==> |r| == 4 && AllDigits(r) && DigitsValue(r) == y
  {
    if 0 <= y <= 9999 then Digits(y, 4)
    else if y < 0 then "-" + Digits(-y, 6)
    else "+" + Digits(y, 6)
  }

  /** `date.toISOString().split('T')[0]`. */
  function IsoText(c: Civil): (r: string)
    requires ValidCivil(c)
    requires -1_000_000 < c.year < 1_000_000
  {
    YearText(c.year) + "-" + Digits(c.month, 2) + "-" + Digits(c.day, 2)
  }
}
