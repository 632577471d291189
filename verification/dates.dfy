/**
 The date normaliser used by the spreadsheet importer (`parseExcelDate`):
 it turns a cell into an ISO `YYYY-MM-DD` date and never fails, falling
 back on the sentinel `2000-01-01`.
 */
module Dates {
  import opened Wrappers
  import opened Text
  import opened Sheet
  import opened Calendar

  /** The date returned when nothing else applies. */
  const Sentinel := "2000-01-01"

  /** Spreadsheet serial day of 1970-01-01. */
  const SerialOf1970 := 25569

  /** A JavaScript `Date` holds at most 8.64e15 ms either side of 1970,
      which is 100 000 000 whole days. */
  const MaxDays := 100_000_000

  predicate IsSep(c: char) {
    c == '/' || c == '-'
  }

  /** The shape `YYYY-MM-DD` with ASCII digits. */
  predicate IsIsoDate(s: string) {
    && |s| == 10
    && AllDigits(s[..4]) && s[4] == '-'
    && AllDigits(s[5..7]) && s[7] == '-'
    && AllDigits(s[8..])
  }

  // ---- step 1: spreadsheet serial numbers ----

  /** `new Date(Math.round((n - 25569) * 86400 * 1000))` rendered by
      `toISOString().split('T')[0]`, or None when that `Date` is invalid. */
  function SerialDate(n: int): (r: Option<string>)
    ensures r.Some? <==> -MaxDays <= n - SerialOf1970 <= MaxDays
  {
    var z := n - SerialOf1970;
    if -MaxDays <= z <= MaxDays then
      var c := CivilFromDays(z);
      SerialYearBound(z);
      Some(IsoText(c))
    else None
  }

  lemma SerialYearBound(z: int)
    requires -MaxDays <= z <= MaxDays
    ensures -1_000_000 < CivilFromDays(z).year < 1_000_000
  {
    var c := CivilFromDays(z);
    DaysCivilRoundTrip(z);
    if c.year >= 1_000_000 {
      DaysFromCivilAtLeast(c);
    } else if c.year <= -1_000_000 {
      DaysFromCivilAtMost(c);
    }
  }

  lemma DaysFromCivilAtLeast(c: Civil)
    requires ValidCivil(c) && c.year >= 1_000_000
    ensures DaysFromCivil(c) > MaxDays
  {
    assert c.year / 400 >= 2500;
  }

  lemma DaysFromCivilAtMost(c: Civil)
    requires ValidCivil(c) && c.year <= -1_000_000
    ensures DaysFromCivil(c) < -MaxDays
  {
    assert c.year / 400 <= -2500;
    assert DaysBeforeYear(c.year % 400) <= DaysBeforeYear(400) by {
      DaysBeforeYearMono(c.year % 400, 400);
    }
    assert DaysBeforeMonth(c.year, c.month) <= 366;
  }

  // ---- steps 2 and 3: the two regular expressions ----

  datatype DateParts = DateParts(year: string, month: string, day: string)

  /** `/^(\d{1,2})[\/\-](\d{1,2})[\/\-](\d{4})/` matches `s` with a day of
      `a` digits and a month of `b` digits. */
  predicate DayFirstAt(s: string, a: int, b: int) {
    && 1 <= a <= 2 && 1 <= b <= 2 && a + b + 6 <= |s|
    && AllDigits(s[..a]) && IsSep(s[a])
    && AllDigits(s[a + 1..a + 1 + b]) && IsSep(s[a + 1 + b])
    && AllDigits(s[a + b + 2..a + b + 6])
  }

  /** `/^(\d{4})[\/\-](\d{1,2})[\/\-](\d{1,2})/` matches `s` with a month
      of `b` digits and a greedily captured day of `c` digits. */
  predicate YearFirstAt(s: string, b: int, c: int) {
    && 1 <= b <= 2 && 1 <= c <= 2 && b + c + 6 <= |s|
    && AllDigits(s[..4]) && IsSep(s[4])
    && AllDigits(s[5..5 + b]) && IsSep(s[5 + b])
    && AllDigits(s[b + 6..b + 6 + c])
    && (c == 2 || b + c + 6 == |s| || !IsDigit(s[b + c + 6]))
  }

  predicate DayFirst(s: string) {
    exists a, b | 1 <= a <= 2 && 1 <= b <= 2 :: DayFirstAt(s, a, b)
  }

  predicate YearFirst(s: string) {
    exists b, c | 1 <= b <= 2 && 1 <= c <= 2 :: YearFirstAt(s, b, c)
  }

  /** The captures of the day-first expression at day length `a` and
      month length `b`. */
  function DayFirstParts(s: string, a: int, b: int): DateParts
    requires DayFirstAt(s, a, b)
  {
    DateParts(s[a + b + 2..a + b + 6], s[a + 1..a + 1 + b], s[..a])
  }

  /** The captures of the day-first expression, if it matches. The day
      and month lengths of a match are forced (a separator must follow
      the digits), so trying the four of them finds the match the regular
      expression engine finds. */
  function MatchDayFirst(s: string): (r: Option<DateParts>)
    ensures r.Some? <==> DayFirst(s)
    ensures r.Some? ==> DayFirstAt(s, |r.value.day|, |r.value.month|)
    ensures r.Some? ==> r.value == DayFirstParts(s, |r.value.day|, |r.value.month|)
  {
    if DayFirstAt(s, 2, 2) then Some(DayFirstParts(s, 2, 2))
    else if DayFirstAt(s, 2, 1) then Some(DayFirstParts(s, 2, 1))
    else if DayFirstAt(s, 1, 2) then Some(DayFirstParts(s, 1, 2))
    else if DayFirstAt(s, 1, 1) then Some(DayFirstParts(s, 1, 1))
    else None
  }

  /** The captures of the year-first expression at month length `b` and
      day length `c`. */
  function YearFirstParts(s: string, b: int, c: int): DateParts
    requires YearFirstAt(s, b, c)
  {
    DateParts(s[..4], s[5..5 + b], s[b + 6..b + 6 + c])
  }

  /** The captures of the year-first expression, if it matches; as for
      the day-first form, at most one pair of lengths fits. */
  function MatchYearFirst(s: string): (r: Option<DateParts>)
    ensures r.Some? <==> YearFirst(s)
    ensures r.Some? ==> YearFirstAt(s, |r.value.month|, |r.value.day|)
    ensures r.Some? ==> r.value == YearFirstParts(s, |r.value.month|, |r.value.day|)
  {
    if YearFirstAt(s, 2, 2) then Some(YearFirstParts(s, 2, 2))
    else if YearFirstAt(s, 2, 1) then Some(YearFirstParts(s, 2, 1))
    else if YearFirstAt(s, 1, 2) then Some(YearFirstParts(s, 1, 2))
    else if YearFirstAt(s, 1, 1) then Some(YearFirstParts(s, 1, 1))
    else None
  }

  /** The day-first shape fixes the day and month lengths. */
  lemma DayFirstUnique(s: string, a: int, b: int, a': int, b': int)
    requires DayFirstAt(s, a, b) && DayFirstAt(s, a', b')
    ensures a == a' && b == b'
  {
  }

  /** The year-first shape fixes the month and day lengths. */
  lemma YearFirstUnique(s: string, b: int, c: int, b': int, c': int)
    requires YearFirstAt(s, b, c) && YearFirstAt(s, b', c')
    ensures b == b' && c == c'
  {
  }

  /** The `${year}-${month}-${day}` reassembly with day and month padded. */
  function Assemble(p: DateParts): string {
    p.year + "-" + Pad2(p.month) + "-" + Pad2(p.day)
  }

  // ---- the normaliser ----

  /** Steps 2 to 5 of `parseExcelDate` on the trimmed text `t` of a cell:
      day-first, then year-first, then the engine's own parser. */
  function NormalizeText(t: string, freeText: string -> Option<string>): (r: string)
    ensures DayFirst(t) ==> IsIsoDate(r)
    ensures !DayFirst(t) && YearFirst(t) ==> IsIsoDate(r)
    ensures !DayFirst(t) && !YearFirst(t) ==> r == freeText(t).GetOr(Sentinel)
  {
    match MatchDayFirst(t)
    case Some(p) => AssembleIso(t, p); Assemble(p)
    case None =>
      match MatchYearFirst(t)
      case Some(p) => AssembleIso(t, p); Assemble(p)
      case None => freeText(t).GetOr(Sentinel)
  }

  lemma AssembleIso(t: string, p: DateParts)
    requires |p.year| == 4 && AllDigits(p.year)
    requires 1 <= |p.month| <= 2 && AllDigits(p.month)
    requires 1 <= |p.day| <= 2 && AllDigits(p.day)
    ensures IsIsoDate(Assemble(p))
  {
    var r := Assemble(p);
    var m, d := Pad2(p.month), Pad2(p.day);
    assert r[..4] == p.year;
    assert r[5..7] == m;
    assert r[8..] == d;
  }

  /** `parseExcelDate(v)`. `freeText` stands for the `new Date(str)`
      fallback: it gives the date part of the parsed date, or None when the
      engine cannot parse `str`. */
  function NormalizeDate(v: Cell, freeText: string -> Option<string>): (r: string)
    ensures !Truthy(v) ==> r == Sentinel
    ensures v.Str? && AllSpace(v.s) ==> r == Sentinel
    ensures v.Num? && v.n != 0 && -MaxDays <= v.n - SerialOf1970 <= MaxDays ==>
      r == IsoText(CivilFromDays(v.n - SerialOf1970))
    ensures v.Num? && v.n != 0 && !(-MaxDays <= v.n - SerialOf1970 <= MaxDays) ==>
      r == NormalizeText(Trim(IntToString(v.n)), freeText)
    ensures v.Str? && !AllSpace(v.s) ==> r == NormalizeText(Trim(v.s), freeText)
  {
    if !Truthy(v) then Sentinel
    else
      var serial := if v.Num? then SerialDate(v.n) else None;
      if serial.Some? then serial.value
      else
        assert v.Num? ==> !IsSpace(Show(v)[0]);
        var str := Trim(Show(v));
        if str == "" then Sentinel
        else NormalizeText(str, freeText)
  }
}

/** Properties of the date normaliser. */
module DateLaws {
  import opened Wrappers
  import opened Text
  import opened Sheet
  import opened Calendar
  import opened Dates

  lemma DayFirstMatch(t: string, a: int, b: int)
    requires DayFirstAt(t, a, b)
    ensures MatchDayFirst(t) == Some(DayFirstParts(t, a, b))
  {
    var p := MatchDayFirst(t).value;
    DayFirstUnique(t, a, b, |p.day|, |p.month|);
  }

  lemma YearFirstMatch(t: string, b: int, c: int)
    requires YearFirstAt(t, b, c)
    ensures MatchYearFirst(t) == Some(YearFirstParts(t, b, c))
  {
    var p := MatchYearFirst(t).value;
    YearFirstUnique(t, b, c, |p.month|, |p.day|);
  }

  /** Trimmed text starting `D[/-]M[/-]YYYY` (one or two digits for day
      and month) normalises to `YYYY-MM-DD`, day and month zero-padded,
      whatever follows the year. */
  lemma {:induction false} DayFirstRule(t: string, freeText: string -> Option<string>, a: int, b: int)
    requires 1 <= a <= 2 && 1 <= b <= 2 && DayFirstAt(t, a, b)
    ensures NormalizeText(t, freeText) == t[a + b + 2..a + b + 6] + "-" + Pad2(t[a + 1..a + 1 + b]) + "-" + Pad2(t[..a])
  {
    DayFirstMatch(t, a, b);
  }

  /** When the day-first form does not match, trimmed text starting
      `YYYY[/-]M[/-]D` normalises to `YYYY-MM-DD`; the day takes two digits
      when two are there. */
  lemma {:induction false} YearFirstRule(t: string, freeText: string -> Option<string>, b: int, c: int)
    requires !DayFirst(t)
    requires 1 <= b <= 2 && 1 <= c <= 2 && YearFirstAt(t, b, c)
    ensures NormalizeText(t, freeText) == t[..4] + "-" + Pad2(t[5..5 + b]) + "-" + Pad2(t[b + 6..b + 6 + c])
  {
    assert MatchDayFirst(t).None?;
    YearFirstMatch(t, b, c);
  }

  lemma Example1Text()
    ensures var t := "01-02-2020";
      DayFirstAt(t, 2, 2) && t[6..10] + "-" + Pad2(t[3..5]) + "-" + Pad2(t[..2]) == "2020-02-01"
  {
    var t := "01-02-2020";
    assert t[..2] == "01" && t[3..5] == "02" && t[6..10] == "2020";
  }

  /** Day-first wins: `01-02-2020` is the first of February. */
  lemma DayFirstWins(freeText: string -> Option<string>)
    ensures NormalizeText("01-02-2020", freeText) == "2020-02-01"
  {
    Example1Text();
    DayFirstRule("01-02-2020", freeText, 2, 2);
  }

  lemma Example2Text()
    ensures var t := "5/3/2021";
      DayFirstAt(t, 1, 1) && t[4..8] + "-" + Pad2(t[2..3]) + "-" + Pad2(t[..1]) == "2021-03-05"
  {
    var t := "5/3/2021";
    assert t[..1] == "5" && t[2..3] == "3" && t[4..8] == "2021";
  }

  /** Slashes separate as dashes do, and a one-digit day and month are
      zero-padded. */
  lemma PaddedDayFirst(freeText: string -> Option<string>)
    ensures NormalizeText("5/3/2021", freeText) == "2021-03-05"
  {
    Example2Text();
    DayFirstRule("5/3/2021", freeText, 1, 1);
  }

  lemma Example3Text()
    ensures var t := "2021/3/5";
      !DayFirst(t) && YearFirstAt(t, 1, 1) && t[..4] + "-" + Pad2(t[5..6]) + "-" + Pad2(t[7..8]) == "2021-03-05"
  {
    var t := "2021/3/5";
    assert t[..4] == "2021" && t[5..6] == "3" && t[7..8] == "5";
    assert IsDigit(t[..4][1]) && IsDigit(t[..4][2]);
  }

  /** Year-first text is read as year, month, day. */
  lemma YearFirstExample(freeText: string -> Option<string>)
    ensures NormalizeText("2021/3/5", freeText) == "2021-03-05"
  {
    Example3Text();
    YearFirstRule("2021/3/5", freeText, 1, 1);
  }

  lemma TrimIso(x: string)
    requires IsIsoDate(x)
    ensures Trim(x) == x && !AllSpace(x)
  {
    assert IsDigit(x[..4][0]) && IsDigit(x[8..][1]);
    DigitNotSpace(x[0]);
    DigitNotSpace(x[9]);
    TrimTrimmed(x);
  }

  lemma IsoNotDayFirst(x: string)
    requires IsIsoDate(x)
    ensures !DayFirst(x)
  {
    assert IsDigit(x[..4][1]) && IsDigit(x[..4][2]);
  }

  lemma IsoYearFirst(x: string)
    requires IsIsoDate(x)
    ensures YearFirstAt(x, 2, 2)
    ensures x == x[..4] + "-" + Pad2(x[5..7]) + "-" + Pad2(x[8..10])
  {
    assert x[8..] == x[8..10];
    assert x == x[..4] + "-" + x[5..7] + "-" + x[8..10];
  }

  /** An ISO date is a fixed point: normalising its text gives it back. */
  lemma {:induction false} IsoFixedPoint(x: string, freeText: string -> Option<string>)
    requires IsIsoDate(x)
    ensures NormalizeDate(Str(x), freeText) == x
  {
    TrimIso(x);
    IsoNotDayFirst(x);
    IsoYearFirst(x);
    YearFirstRule(x, freeText, 2, 2);
  }

  /** Normalising twice is normalising once, whenever the first pass
      produced an ISO date (which every pattern branch and the sentinel
      do). */
  lemma Idempotent(v: Cell, freeText: string -> Option<string>)
    requires IsIsoDate(NormalizeDate(v, freeText))
    ensures NormalizeDate(Str(NormalizeDate(v, freeText)), freeText) == NormalizeDate(v, freeText)
  {
    IsoFixedPoint(NormalizeDate(v, freeText), freeText);
  }

  lemma SentinelIsIso()
    ensures IsIsoDate(Sentinel)
  {
  }

  /** Falsy and blank inputs give the sentinel. */
  lemma BlankInputs(freeText: string -> Option<string>)
    ensures NormalizeDate(Blank, freeText) == Sentinel
    ensures NormalizeDate(Str(""), freeText) == Sentinel
    ensures NormalizeDate(Num(0), freeText) == Sentinel
    ensures NormalizeDate(Str(" \t "), freeText) == Sentinel
  {
  }

  /** The year, month and day written in an ISO date, as a day count. */
  function IsoDays(x: string): int
    requires IsIsoDate(x)
    requires 1 <= DigitsValue(x[5..7]) <= 12
  {
    DaysFromCivil(Civil(DigitsValue(x[..4]), DigitsValue(x[5..7]), DigitsValue(x[8..])))
  }

  /** The text of a civil date with a four-digit year reads back as that
      date. */
  lemma IsoTextReads(c: Civil)
    requires ValidCivil(c) && 0 <= c.year <= 9999
    ensures var r := IsoText(c);
      IsIsoDate(r) && DigitsValue(r[..4]) == c.year && DigitsValue(r[5..7]) == c.month && DigitsValue(r[8..]) == c.day
  {
    var r := IsoText(c);
    var y, m, d := YearText(c.year), Digits(c.month, 2), Digits(c.day, 2);
    assert r[..4] == y && r[5..7] == m && r[8..] == d;
  }

  /** A spreadsheet serial number whose date has a four-digit year
      normalises to an ISO date that reads back as the same day: serial
      `n` is `n - 25569` days after 1970-01-01. */
  lemma {:induction false} SerialRoundTrip(n: int, freeText: string -> Option<string>)
    requires n != 0 && -MaxDays <= n - SerialOf1970 <= MaxDays
    requires 0 <= CivilFromDays(n - SerialOf1970).year <= 9999
    ensures var r := NormalizeDate(Num(n), freeText);
      IsIsoDate(r) && 1 <= DigitsValue(r[5..7]) <= 12 && IsoDays(r) == n - SerialOf1970
  {
    var z := n - SerialOf1970;
    var c := CivilFromDays(z);
    IsoTextReads(c);
    DaysCivilRoundTrip(z);
  }

  lemma SerialExampleDays()
    ensures ValidCivil(Civil(2019, 4, 12))
    ensures DaysFromCivil(Civil(2019, 4, 12)) == 43567 - SerialOf1970
  {
    assert DaysBeforeYear(19) == 6940;
  }

  lemma SerialExampleText()
    ensures IsoText(Civil(2019, 4, 12)) == "2019-04-12"
  {
    YearDigitsExample();
    MonthDigitsExample();
  }

  lemma MonthDigitsExample()
    ensures Digits(4, 2) == "04" && Digits(12, 2) == "12"
  {
    assert Digits(1, 1) == "1";
  }

  lemma YearDigitsExample()
    ensures Digits(2019, 4) == "2019"
  {
    assert Digits(20, 2) == "20";
    assert Digits(201, 3) == "201";
  }

  /** Serial 43567 is 12 April 2019 (serial 43466 being 1 January 2019). */
  lemma SerialExample(freeText: string -> Option<string>)
    ensures NormalizeDate(Num(43567), freeText) == "2019-04-12"
  {
    SerialExampleDays();
    CivilDaysRoundTrip(Civil(2019, 4, 12));
    SerialExampleText();
  }
}
