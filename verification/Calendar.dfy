/** The civil calendar: seconds since 1970 to date and time and back. */
module Calendar {

  /** C division and remainder, which truncate toward zero. */
  function TruncDiv(a: int, b: int): int
    requires b > 0
  {
    if a >= 0 then a / b else -((-a) / b)
  }

  function TruncMod(a: int, b: int): int
    requires b > 0
  {
    a - TruncDiv(a, b) * b
  }

  /** `floor_div`: corrects the truncated quotient by one where the remainder has the wrong sign. */
  function FloorDiv(a: int, b: int): (q: int)
    requires b > 0
    ensures q * b <= a < q * b + b
  {
    var q, r := TruncDiv(a, b), TruncMod(a, b);
    TruncBounds(a, b);
    if r != 0 && (r > 0) != (b > 0) then q - 1 else q
  }

  function FloorMod(a: int, b: int): (r: int)
    requires b > 0
    ensures 0 <= r < b && a == FloorDiv(a, b) * b + r
  {
    var r := TruncMod(a, b);
    TruncBounds(a, b);
    if r != 0 && (r > 0) != (b > 0) then r + b else r
  }

  lemma TruncBounds(a: int, b: int)
    requires b > 0
    ensures -b < TruncMod(a, b) < b && (a >= 0 ==> TruncMod(a, b) >= 0) && (a <= 0 ==> TruncMod(a, b) <= 0)
  {
    if a < 0 {
      assert (-a) / b * b + (-a) % b == -a;
    }
  }

  datatype DateTime = DateTime(year: int, month: int, day: int, hour: int, minute: int, second: int)

  /** A value cut to 32 bits, as a two's-complement int. */
  function Int32(x: int): int
  {
    var w := x % 0x1_0000_0000;
    if w < 0x8000_0000 then w else w - 0x1_0000_0000
  }

  predicate FitsInt32(x: int) { -0x8000_0000 <= x < 0x8000_0000 }

  // ---------- the conversion of the source ----------

  function Era(z: int): int { TruncDiv(if z >= 0 then z else z - 146096, 146097) }

  function Yoe(doe: nat): int { (doe - doe / 1460 + doe / 36524 - doe / 146096) / 365 }

  function Doy(doe: nat, yoe: int): int { doe - (365 * yoe + yoe / 4 - yoe / 100) }

  function Mp(doy: int): int { (5 * doy + 2) / 153 }

  function DayOf(doy: int): int { doy - (153 * Mp(doy) + 2) / 5 + 1 }

  function MonthOf(doy: int): int { if Mp(doy) < 10 then Mp(doy) + 3 else Mp(doy) - 9 }

  /** The year before it is cut to an int. */
  function WideYear(days: int): int
  {
    var z := days + 719468;
    var era := Era(z);
    EraBounds(z);
    var yoe := Yoe(z - era * 146097);
    yoe + era * 400 + (if MonthOf(Doy(z - era * 146097, yoe)) <= 2 then 1 else 0)
  }

  function CivilFromDays(days: int): (int, int, int)
  {
    var z := days + 719468;
    var era := Era(z);
    EraBounds(z);
    var doe := z - era * 146097;
    var doy := Doy(doe, Yoe(doe));
    (Int32(WideYear(days)), MonthOf(doy), DayOf(doy))
  }

  function UnixToDateTime(ts: int): DateTime
  {
    var days, rem := FloorDiv(ts, 86400), FloorMod(ts, 86400);
    var (y, m, d) := CivilFromDays(days);
    DateTime(y, m, d, rem / 3600, rem % 3600 / 60, rem % 60)
  }

  lemma EraBounds(z: int)
    ensures 0 <= z - Era(z) * 146097 < 146097
  {
  }

  // ---------- the calendar, independently of it ----------

  predicate Leap(y: int) { y % 4 == 0 && (y % 100 != 0 || y % 400 == 0) }

  function DaysIn(y: int, m: int): int
    requires 1 <= m <= 12
  {
    if m == 2 then (if Leap(y) then 29 else 28) else if m == 4 || m == 6 || m == 9 || m == 11 then 30 else 31
  }

  predicate ValidDate(y: int, m: int, d: int) { 1 <= m <= 12 && 1 <= d <= DaysIn(y, m) }

  predicate Valid(t: DateTime)
  {
    ValidDate(t.year, t.month, t.day) && 0 <= t.hour < 24 && 0 <= t.minute < 60 && 0 <= t.second < 60
  }

  /** The days of year y before month m. */
  function DaysBefore(y: int, m: int): int
    requires 1 <= m <= 12
  {
    if m == 1 then 0 else DaysBefore(y, m - 1) + DaysIn(y, m - 1)
  }

  /** Days from 1 January 1970 to 1 January of year y, by the terms of "Seconds Since the Epoch" (section 4.16 of POSIX.1-2017 XBD). */
  function YearStart(y: int): int
  {
    (y - 1970) * 365 + (y - 1969) / 4 - (y - 1901) / 100 + (y - 1601) / 400
  }

  function DayNumber(y: int, m: int, d: int): int
    requires 1 <= m <= 12
  {
    YearStart(y) + DaysBefore(y, m) + d - 1
  }

  /** Seconds since the Epoch of a broken-down time. */
  function Seconds(t: DateTime): int
    requires 1 <= t.month <= 12
  {
    DayNumber(t.year, t.month, t.day) * 86400 + t.hour * 3600 + t.minute * 60 + t.second
  }

  // ---------- the two agree ----------

  function Start(y: int): int { 365 * y + y / 4 - y / 100 }

  /** Inside a four-year cycle of a century: the year, from the day e of the cycle. */
  lemma CycleYear(c: int, k: int, e: int)
    requires 0 <= c <= 3 && 0 <= k <= 24 && 0 <= e <= 1460
    ensures (1460 * k + e + (k + 24 * c + 1460 * 25 * c)) >= 0
    ensures var d := 1461 * k + e;
      (d - (d + 24 * c) / 1460) / 365 == 4 * k + (if e / 365 < 3 then e / 365 else 3)
  {
    var d := 1461 * k + e;
    assert d + 24 * c == 1460 * k + (k + e + 24 * c);
    if k + e + 24 * c < 1460 {
      assert (d + 24 * c) / 1460 == k;
      assert (1460 * k + e) / 365 == 4 * k + e / 365;
    } else {
      assert (d + 24 * c) / 1460 == k + 1;
      assert (1460 * k + (e - 1)) / 365 == 4 * k + (e - 1) / 365;
    }
  }

  function CycleOf(e: int): int { if e / 365 < 3 then e / 365 else 3 }

  lemma CenturyDays(c: int, k: int, e: int, doe: nat)
    requires 0 <= c <= 3 && 0 <= k <= 24 && 0 <= e <= 1460 && doe == 36524 * c + 1461 * k + e && doe < 36524 * (c + 1)
    ensures doe / 36524 == c && doe / 146096 == 0 && doe / 1460 == 25 * c + (1461 * k + e + 24 * c) / 1460
  {
    var d := 1461 * k + e;
    assert doe == 36524 * c + d && 0 <= d < 36524;
    assert doe == 1460 * (25 * c) + (d + 24 * c);
  }

  lemma YearParts(c: int, k: int, y: int)
    requires 0 <= c <= 3 && 0 <= k <= 24 && 0 <= y <= 3
    ensures (100 * c + 4 * k + y) / 4 == 25 * c + k && (100 * c + 4 * k + y) / 100 == c
  {
  }

  /** The year of the era, by centuries and four-year cycles. */
  lemma YoeByCycles(c: int, k: int, e: int, doe: nat)
    requires 0 <= c <= 3 && 0 <= k <= 24 && 0 <= e <= 1460 && doe == 36524 * c + 1461 * k + e && doe < 36524 * (c + 1)
    ensures Yoe(doe) == 100 * c + 4 * k + CycleOf(e) && Doy(doe, Yoe(doe)) == e - 365 * CycleOf(e)
  {
    CenturyDays(c, k, e, doe);
    CycleYear(c, k, e);
    var x := (1461 * k + e + 24 * c) / 1460;
    assert doe - doe / 1460 + doe / 36524 - doe / 146096 == 365 * (100 * c) + (1461 * k + e - x);
    assert Yoe(doe) == 100 * c + (1461 * k + e - x) / 365;
    YearParts(c, k, CycleOf(e));
  }

  /** The year of the era and the day of that year, counted from 1 March. */
  lemma YoeIsRight(doe: nat)
    requires doe < 146097
    ensures 0 <= Yoe(doe) <= 399 && 0 <= Doy(doe, Yoe(doe)) <= 365
    ensures Doy(doe, Yoe(doe)) == 365 ==> Leap(Yoe(doe) + 1)
  {
    if doe != 146096 {
      hide Yoe, Doy, Leap;
      var c := doe / 36524;
      var d := doe - 36524 * c;
      var k := d / 1461;
      var e := d - 1461 * k;
      YoeByCycles(c, k, e, doe);
      if e == 1460 {
        LeapFourth(c, k);
      }
    }
  }

  lemma LeapFourth(c: int, k: int)
    requires 0 <= c <= 3 && 0 <= k <= 23
    ensures Leap(100 * c + 4 * k + 4)
  {
  }

  // ---------- months ----------

  /** Days of a year that starts on 1 March, before its month mp. */
  function MarchDays(mp: int): int { (153 * mp + 2) / 5 }

  /** Day of the March year to month and day. */
  lemma MonthIsRight(doy: int, y: int)
    requires 0 <= doy <= 365 && (doy == 365 ==> Leap(y + 1))
    ensures 0 <= Mp(doy) <= 11 && 1 <= MonthOf(doy) <= 12
    ensures var yr := if MonthOf(doy) <= 2 then y + 1 else y;
      && ValidDate(yr, MonthOf(doy), DayOf(doy))
      && DaysBefore(yr, MonthOf(doy)) + DayOf(doy) - 1 == if MonthOf(doy) <= 2 then doy - 306 else doy + 59 + (if Leap(yr) then 1 else 0)
  {
    MarchMonth(doy);
    var yr := if MonthOf(doy) <= 2 then y + 1 else y;
    Cumulated(yr);
  }

  lemma MarchMonth(doy: int)
    requires 0 <= doy <= 365
    ensures 0 <= Mp(doy) <= 11 && MarchDays(Mp(doy)) <= doy < MarchDays(Mp(doy) + 1)
  {
  }

  lemma Cumulated(y: int)
    ensures var x := if Leap(y) then 1 else 0;
      && DaysBefore(y, 1) == 0 && DaysBefore(y, 2) == 31 && DaysBefore(y, 3) == 59 + x && DaysBefore(y, 4) == 90 + x
      && DaysBefore(y, 5) == 120 + x && DaysBefore(y, 6) == 151 + x && DaysBefore(y, 7) == 181 + x && DaysBefore(y, 8) == 212 + x
      && DaysBefore(y, 9) == 243 + x && DaysBefore(y, 10) == 273 + x && DaysBefore(y, 11) == 304 + x && DaysBefore(y, 12) == 334 + x
  {
    hide Leap;
    assert DaysBefore(y, 4) == DaysBefore(y, 3) + 31;
    assert DaysBefore(y, 7) == DaysBefore(y, 6) + 30 == DaysBefore(y, 5) + 61;
    assert DaysBefore(y, 10) == DaysBefore(y, 9) + 30 == DaysBefore(y, 8) + 61;
  }

  // ---------- years ----------

  lemma Shift4(x: int, k: int)
    ensures (x + 4 * k) / 4 == x / 4 + k && (x + 4 * k) % 4 == x % 4
  {
  }

  lemma Shift100(x: int, k: int)
    ensures (x + 100 * k) / 100 == x / 100 + k && (x + 100 * k) % 100 == x % 100
  {
  }

  lemma Shift400(x: int, k: int)
    ensures (x + 400 * k) / 400 == x / 400 + k && (x + 400 * k) % 400 == x % 400
  {
  }

  lemma EraShift(y: int, era: int)
    ensures YearStart(y + 400 * era) == YearStart(y) + 146097 * era
  {
    Shift4(y - 1969, 100 * era);
    Shift100(y - 1901, 4 * era);
    Shift400(y - 1601, era);
  }

  lemma EraLeap(y: int, era: int)
    ensures Leap(y + 400 * era) == Leap(y)
  {
    Shift4(y, 100 * era);
    Shift100(y, 4 * era);
    Shift400(y, era);
  }

  lemma Next4(x: int)
    ensures (x + 1) / 4 == x / 4 + (if (x + 1) % 4 == 0 then 1 else 0)
  {
  }

  lemma Next100(x: int)
    ensures (x + 1) / 100 == x / 100 + (if (x + 1) % 100 == 0 then 1 else 0)
  {
  }

  lemma Next400(x: int)
    ensures (x + 1) / 400 == x / 400 + (if (x + 1) % 400 == 0 then 1 else 0)
  {
  }

  lemma Nested(y: int)
    ensures (y % 100 == 0 ==> y % 4 == 0) && (y % 400 == 0 ==> y % 100 == 0)
  {
    assert y % 100 == 0 ==> y == 4 * (25 * (y / 100));
    assert y % 400 == 0 ==> y == 100 * (4 * (y / 400));
  }

  lemma YearLength(y: int)
    ensures YearStart(y + 1) == YearStart(y) + 365 + (if Leap(y) then 1 else 0)
  {
    Next4(y - 1969);
    Next100(y - 1901);
    Next400(y - 1601);
    Shift4(y, -492);
    Shift100(y, -19);
    Shift400(y, -4);
    Nested(y);
  }

  lemma MarchStart(yoe: int)
    requires 0 <= yoe <= 399
    ensures YearStart(yoe + 1) == Start(yoe) - 719162
  {
    Shift4(yoe, -492);
    Shift100(yoe, -19);
    Shift400(yoe, -4);
  }

  /** The day number of a date in the era that starts on 1 March of year 0. */
  lemma EraDay(doe: nat)
    requires doe < 146097
    ensures var yoe := Yoe(doe);
      var doy := Doy(doe, yoe);
      var y := if MonthOf(doy) <= 2 then yoe + 1 else yoe;
      && 1 <= MonthOf(doy) <= 12 && ValidDate(y, MonthOf(doy), DayOf(doy))
      && DayNumber(y, MonthOf(doy), DayOf(doy)) == doe - 719468
  {
    hide Yoe, Mp, DayOf, MonthOf, DaysBefore, YearStart, Leap, DaysIn;
    var yoe := Yoe(doe);
    var doy := Doy(doe, yoe);
    YoeIsRight(doe);
    MonthIsRight(doy, yoe);
    MarchStart(yoe);
    YearLength(yoe);
  }

  /** The date of a day, in a year not yet cut to an int, is valid and is that day. */
  lemma DaysRoundTrip(days: int)
    ensures var (_, m, d) := CivilFromDays(days);
      ValidDate(WideYear(days), m, d) && DayNumber(WideYear(days), m, d) == days
  {
    hide Yoe, Doy, DayOf, MonthOf, DaysBefore, YearStart, DaysIn, Int32, Era;
    var z := days + 719468;
    var era := Era(z);
    EraBounds(z);
    var doe := z - era * 146097;
    var yoe := Yoe(doe);
    var doy := Doy(doe, yoe);
    EraDay(doe);
    var y := if MonthOf(doy) <= 2 then yoe + 1 else yoe;
    EraShift(y, era);
    SameYearShape(y, era, MonthOf(doy));
  }

  /** Years that differ by whole eras are alike. */
  lemma SameYearShape(y: int, era: int, m: int)
    requires 1 <= m <= 12
    ensures DaysIn(y + 400 * era, m) == DaysIn(y, m) && DaysBefore(y + 400 * era, m) == DaysBefore(y, m)
  {
    hide Leap;
    EraLeap(y, era);
    Cumulated(y);
    Cumulated(y + 400 * era);
  }

  lemma TimeRoundTrip(ts: int)
    ensures var rem := FloorMod(ts, 86400);
      && 0 <= rem / 3600 < 24 && 0 <= rem % 3600 / 60 < 60 && 0 <= rem % 60 < 60
      && rem / 3600 * 3600 + rem % 3600 / 60 * 60 + rem % 60 == rem
  {
  }

  /** The first second of year -2^31, and the first of year 2^31. */
  const FIRST_SECOND: int := -67768100567971200
  const END_SECOND: int := 67767976233532800

  /** The second counts whose year a 32-bit int holds, as a caller can tell beforehand. */
  predicate YearFits(ts: int) { FIRST_SECOND <= ts < END_SECOND }

  lemma YearFitsIff(ts: int)
    ensures FIRST_SECOND == YearStart(-0x8000_0000) * 86400 && END_SECOND == YearStart(0x8000_0000) * 86400
    ensures YearFits(ts) <==> FitsInt32(WideYear(FloorDiv(ts, 86400)))
  {
    hide CivilFromDays, WideYear, FloorDiv, DaysBefore, DaysIn, Leap;
    var days := FloorDiv(ts, 86400);
    var y := WideYear(days);
    DayInYear(y, days);
    YearsInOrder(-0x8000_0000, y);
    YearsInOrder(0x8000_0000, y);
  }

  /** A day lies in the year that the conversion gives. */
  lemma DayInYear(y: int, days: int)
    requires y == WideYear(days)
    ensures YearStart(y) <= days < YearStart(y + 1)
  {
    hide CivilFromDays, WideYear, YearStart, Leap;
    DaysRoundTrip(days);
    var m := CivilFromDays(days).1;
    DaysBeforeRange(y, m);
    YearLength(y);
  }

  lemma YearsInOrder(a: int, y: int)
    ensures y < a ==> YearStart(y + 1) <= YearStart(a)
    ensures a <= y ==> YearStart(a) <= YearStart(y)
  {
    hide YearStart;
    if y + 1 < a {
      YearsApart(y + 1, a);
    } else if a < y {
      YearsApart(a, y);
    }
  }

  /** Every second count whose year fits an int becomes a valid date and time that stands for exactly that second. */
  lemma SecondsRoundTrip(ts: int)
    requires YearFits(ts)
    ensures Valid(UnixToDateTime(ts)) && Seconds(UnixToDateTime(ts)) == ts
  {
    hide CivilFromDays, WideYear, DayNumber, FloorMod, FloorDiv, YearFits;
    YearFitsIff(ts);
    DaysRoundTrip(FloorDiv(ts, 86400));
    TimeRoundTrip(ts);
    CivilYear(FloorDiv(ts, 86400));
  }

  lemma CivilYear(days: int)
    ensures CivilFromDays(days).0 == Int32(WideYear(days))
  {
  }

  /** Years apart are far apart. */
  lemma {:induction false} YearsApart(y1: int, y2: int)
    requires y1 < y2
    ensures YearStart(y1) + 365 * (y2 - y1) <= YearStart(y2)
    decreases y2 - y1
  {
    YearLength(y1);
    if y1 + 1 < y2 {
      YearsApart(y1 + 1, y2);
    }
  }

  lemma DaysBeforeRange(y: int, m: int)
    requires 1 <= m <= 12
    ensures 0 <= DaysBefore(y, m) && DaysBefore(y, m) + DaysIn(y, m) <= 365 + (if Leap(y) then 1 else 0)
    ensures m < 12 ==> DaysBefore(y, m + 1) == DaysBefore(y, m) + DaysIn(y, m)
  {
    Cumulated(y);
  }

  /** Exactly the second counts from FIRST_SECOND to before END_SECOND convert back to themselves. */
  lemma RoundTripIff(ts: int)
    ensures 1 <= UnixToDateTime(ts).month <= 12
    ensures Seconds(UnixToDateTime(ts)) == ts <==> YearFits(ts)
  {
    YearFitsIff(ts);
    var days := FloorDiv(ts, 86400);
    var y := WideYear(days);
    DaysRoundTrip(days);
    if FitsInt32(y) {
      SecondsRoundTrip(ts);
    } else {
      hide CivilFromDays, WideYear, FloorMod, FloorDiv, DayNumber, DaysIn, Int32;
      CivilYear(days);
      Int32Fits(y);
      TimeRoundTrip(ts);
      var t := UnixToDateTime(ts);
      YearDecides(y, t.year, t.month, t.day);
    }
  }

  /** A 64-bit second count that does not convert back: the first of year 2^31. */
  lemma FirstSecondLost()
    ensures -0x8000_0000_0000_0000 <= END_SECOND < 0x8000_0000_0000_0000
    ensures 1 <= UnixToDateTime(END_SECOND).month <= 12 && Seconds(UnixToDateTime(END_SECOND)) != END_SECOND
  {
    hide UnixToDateTime, Seconds;
    RoundTripIff(END_SECOND);
  }

  lemma Int32Fits(x: int)
    ensures Int32(x) == x <==> FitsInt32(x)
  {
  }

  lemma YearDecides(y1: int, y2: int, m: int, d: int)
    requires y1 != y2 && 1 <= m <= 12
    ensures DayNumber(y1, m, d) != DayNumber(y2, m, d)
  {
    hide YearStart, Leap, DaysBefore;
    Cumulated(y1);
    Cumulated(y2);
    if y1 < y2 {
      YearsApart(y1, y2);
    } else {
      YearsApart(y2, y1);
    }
  }

  // ---------- order ----------

  predicate DateBefore(a: DateTime, b: DateTime)
  {
    a.year < b.year || (a.year == b.year && (a.month < b.month || (a.month == b.month && a.day < b.day)))
  }

  function SecondOfDay(a: DateTime): int { a.hour * 3600 + a.minute * 60 + a.second }

  /** `a` is an earlier point in time than `b`, comparing year, month, day and time of day in this order. */
  predicate Earlier(a: DateTime, b: DateTime)
  {
    DateBefore(a, b) || (!DateBefore(b, a) && SecondOfDay(a) < SecondOfDay(b))
  }

  lemma {:induction false} MonthsApart(y: int, m1: int, m2: int)
    requires 1 <= m1 < m2 <= 12
    ensures DaysBefore(y, m1) + DaysIn(y, m1) <= DaysBefore(y, m2)
  {
    Cumulated(y);
  }

  lemma DatesInOrder(a: DateTime, b: DateTime)
    requires Valid(a) && Valid(b) && DateBefore(a, b)
    ensures DayNumber(a.year, a.month, a.day) < DayNumber(b.year, b.month, b.day)
  {
    hide YearStart, Leap;
    if a.year < b.year {
      YearLength(a.year);
      if a.year + 1 < b.year {
        YearsApart(a.year + 1, b.year);
      }
      DaysBeforeRange(a.year, a.month);
      DaysBeforeRange(b.year, b.month);
    } else if a.month < b.month {
      MonthsApart(a.year, a.month, b.month);
    }
  }

  /** On valid times the order of the fields is the order of the seconds. */
  lemma EarlierIsLess(a: DateTime, b: DateTime)
    requires Valid(a) && Valid(b)
    ensures Earlier(a, b) <==> Seconds(a) < Seconds(b)
  {
    hide DayNumber, DaysIn;
    if DateBefore(a, b) {
      DatesInOrder(a, b);
    } else if DateBefore(b, a) {
      DatesInOrder(b, a);
    }
  }

  /** The conversion is strictly increasing. */
  lemma ConversionIncreases(ts1: int, ts2: int)
    requires ts1 < ts2 && YearFits(ts1) && YearFits(ts2)
    ensures Earlier(UnixToDateTime(ts1), UnixToDateTime(ts2))
  {
    hide UnixToDateTime, Seconds, Earlier, Valid;
    SecondsRoundTrip(ts1);
    SecondsRoundTrip(ts2);
    EarlierIsLess(UnixToDateTime(ts1), UnixToDateTime(ts2));
  }

  /** No other valid time stands for the same second. */
  lemma ConversionIsUnique(ts: int, t: DateTime)
    requires YearFits(ts) && Valid(t) && Seconds(t) == ts
    ensures t == UnixToDateTime(ts)
  {
    hide UnixToDateTime, DayNumber, DaysIn;
    SecondsRoundTrip(ts);
    EarlierIsLess(t, UnixToDateTime(ts));
    EarlierIsLess(UnixToDateTime(ts), t);
  }
}
