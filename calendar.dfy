/**
 * The date helpers of the parser: which days the market trades on, the most
 * recent trading day, and the last `n` trading days.
 *
 * A date is its proleptic Gregorian ordinal, as Python's `date.toordinal()`
 * gives it (0001-01-01 is day 1, a Monday). The current date is a parameter
 * instead of a call to `date.today()`, and the holiday calendar is a parameter
 * too; `Holidays` is the calendar the parser ships with.
 */
module Calendar {

  type Day = int

  predicate IsLeapYear(y: int) {
    y % 4 == 0 && (y % 100 != 0 || y % 400 == 0)
  }

  /** `date(y, m, d).toordinal()` for a valid date. */
  function Ordinal(y: int, m: int, d: int): Day
    requires 1 <= y && 1 <= m <= 12 && 1 <= d <= 31
  {
    var y1 := y - 1;
    var before := [0, 31, 59, 90, 120, 151, 181, 212, 243, 273, 304, 334][m - 1];
    y1 * 365 + y1 / 4 - y1 / 100 + y1 / 400 + before + (if m > 2 && IsLeapYear(y) then 1 else 0) + d
  }

  /** `date.weekday()`: Monday is 0 and Sunday is 6. */
  function Weekday(d: Day): (w: int)
    ensures 0 <= w < 7
  {
    (d + 6) % 7
  }

  /** The UEMOA public holidays listed in the parser. */
  const Holidays: set<Day> := {
    Ordinal(2026, 1, 1), Ordinal(2026, 4, 6), Ordinal(2026, 5, 1), Ordinal(2026, 11, 1), Ordinal(2026, 12, 25),
    Ordinal(2025, 1, 1), Ordinal(2025, 4, 21), Ordinal(2025, 5, 1), Ordinal(2025, 11, 1), Ordinal(2025, 12, 25)
  }

  /** Monday to Friday, and not a holiday. */
  predicate IsTradingDay(d: Day, holidays: set<Day>) {
    Weekday(d) < 5 && d !in holidays
  }

  /** The ordinals and weekdays agree with Python's calendar: 0001-01-01 is
      day 1, a Monday, and the shipped holidays fall on these days. */
  lemma KnownDates()
    ensures Ordinal(1, 1, 1) == 1 && Weekday(1) == 0
    ensures Ordinal(2026, 1, 1) == 739617 && Weekday(739617) == 3
    ensures Ordinal(2026, 4, 6) == 739712 && Weekday(739712) == 0
    ensures Ordinal(2026, 5, 1) == 739737 && Weekday(739737) == 4
    ensures Ordinal(2026, 11, 1) == 739921 && Weekday(739921) == 6
    ensures Ordinal(2026, 12, 25) == 739975 && Weekday(739975) == 4
    ensures Ordinal(2025, 1, 1) == 739252 && Weekday(739252) == 2
    ensures Ordinal(2025, 4, 21) == 739362 && Weekday(739362) == 0
    ensures Ordinal(2025, 5, 1) == 739372 && Weekday(739372) == 3
    ensures Ordinal(2025, 11, 1) == 739556 && Weekday(739556) == 5
    ensures Ordinal(2025, 12, 25) == 739610 && Weekday(739610) == 3
  {
  }

  /** The shipped calendar holds ten distinct days. */
  lemma ShippedHolidays()
    ensures Holidays == {739617, 739712, 739737, 739921, 739975, 739252, 739362, 739372, 739556, 739610}
    ensures |Holidays| == 10
  {
    KnownDates();
  }

  /** A finite holiday calendar cannot cover every weekday: going back from
      any day, a trading day comes within three days per holiday, plus two
      for a weekend. This bounds the backward scans below. */
  lemma {:induction false} TradingDayAtOrBefore(d: Day, holidays: set<Day>) returns (w: Day)
    ensures w <= d && IsTradingDay(w, holidays)
    ensures d - w <= 3 * |holidays| + 2
    decreases |holidays|
  {
    var m := if Weekday(d) < 5 then d else if Weekday(d) == 5 then d - 1 else d - 2;
    assert Weekday(m) < 5;
    if m !in holidays {
      w := m;
    } else {
      w := TradingDayAtOrBefore(m - 1, holidays - {m});
    }
  }

  /** With the shipped calendar, a trading day is never more than 32 days
      back, so `last_trading_day()` steps back at most that far. */
  lemma ShippedLookBack(today: Day) returns (w: Day)
    ensures w <= today && IsTradingDay(w, Holidays) && today - w <= 32
  {
    ShippedHolidays();
    w := TradingDayAtOrBefore(today, Holidays);
  }

  /** `d` is the latest trading day on or before `today`. */
  ghost predicate IsLastTradingDay(d: Day, today: Day, holidays: set<Day>) {
    d <= today && IsTradingDay(d, holidays) &&
    forall x :: d < x <= today ==> !IsTradingDay(x, holidays)
  }

  /** `days` are the `n` latest trading days up to `today`, most recent first:
      each a trading day, strictly decreasing, none after `today`, and no
      trading day between the oldest of them and `today` left out. A
      non-positive `n` gives no days. */
  ghost predicate IsTradingDaysBack(days: seq<Day>, n: int, today: Day, holidays: set<Day>) {
    |days| == (if n < 0 then 0 else n) &&
    (forall i :: 0 <= i < |days| ==> IsTradingDay(days[i], holidays) && days[i] <= today) &&
    (forall i, j :: 0 <= i < j < |days| ==> days[j] < days[i]) &&
    (forall x :: |days| > 0 && days[|days| - 1] <= x <= today && IsTradingDay(x, holidays) ==> x in days)
  }

  /** `last_trading_day()`: step back from `today` until a trading day. */
  method LastTradingDay(today: Day, holidays: set<Day>) returns (d: Day)
    ensures IsLastTradingDay(d, today, holidays)
    ensures today - d <= 3 * |holidays| + 2
  {
    ghost var w := TradingDayAtOrBefore(today, holidays);
    d := today;
    while !IsTradingDay(d, holidays)
      invariant w <= d <= today
      invariant forall x :: d < x <= today ==> !IsTradingDay(x, holidays)
      decreases d - w
    {
      d := d - 1;
    }
  }

  /** `trading_days_back(n)`: step back from `today`, collecting trading days
      until there are `n` of them. */
  method TradingDaysBack(n: int, today: Day, holidays: set<Day>) returns (days: seq<Day>)
    ensures IsTradingDaysBack(days, n, today, holidays)
  {
    days := [];
    var d := today;
    ghost var w := TradingDayAtOrBefore(d, holidays);
    while |days| < n
      invariant n >= 0 ==> |days| <= n
      invariant n < 0 ==> days == []
      invariant w <= d <= today && IsTradingDay(w, holidays)
      invariant forall i :: 0 <= i < |days| ==> IsTradingDay(days[i], holidays) && d < days[i] <= today
      invariant forall i, j :: 0 <= i < j < |days| ==> days[j] < days[i]
      invariant forall x :: d < x <= today && IsTradingDay(x, holidays) ==> x in days
      decreases n - |days|, d - w
    {
      if IsTradingDay(d, holidays) {
        days := days + [d];
      }
      d := d - 1;
      if w > d {
        w := TradingDayAtOrBefore(d, holidays);
      }
    }
  }

  /** `last_trading_day()` is the first of `trading_days_back(n)` for any
      positive `n`. */
  lemma LastIsFirstBack(d: Day, days: seq<Day>, n: int, today: Day, holidays: set<Day>)
    requires n >= 1
    requires IsLastTradingDay(d, today, holidays)
    requires IsTradingDaysBack(days, n, today, holidays)
    ensures days[0] == d
  {
    assert d in days;
    var i :| 0 <= i < |days| && days[i] == d;
    assert IsTradingDay(days[0], holidays) && days[0] <= today;
  }
}
