/**
 Civil time as the schedulers sample it: a calendar day, its weekday, and a time of day. A day is
 a (year, day-of-year) pair in the proleptic Gregorian calendar, so its weekday is a function of
 the day.
 */
module Calendar {
  import opened Text

  datatype Day = Day(year: int, yday: nat)

  /** One wall-clock sample. `nanos` counts nanoseconds within the minute. */
  datatype Stamp = Stamp(day: Day, hour: nat, minute: nat, nanos: nat)

  predicate Leap(year: int) {
    year % 4 == 0 && (year % 100 != 0 || year % 400 == 0)
  }

  function YearLength(year: int): nat {
    if Leap(year) then 366 else 365
  }

  predicate ValidDay(d: Day) {
    1 <= d.yday <= YearLength(d.year)
  }

  predicate ValidStamp(s: Stamp) {
    ValidDay(s.day) && s.hour < 24 && s.minute < 60 && s.nanos < MINUTE
  }

  /** Days from 31 December of year 0 to the last day before `year`. */
  function DaysBefore(year: int): int {
    365 * (year - 1) + (year - 1) / 4 - (year - 1) / 100 + (year - 1) / 400
  }

  /** Day 1 is Monday, 1 January of year 1. */
  function Ordinal(d: Day): int {
    DaysBefore(d.year) + d.yday
  }

  /** Sunday is 0. */
  function Weekday(d: Day): (w: nat)
    ensures w < 7
  {
    Ordinal(d) % 7
  }

  predicate Before(a: Day, b: Day) {
    a.year < b.year || (a.year == b.year && a.yday < b.yday)
  }

  predicate NotAfter(a: Day, b: Day) {
    a == b || Before(a, b)
  }

  lemma Fourths(year: int)
    ensures year / 4 == (year - 1) / 4 + if year % 4 == 0 then 1 else 0
  {
  }

  lemma Centuries(year: int)
    ensures year / 100 == (year - 1) / 100 + if year % 100 == 0 then 1 else 0
  {
  }

  lemma Cycles(year: int)
    ensures year / 400 == (year - 1) / 400 + if year % 400 == 0 then 1 else 0
    ensures year % 400 == 0 ==> year % 100 == 0 && year % 4 == 0
    ensures year % 100 == 0 ==> year % 4 == 0
  {
  }

  lemma {:induction false} YearSteps(year: int)
    ensures DaysBefore(year + 1) == DaysBefore(year) + YearLength(year)
  {
    Fourths(year);
    Centuries(year);
    Cycles(year);
  }

  lemma {:induction false} YearsGrow(a: int, b: int)
    requires a < b
    ensures DaysBefore(a) + YearLength(a) <= DaysBefore(b)
    decreases b - a
  {
    YearSteps(b - 1);
    if a < b - 1 {
      YearsGrow(a, b - 1);
    } else {
      YearSteps(a);
    }
  }

  /** The calendar order is the order of day numbers, so distinct days have distinct numbers. */
  lemma {:induction false} OrdinalMonotone(a: Day, b: Day)
    requires ValidDay(a) && ValidDay(b)
    ensures Before(a, b) <==> Ordinal(a) < Ordinal(b)
    ensures a == b <==> Ordinal(a) == Ordinal(b)
  {
    if a.year < b.year {
      YearsGrow(a.year, b.year);
    } else if b.year < a.year {
      YearsGrow(b.year, a.year);
    }
  }

  /** The day after, across the end of a year. */
  function Next(d: Day): Day {
    if d.yday < YearLength(d.year) then Day(d.year, d.yday + 1) else Day(d.year + 1, 1)
  }

  lemma {:induction false} NextDay(n: int)
    ensures (n + 1) % 7 == (n % 7 + 1) % 7
  {
  }

  /** From each valid day to the next the weekday moves on by one, and there is no day in between. */
  lemma {:induction false} WeekdaysFollow(d: Day)
    requires ValidDay(d)
    ensures ValidDay(Next(d)) && Ordinal(Next(d)) == Ordinal(d) + 1
    ensures Weekday(Next(d)) == (Weekday(d) + 1) % 7
  {
    YearSteps(d.year);
    NextDay(Ordinal(d));
  }

  /** Days that are known: 1 January 1900 was a Monday, 1 March 2000 a Wednesday, 7 January 2024 a Sunday. */
  lemma {:induction false} KnownWeekdays()
    ensures Weekday(Day(1900, 1)) == 1 && Weekday(Day(2000, 61)) == 3 && Weekday(Day(2024, 7)) == 0
    ensures !Leap(1900) && Leap(2000) && Leap(2024) && !Leap(2023) && !Leap(2100)
  {
  }

  // ---------------------------------------------------------------------------------------------
  // The local time line
  // ---------------------------------------------------------------------------------------------

  const MINUTE: int := 60_000_000_000

  /** Minutes on the local clock, counted from a fixed origin. */
  function MinuteIndex(s: Stamp): int {
    Ordinal(s.day) * 1440 + s.hour * 60 + s.minute
  }

  /** Minutes follow each other within the hour, the day and over midnight. */
  lemma {:induction false} MinutesFollow(d: Day, hour: nat, minute: nat)
    requires ValidDay(d)
    ensures MinuteIndex(Stamp(d, hour, minute + 1, 0)) == MinuteIndex(Stamp(d, hour, minute, 0)) + 1
    ensures MinuteIndex(Stamp(d, hour + 1, 0, 0)) == MinuteIndex(Stamp(d, hour, 59, 0)) + 1
    ensures MinuteIndex(Stamp(Next(d), 0, 0, 0)) == MinuteIndex(Stamp(d, 23, 59, 0)) + 1
  {
    hide Ordinal;
    WeekdaysFollow(d);
  }

  /** Nanoseconds on the local clock. */
  function Instant(s: Stamp): int {
    MinuteIndex(s) * MINUTE + s.nanos
  }

  lemma {:induction false} SameMinute(a: Stamp, b: Stamp)
    requires ValidStamp(a) && ValidStamp(b)
    ensures MinuteIndex(a) == MinuteIndex(b) <==> a.day == b.day && a.hour == b.hour && a.minute == b.minute
  {
    OrdinalMonotone(a.day, b.day);
  }

  // ---------------------------------------------------------------------------------------------
  // The "{year}-{day_of_year}" key
  // ---------------------------------------------------------------------------------------------

  function DayKey(d: Day): (k: string)
    ensures k != []
  {
    DecInt(d.year) + "-" + Dec(d.yday)
  }

  lemma {:induction false} ReadableKey()
    ensures DayKey(Day(2024, 7)) == "2024-7" && DayKey(Day(2023, 365)) == "2023-365"
  {
    assert Dec(2) == "2" && Dec(20) == "20" && Dec(202) == "202" && Dec(2024) == "2024" && Dec(2023) == "2023";
    assert Dec(3) == "3" && Dec(36) == "36" && Dec(365) == "365" && Dec(7) == "7";
  }

  lemma DecIntChars(n: int)
    ensures NoWhitespace(DecInt(n))
  {
  }

  lemma {:induction false} DayKeyNoWhitespace(d: Day)
    ensures NoWhitespace(DayKey(d))
    ensures Trim(DayKey(d)) == DayKey(d)
  {
    DecIntChars(d.year);
    TrimFixed(DayKey(d));
  }

  lemma {:induction false} TailNoLonger(p: string, q: string, s: string, t: string, sep: char)
    requires sep !in t
    requires p + [sep] + s == q + [sep] + t
    ensures |t| <= |s|
  {
    var text := p + [sep] + s;
    assert text[|p|] == sep;
    assert forall i :: |q| < i < |text| ==> text[i] == t[i - |q| - 1];
  }

  /** A text is cut in one way only at its last separator. */
  lemma {:induction false} LastSeparator(p: string, q: string, s: string, t: string, sep: char)
    requires sep !in s && sep !in t
    requires p + [sep] + s == q + [sep] + t
    ensures p == q && s == t
  {
    TailNoLonger(p, q, s, t, sep);
    TailNoLonger(q, p, t, s, sep);
    var text := p + [sep] + s;
    assert text[..|p|] == p && text[..|q|] == q;
    assert text[|p| + 1..] == s && text[|q| + 1..] == t;
  }

  /** Different days, of any years including negative ones, have different keys. */
  lemma {:induction false} DayKeyInjective(a: Day, b: Day)
    requires DayKey(a) == DayKey(b)
    ensures a == b
  {
    LastSeparator(DecInt(a.year), DecInt(b.year), Dec(a.yday), Dec(b.yday), '-');
    DecIntInjective(a.year, b.year);
    DecInjective(a.yday, b.yday);
  }
}
