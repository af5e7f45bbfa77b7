/**
 The date of a cookie's Expires attribute (src/http/cookies.rs), turned into seconds
 since 1970 by arithmetic on years that start in March.
 */
module HttpDate {
  import opened Prelude
  import opened Text

  // ----- The code's arithmetic -----

  /** Days since 1970-01-01 of a civil date. */
  function Days(year: int, month: int, day: int): int {
    var y := if month <= 2 then year - 1 else year;
    var era := y / 400;
    var yoe := y - era * 400;
    var doy := (153 * (month + if month > 2 then -3 else 9) + 2) / 5 + day - 1;
    var doe := yoe * 365 + yoe / 4 - yoe / 100 + doy;
    era * 146_097 + doe - 719_468
  }

  function Seconds(t: DateTime): int {
    Days(t.date.year, t.date.month, t.date.day) * 86_400 + t.hour * 3600 + t.min * 60 + t.sec
  }

  // ----- The calendar -----

  datatype Date = Date(year: int, month: int, day: int)

  datatype DateTime = DateTime(date: Date, hour: int, min: int, sec: int)

  predicate Leap(y: int) {
    y % 4 == 0 && (y % 100 != 0 || y % 400 == 0)
  }

  function MonthLength(y: int, m: int): (n: nat)
    ensures 28 <= n <= 31
  {
    if m == 2 then if Leap(y) then 29 else 28
    else if m == 4 || m == 6 || m == 9 || m == 11 then 30
    else 31
  }

  predicate ValidDate(d: Date) {
    1 <= d.month <= 12 && 1 <= d.day <= MonthLength(d.year, d.month)
  }

  predicate ValidTime(t: DateTime) {
    ValidDate(t.date) && 0 <= t.hour < 24 && 0 <= t.min < 60 && 0 <= t.sec < 60
  }

  function Next(d: Date): Date {
    if d.day < MonthLength(d.year, d.month) then Date(d.year, d.month, d.day + 1)
    else if d.month < 12 then Date(d.year, d.month + 1, 1)
    else Date(d.year + 1, 1, 1)
  }

  /** Days of the year before a month. */
  function DaysBefore(y: int, m: int): nat
    requires 1 <= m <= 13
    decreases m
  {
    if m == 1 then 0 else DaysBefore(y, m - 1) + MonthLength(y, m - 1)
  }

  function YearLength(y: int): nat {
    DaysBefore(y, 13)
  }

  /** Days from 1970-01-01 to the first of January, counted year by year. */
  function YearStart(y: int): int
    decreases if y < 1970 then 1970 - y else y - 1970
  {
    if y == 1970 then 0
    else if y > 1970 then YearStart(y - 1) + YearLength(y - 1)
    else YearStart(y + 1) - YearLength(y)
  }

  /** The day count by the calendar. */
  function DayNumber(d: Date): int
    requires ValidDate(d)
  {
    YearStart(d.year) + DaysBefore(d.year, d.month) + d.day - 1
  }

  // ----- The arithmetic counts days -----

  /** The days of years that start in March, up to a year. */
  function MarchYears(y: int): int {
    365 * y + y / 4 - y / 100 + y / 400
  }

  lemma EraSplits(y: int)
    ensures var era, yoe := y / 400, y - y / 400 * 400;
      era * 146_097 + yoe * 365 + yoe / 4 - yoe / 100 == MarchYears(y)
  {
    var era, yoe := y / 400, y % 400;
    assert y == 400 * era + yoe;
    assert y / 4 == 100 * era + yoe / 4;
    assert y / 100 == 4 * era + yoe / 100;
  }

  lemma FourStep(y: int)
    ensures y / 4 - (y - 1) / 4 == if y % 4 == 0 then 1 else 0
  {
  }

  lemma HundredStep(y: int)
    ensures y / 100 - (y - 1) / 100 == if y % 100 == 0 then 1 else 0
  {
  }

  lemma FourHundredStep(y: int)
    ensures y / 400 - (y - 1) / 400 == if y % 400 == 0 then 1 else 0
    ensures y % 400 == 0 ==> y % 100 == 0
    ensures y % 100 == 0 ==> y % 4 == 0
  {
  }

  lemma MarchStep(y: int)
    ensures MarchYears(y) - MarchYears(y - 1) == if Leap(y) then 366 else 365
  {
    FourStep(y);
    HundredStep(y);
    FourHundredStep(y);
  }

  /** Days of a year that starts in March before a month of it. */
  function MarchMonths(m: int): int {
    (153 * (m + if m > 2 then -3 else 9) + 2) / 5
  }

  lemma DaysForm(y: int, m: int, d: int)
    ensures Days(y, m, d) == MarchYears(if m <= 2 then y - 1 else y) + MarchMonths(m) + d - 1 - 719_468
  {
    hide MarchYears;
    EraSplits(if m <= 2 then y - 1 else y);
  }

  /** From one month to the next the arithmetic grows by the length of the month. */
  lemma MonthStep(y: int, m: int)
    requires 1 <= m <= 11
    ensures Days(y, m + 1, 1) - Days(y, m, 1) == MonthLength(y, m)
  {
    hide Days, MarchYears, Leap;
    DaysForm(y, m, 1);
    DaysForm(y, m + 1, 1);
    MarchStep(y);
  }

  lemma YearStep(y: int)
    ensures Days(y + 1, 1, 1) - Days(y, 12, 1) == 31
  {
    hide Days, MarchYears;
    DaysForm(y, 12, 1);
    DaysForm(y + 1, 1, 1);
  }

  lemma DayStep(y: int, m: int, d: int)
    ensures Days(y, m, d) == Days(y, m, 1) + d - 1
  {
    hide Days, MarchYears, MarchMonths;
    DaysForm(y, m, d);
    DaysForm(y, m, 1);
  }

  lemma {:induction false} MonthsAdd(y: int, m: int)
    requires 1 <= m <= 12
    ensures Days(y, m, 1) == Days(y, 1, 1) + DaysBefore(y, m)
    decreases m
  {
    if m != 1 {
      hide Days;
      MonthsAdd(y, m - 1);
      MonthStep(y, m - 1);
    }
  }

  lemma JanuaryStep(y: int)
    ensures Days(y + 1, 1, 1) == Days(y, 1, 1) + YearLength(y)
  {
    hide Days;
    MonthsAdd(y, 12);
    YearStep(y);
  }

  lemma {:induction false} YearsAdd(y: int)
    ensures Days(y, 1, 1) == YearStart(y)
    decreases if y < 1970 then 1970 - y else y - 1970
  {
    if y > 1970 {
      hide Days, YearLength;
      YearsAdd(y - 1);
      JanuaryStep(y - 1);
    } else if y < 1970 {
      hide Days, YearLength;
      YearsAdd(y + 1);
      JanuaryStep(y);
    }
  }

  /** For every Gregorian date of any year, before 1970 and before the year zero too, the arithmetic is the
      count of days since 1970-01-01. */
  lemma DaysCount(d: Date)
    requires ValidDate(d)
    ensures Days(d.year, d.month, d.day) == DayNumber(d)
  {
    hide Days, DaysBefore, YearStart;
    YearsAdd(d.year);
    MonthsAdd(d.year, d.month);
    DayStep(d.year, d.month, d.day);
  }

  /** Across month, leap-year, century and 400-year ends each date is one more than the one before, from 0. */
  lemma NextIsOneMore(d: Date)
    requires ValidDate(d)
    ensures var n := Next(d);
      ValidDate(n) && Days(n.year, n.month, n.day) == Days(d.year, d.month, d.day) + 1
    ensures Days(1970, 1, 1) == 0
  {
    hide Days, Leap;
    var n := Next(d);
    DayStep(d.year, d.month, d.day);
    DayStep(n.year, n.month, n.day);
    if n.year == d.year {
      if n.month != d.month {
        MonthStep(d.year, d.month);
      }
    } else {
      YearStep(d.year);
    }
    YearsAdd(1970);
  }

  // ----- Order -----

  predicate EarlierDate(a: Date, b: Date) {
    a.year < b.year || (a.year == b.year && (a.month < b.month || (a.month == b.month && a.day < b.day)))
  }

  predicate Earlier(a: DateTime, b: DateTime) {
    EarlierDate(a.date, b.date) || (a.date == b.date &&
      (a.hour < b.hour || (a.hour == b.hour && (a.min < b.min || (a.min == b.min && a.sec < b.sec)))))
  }

  lemma {:induction false} MonthsGrow(y: int, m: int, n: int)
    requires 1 <= m < n <= 13
    ensures DaysBefore(y, m) + MonthLength(y, m) <= DaysBefore(y, n)
    decreases n
  {
    if m < n - 1 {
      MonthsGrow(y, m, n - 1);
    }
  }

  lemma {:induction false} YearsGrow(y: int, z: int)
    requires y < z
    ensures YearStart(y) + YearLength(y) <= YearStart(z)
    decreases z - y
  {
    assert YearStart(z) == YearStart(z - 1) + YearLength(z - 1) by {
      YearStartStep(z - 1);
    }
    if y < z - 1 {
      YearsGrow(y, z - 1);
    }
  }

  lemma YearStartStep(y: int)
    ensures YearStart(y + 1) == YearStart(y) + YearLength(y)
  {
  }

  lemma DatesGrow(a: Date, b: Date)
    requires ValidDate(a) && ValidDate(b) && EarlierDate(a, b)
    ensures DayNumber(a) < DayNumber(b)
  {
    hide YearStart, DaysBefore, MonthLength;
    if a.year < b.year {
      YearsGrow(a.year, b.year);
      MonthsGrow(a.year, a.month, 13);
    } else if a.month < b.month {
      MonthsGrow(a.year, a.month, b.month);
    }
  }

  /** Later date-times have more seconds. */
  lemma SecondsGrow(a: DateTime, b: DateTime)
    requires ValidTime(a) && ValidTime(b)
    ensures Earlier(a, b) <==> Seconds(a) < Seconds(b)
  {
    hide Days;
    SecondsGrowOneWay(a, b);
    SecondsGrowOneWay(b, a);
    assert Earlier(a, b) || Earlier(b, a) || a == b;
  }

  lemma SecondsGrowOneWay(a: DateTime, b: DateTime)
    requires ValidTime(a) && ValidTime(b)
    ensures Earlier(a, b) ==> Seconds(a) < Seconds(b)
  {
    hide Days;
    DaysCount(a.date);
    DaysCount(b.date);
    if EarlierDate(a.date, b.date) {
      DatesGrow(a.date, b.date);
    }
  }

  /** The leap second 60, which the grammar allows, has the seconds of the minute after it. */
  lemma LeapSecondTies(d: Date)
    requires ValidDate(d)
    ensures Seconds(DateTime(d, 23, 59, 60)) == Seconds(DateTime(Next(d), 0, 0, 0))
  {
    hide Days;
    NextIsOneMore(d);
  }

  // ----- The text -----

  const U32 := 0xFFFF_FFFF
  const I32 := 0x7FFF_FFFF

  function MonthName(m: int): string
    requires 1 <= m <= 12
  {
    ["Jan", "Feb", "Mar", "Apr", "May", "Jun", "Jul", "Aug", "Sep", "Oct", "Nov", "Dec"][m - 1]
  }

  function MonthNamed(s: string): (m: Option<int>)
    ensures m.Some? ==> 1 <= m.value <= 12 && MonthName(m.value) == s
    ensures forall k :: 1 <= k <= 12 && MonthName(k) == s ==> m == Some(k)
  {
    if s == "Jan" then Some(1)
    else if s == "Feb" then Some(2)
    else if s == "Mar" then Some(3)
    else if s == "Apr" then Some(4)
    else if s == "May" then Some(5)
    else if s == "Jun" then Some(6)
    else if s == "Jul" then Some(7)
    else if s == "Aug" then Some(8)
    else if s == "Sep" then Some(9)
    else if s == "Oct" then Some(10)
    else if s == "Nov" then Some(11)
    else if s == "Dec" then Some(12)
    else None
  }

  function ParseSigned(s: string): Option<int> {
    if s != [] && s[0] == '-' then
      var digits := s[1..];
      if digits == [] || !AllDigits(digits) || I32 + 1 < Number(digits) then None else Some(0 - Number(digits) as int)
    else
      match ParseUnsigned(s, I32)
      case Some(n) => Some(n as int)
      case None => None
  }

  /** The cast of the day to a signed word: the same number modulo 2^32, in the signed range. */
  function AsI32(n: nat): (r: int)
    requires n <= U32
    ensures -0x8000_0000 <= r < 0x8000_0000 && (n - r) % 0x1_0000_0000 == 0
  {
    if n <= I32 then n else n - U32 - 1
  }

  function FromFields(day: nat, month: int, year: int, hour: nat, min: nat, sec: nat): Option<nat>
    requires day <= U32
  {
    var secs := Days(year, month, AsI32(day)) * 86_400 + hour * 3600 + min * 60 + sec;
    if secs < 0 then None else Some(secs)
  }

  function ParseHttpDate(s: string): Option<nat> {
    var parts := Words(s);
    if |parts| < 4 then None
    else
      var tp := SplitOn(if 4 < |parts| then parts[4] else "00:00:00", ':');
      if |tp| < 2 then None
      else
        match (ParseUnsigned(parts[1], U32), MonthNamed(parts[2]), ParseSigned(parts[3]),
               ParseUnsigned(tp[0], U32), ParseUnsigned(tp[1], U32), ParseUnsigned(if 2 < |tp| then tp[2] else "0", U32))
        case (Some(day), Some(month), Some(year), Some(hour), Some(min), Some(sec)) =>
          FromFields(day, month, year, hour, min, sec)
        case _ => None
  }

  function Two(n: int): string
    requires 0 <= n < 100
  {
    [DigitChar(n / 10), DigitChar(n % 10)]
  }

  function Four(n: int): string
    requires 0 <= n < 10000
  {
    Two(n / 100) + Two(n % 100)
  }

  predicate WeekDay(w: string) { |w| == 3 && NoSpace(w) }

  function Clock(t: DateTime): string
    requires ValidTime(t)
  {
    Two(t.hour) + [':'] + (Two(t.min) + [':'] + Two(t.sec))
  }

  /** The preferred form of a date (section 7.1.1.1 of RFC 7231). */
  function ImfFixdate(w: string, t: DateTime): string
    requires ValidTime(t) && 0 <= t.date.year < 10000
  {
    (w + [',']) + [' '] + (Two(t.date.day) + [' '] + (MonthName(t.date.month) + [' '] +
      (Four(t.date.year) + [' '] + (Clock(t) + [' '] + "GMT"))))
  }

  lemma NumberTwo(n: int)
    requires 0 <= n < 100
    ensures var s := Two(n);
      NoSpace(s) && AllDigits(s) && ':' !in s && Number(s) == n && s != [] && s[0] != '+' && s[0] != '-'
  {
    var s := Two(n);
    assert s[..1] == [s[0]] && s[..1][..0] == [];
    assert Number(s[..1]) == DigitOf(s[0]);
  }

  lemma NumberFour(n: int)
    requires 0 <= n < 10000
    ensures var s := Four(n);
      NoSpace(s) && AllDigits(s) && Number(s) == n && s != [] && s[0] != '+' && s[0] != '-'
  {
    var s := Four(n);
    NumberTwo(n / 100);
    NumberTwo(n % 100);
    assert s[..3][..2] == Two(n / 100);
    assert Number(s[..3]) == 10 * (n / 100) + n % 100 / 10;
    assert s[..3] == s[..|s| - 1];
  }

  lemma ParseTwo(n: int)
    requires 0 <= n < 100
    ensures ParseUnsigned(Two(n), U32) == Some(n)
  {
    NumberTwo(n);
  }

  lemma ParseFour(n: int)
    requires 0 <= n < 10000
    ensures ParseSigned(Four(n)) == Some(n)
  {
    NumberFour(n);
  }

  lemma ClockSplits(t: DateTime)
    requires ValidTime(t)
    ensures SplitOn(Clock(t), ':') == [Two(t.hour), Two(t.min), Two(t.sec)]
    ensures NoSpace(Clock(t)) && Clock(t) != []
  {
    hide SplitOn, Two;
    NumberTwo(t.hour);
    NumberTwo(t.min);
    NumberTwo(t.sec);
    SplitOnCons(Two(t.hour), ':', Two(t.min) + [':'] + Two(t.sec));
    SplitOnCons(Two(t.min), ':', Two(t.sec));
    SplitOnLast(Two(t.sec), ':');
  }

  lemma FixdateWords(w: string, t: DateTime)
    requires ValidTime(t) && 0 <= t.date.year < 10000 && WeekDay(w)
    ensures Words(ImfFixdate(w, t)) ==
      [w + [','], Two(t.date.day), MonthName(t.date.month), Four(t.date.year), Clock(t), "GMT"]
  {
    hide Words, Two, Four, MonthName, Clock;
    var c, d, m, y := Clock(t), Two(t.date.day), MonthName(t.date.month), Four(t.date.year);
    NumberTwo(t.date.day);
    NumberFour(t.date.year);
    MonthPlain(t.date.month);
    ClockSplits(t);
    WordsLast("GMT");
    WordsCons(c, "GMT");
    WordsCons(y, c + [' '] + "GMT");
    WordsCons(m, y + [' '] + (c + [' '] + "GMT"));
    WordsCons(d, m + [' '] + (y + [' '] + (c + [' '] + "GMT")));
    WordsCons(w + [','], d + [' '] + (m + [' '] + (y + [' '] + (c + [' '] + "GMT"))));
  }

  lemma MonthPlain(m: int)
    requires 1 <= m <= 12
    ensures MonthName(m) != [] && NoSpace(MonthName(m))
  {
  }

  /** A date written in the preferred form is read as the seconds since 1970 by the calendar, and as no
      date at all exactly when it is before 1970. The week day is not looked at. */
  lemma FixdateParses(w: string, t: DateTime)
    requires ValidTime(t) && 0 <= t.date.year < 10000 && WeekDay(w)
    ensures ParseHttpDate(ImfFixdate(w, t)) ==
      if t.date.year < 1970 then None
      else Some(DayNumber(t.date) * 86_400 + t.hour * 3600 + t.min * 60 + t.sec)
  {
    hide Words, SplitOn, ParseUnsigned, ParseSigned, MonthName, Two, Four, Clock, ImfFixdate, Days, DaysBefore;
    FixdateWords(w, t);
    ClockSplits(t);
    ParseTwo(t.date.day);
    ParseFour(t.date.year);
    ParseTwo(t.hour);
    ParseTwo(t.min);
    ParseTwo(t.sec);
    DaysCount(t.date);
    SignOfDate(t.date);
    assert MonthNamed(MonthName(t.date.month)) == Some(t.date.month);
  }

  lemma SignOfDate(d: Date)
    requires ValidDate(d)
    ensures DayNumber(d) < 0 <==> d.year < 1970
  {
    var epoch := Date(1970, 1, 1);
    assert DayNumber(epoch) == 0;
    if d.year < 1970 {
      DatesGrow(d, epoch);
    } else if d != epoch {
      DatesGrow(epoch, d);
    }
  }
}
