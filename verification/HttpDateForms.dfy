/** Dates with less than the preferred form holds: no clock, no seconds, no month name. */
module HttpDateForms {
  import opened Prelude
  import opened Text
  import opened HttpDate

  /** A date without a clock, behind any first word. */
  function DateOnly(w: string, d: Date): string
    requires ValidDate(d) && 0 <= d.year < 10000
  {
    w + [' '] + (Two(d.day) + [' '] + (MonthName(d.month) + [' '] + Four(d.year)))
  }

  function Minutes(t: DateTime): string
    requires ValidTime(t)
  {
    Two(t.hour) + [':'] + Two(t.min)
  }

  function WithoutSeconds(w: string, t: DateTime): string
    requires ValidTime(t) && 0 <= t.date.year < 10000
  {
    w + [' '] + (Two(t.date.day) + [' '] + (MonthName(t.date.month) + [' '] + (Four(t.date.year) + [' '] + Minutes(t))))
  }

  lemma MidnightText()
    ensures SplitOn("00:00:00", ':') == ["00", "00", "00"] && ParseUnsigned("00", U32) == Some(0) && ParseUnsigned("0", U32) == Some(0)
  {
    assert "00:00:00" == "00" + [':'] + ("00" + [':'] + "00");
    SplitOnCons("00", ':', "00" + [':'] + "00");
    SplitOnCons("00", ':', "00");
    SplitOnLast("00", ':');
    assert "00" == Two(0);
    ParseTwo(0);
    ParseDecimal(0, U32);
    assert Decimal(0) == "0";
  }

  lemma DateWords(w: string, d: Date)
    requires ValidDate(d) && 0 <= d.year < 10000 && w != [] && NoSpace(w)
    ensures Words(DateOnly(w, d)) == [w, Two(d.day), MonthName(d.month), Four(d.year)]
  {
    hide Words, Two, Four, MonthName;
    NumberTwo(d.day);
    NumberFour(d.year);
    MonthPlain(d.month);
    WordsLast(Four(d.year));
    WordsCons(MonthName(d.month), Four(d.year));
    WordsCons(Two(d.day), MonthName(d.month) + [' '] + Four(d.year));
    WordsCons(w, Two(d.day) + [' '] + (MonthName(d.month) + [' '] + Four(d.year)));
  }

  lemma MinuteWords(w: string, t: DateTime)
    requires ValidTime(t) && 0 <= t.date.year < 10000 && w != [] && NoSpace(w)
    ensures Words(WithoutSeconds(w, t)) == [w, Two(t.date.day), MonthName(t.date.month), Four(t.date.year), Minutes(t)]
    ensures SplitOn(Minutes(t), ':') == [Two(t.hour), Two(t.min)]
  {
    hide Words, Two, Four, MonthName, SplitOn;
    NumberTwo(t.date.day);
    NumberFour(t.date.year);
    MonthPlain(t.date.month);
    NumberTwo(t.hour);
    NumberTwo(t.min);
    SplitOnCons(Two(t.hour), ':', Two(t.min));
    SplitOnLast(Two(t.min), ':');
    var c, y, m, d := Minutes(t), Four(t.date.year), MonthName(t.date.month), Two(t.date.day);
    WordsLast(c);
    WordsCons(y, c);
    WordsCons(m, y + [' '] + c);
    WordsCons(d, m + [' '] + (y + [' '] + c));
    WordsCons(w, d + [' '] + (m + [' '] + (y + [' '] + c)));
  }

  /** A date without a clock is read as its midnight. */
  lemma DateOnlyParses(w: string, d: Date)
    requires ValidDate(d) && 0 <= d.year < 10000 && w != [] && NoSpace(w)
    ensures ParseHttpDate(DateOnly(w, d)) == if d.year < 1970 then None else Some(DayNumber(d) * 86_400)
  {
    hide Words, SplitOn, ParseUnsigned, ParseSigned, MonthName, Two, Four, Days, DaysBefore;
    DateWords(w, d);
    MidnightText();
    ParseTwo(d.day);
    ParseFour(d.year);
    DaysCount(d);
    SignOfDate(d);
    assert MonthNamed(MonthName(d.month)) == Some(d.month);
  }

  /** A clock without seconds is read as the full minute. */
  lemma WithoutSecondsParses(w: string, t: DateTime)
    requires ValidTime(t) && 0 <= t.date.year < 10000 && w != [] && NoSpace(w)
    ensures ParseHttpDate(WithoutSeconds(w, t)) ==
      if t.date.year < 1970 then None else Some(DayNumber(t.date) * 86_400 + t.hour * 3600 + t.min * 60)
  {
    hide Words, SplitOn, ParseUnsigned, ParseSigned, MonthName, Two, Four, Minutes, Days, DaysBefore;
    MinuteWords(w, t);
    MidnightText();
    ParseTwo(t.date.day);
    ParseFour(t.date.year);
    ParseTwo(t.hour);
    ParseTwo(t.min);
    DaysCount(t.date);
    SignOfDate(t.date);
    assert MonthNamed(MonthName(t.date.month)) == Some(t.date.month);
  }

  /** Texts that are no dates: fewer than four words, a third word that is no month's name, or a second
      word that is no number. */
  lemma NoDates(s: string)
    ensures |Words(s)| < 4 ==> ParseHttpDate(s) == None
    ensures 4 <= |Words(s)| && (forall m :: 1 <= m <= 12 ==> MonthName(m) != Words(s)[2]) ==> ParseHttpDate(s) == None
    ensures 4 <= |Words(s)| && !AllDigits(Words(s)[1]) && Words(s)[1][..1] != "+" ==> ParseHttpDate(s) == None
  {
    hide Words, SplitOn, ParseSigned, Days;
    if 4 <= |Words(s)| && (forall m :: 1 <= m <= 12 ==> MonthName(m) != Words(s)[2]) {
      assert MonthNamed(Words(s)[2]).None?;
    }
  }

  /** A year may be negative, down to -2^31; such a date is before 1970 and so no date. */
  lemma NegativeYears(n: nat)
    ensures ParseSigned(['-'] + Decimal(n)) == if n <= 0x8000_0000 then Some(0 - n) else None
  {
    hide Number, Decimal, AllDigits;
    DecimalInverse(n);
    assert (['-'] + Decimal(n))[1..] == Decimal(n);
  }
}
