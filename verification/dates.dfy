/**
 Calendar dates as `datetime.strptime(value, "%Y-%m-%d")` reads them, and the
 `datetime` comparison `exp_date < datetime.now()` with the clock passed in.
 */
module Dates {
  import opened Wrappers

  datatype Date = Date(year: int, month: int, day: int)

  /** A naive local `datetime`: a date and the microseconds elapsed since
      its midnight. Only the order of instants matters here, so the length of
      a day is not imposed. */
  datatype Instant = Instant(date: Date, micros: nat)

  predicate IsLeapYear(y: int) {
    y % 4 == 0 && (y % 100 != 0 || y % 400 == 0)
  }

  function DaysInMonth(y: int, m: int): int {
    if m == 2 then (if IsLeapYear(y) then 29 else 28)
    else if m == 4 || m == 6 || m == 9 || m == 11 then 30
    else 31
  }

  /** The dates `datetime.date` accepts (MINYEAR 1, MAXYEAR 9999). */
  predicate ValidDate(d: Date) {
    1 <= d.year <= 9999 && 1 <= d.month <= 12 && 1 <= d.day <= DaysInMonth(d.year, d.month)
  }

  predicate IsDigit(c: char) {
    '0' <= c <= '9'
  }

  function DigitValue(c: char): nat
    requires IsDigit(c)
  {
    c as int - '0' as int
  }

  function DigitChar(n: nat): char
    requires n < 10
  {
    ('0' as int + n) as char
  }

  /** `%Y`: exactly four digits, `\d\d\d\d`. */
  function YearToken(t: string): Option<int> {
    if |t| == 4 && IsDigit(t[0]) && IsDigit(t[1]) && IsDigit(t[2]) && IsDigit(t[3]) then
      Some(1000 * DigitValue(t[0]) + 100 * DigitValue(t[1]) + 10 * DigitValue(t[2]) + DigitValue(t[3]))
    else None
  }

  /** `%m`: `1[0-2]|0[1-9]|[1-9]`. */
  function MonthToken(t: string): Option<int> {
    if |t| == 1 && '1' <= t[0] <= '9' then Some(DigitValue(t[0]))
    else if |t| == 2 && t[0] == '0' && '1' <= t[1] <= '9' then Some(DigitValue(t[1]))
    else if |t| == 2 && t[0] == '1' && '0' <= t[1] <= '2' then Some(10 + DigitValue(t[1]))
    else None
  }

  /** `%d`: `3[01]|[12]\d|0[1-9]|[1-9]| [1-9]` (a space may stand for a
      leading zero). */
  function DayToken(t: string): Option<int> {
    if |t| == 1 && '1' <= t[0] <= '9' then Some(DigitValue(t[0]))
    else if |t| == 2 && (t[0] == '0' || t[0] == ' ') && '1' <= t[1] <= '9' then Some(DigitValue(t[1]))
    else if |t| == 2 && (t[0] == '1' || t[0] == '2') && IsDigit(t[1]) then Some(10 * DigitValue(t[0]) + DigitValue(t[1]))
    else if |t| == 2 && t[0] == '3' && (t[1] == '0' || t[1] == '1') then Some(30 + DigitValue(t[1]))
    else None
  }

  /** `datetime.strptime(s, "%Y-%m-%d")`: `None` where Python raises
      `ValueError` (no match, unconverted data left over, or a day, month
      or year `datetime` rejects). */
  function ParseIsoDate(s: string): (r: Option<Date>)
    ensures r.Some? ==> ValidDate(r.value)
    ensures r.Some? ==> 8 <= |s| <= 10
  {
    if |s| < 8 || s[4] != '-' then None
    else
      // a month token holds no '-', so the second separator sits at 6 or 7
      var sep := if s[6] == '-' then 6 else 7;
      if s[sep] != '-' then None
      else
        match (YearToken(s[..4]), MonthToken(s[5..sep]), DayToken(s[sep + 1..]))
        case (Some(y), Some(m), Some(d)) =>
          if ValidDate(Date(y, m, d)) then Some(Date(y, m, d)) else None
        case _ => None
  }

  /** Two-digit rendering with a leading zero. */
  function Pad2(n: nat): (r: string)
    requires n < 100
  {
    [DigitChar(n / 10), DigitChar(n % 10)]
  }

  /** The canonical `YYYY-MM-DD` spelling of a date, with leading zeros. */
  function FormatIso(d: Date): (r: string)
    requires ValidDate(d)
    ensures |r| == 10
  {
    YearSpelling(d.year) + "-" + Pad2(d.month) + "-" + Pad2(d.day)
  }

  /** The only spelling `%Y` reads as year `y`: four digits, zero-padded. */
  function YearSpelling(y: int): (r: string)
    requires 0 <= y <= 9999
  {
    Pad2(y / 100) + Pad2(y % 100)
  }

  /** The spellings `%m` reads as month `m`: one digit or a zero-padded one
      for January to September, two digits for October to December. */
  function MonthSpellings(m: int): set<string> {
    if 1 <= m <= 9 then {[DigitChar(m)], ['0', DigitChar(m)]}
    else if 10 <= m <= 12 then {Pad2(m)}
    else {}
  }

  /** The spellings `%d` reads as day `d`: one digit, or one digit after a
      zero or a space, for days 1 to 9; two digits for days 10 to 31. */
  function DaySpellings(d: int): set<string> {
    if 1 <= d <= 9 then {[DigitChar(d)], ['0', DigitChar(d)], [' ', DigitChar(d)]}
    else if 10 <= d <= 31 then {Pad2(d)}
    else {}
  }

  /** `s` is exactly a spelling of the valid date `d`: the year, a dash, a
      month spelling, a dash and a day spelling, with nothing after it. */
  ghost predicate SpelledAs(s: string, d: Date) {
    && ValidDate(d)
    && exists mt, dt :: mt in MonthSpellings(d.month) && dt in DaySpellings(d.day)
                     && s == YearSpelling(d.year) + "-" + mt + "-" + dt
  }

  /** The canonical rendering of every valid date parses back to it. */
  lemma ParseFormatRoundTrip(d: Date)
    requires ValidDate(d)
    ensures ParseIsoDate(FormatIso(d)) == Some(d)
  {
    var s := FormatIso(d);
    var y1, y2 := d.year / 100, d.year % 100;
    assert s[..4] == Pad2(y1) + Pad2(y2);
    assert s[5..7] == Pad2(d.month);
    assert s[8..] == Pad2(d.day);
    assert YearToken(s[..4]) == Some(d.year);
    assert MonthToken(s[5..7]) == Some(d.month);
    assert DayToken(s[8..]) == Some(d.day);
  }

  /** Two digits are the two-digit rendering of their value. */
  lemma PadOfDigits(t: string)
    requires |t| == 2 && IsDigit(t[0]) && IsDigit(t[1])
    ensures 10 * DigitValue(t[0]) + DigitValue(t[1]) < 100
    ensures Pad2(10 * DigitValue(t[0]) + DigitValue(t[1])) == t
  {
    var v := 10 * DigitValue(t[0]) + DigitValue(t[1]);
    assert v / 10 == DigitValue(t[0]) && v % 10 == DigitValue(t[1]);
  }

  /** Splitting a four-digit number into its hundreds and the rest. */
  lemma SplitHundreds(y: int, hi: int, lo: int)
    requires 0 <= lo < 100 && y == 100 * hi + lo
    ensures y / 100 == hi && y % 100 == lo
  {
  }

  /** A two-character month or day token (other than a space-padded day) is
      two digits with the token's value. */
  lemma TwoCharTokens(t: string)
    requires |t| == 2 && t[0] != ' '
    ensures MonthToken(t).Some? || DayToken(t).Some? ==>
      IsDigit(t[0]) && IsDigit(t[1])
    ensures MonthToken(t).Some? ==> MonthToken(t).value == 10 * DigitValue(t[0]) + DigitValue(t[1])
    ensures DayToken(t).Some? ==> DayToken(t).value == 10 * DigitValue(t[0]) + DigitValue(t[1])
  {
  }

  /** A ten-character date without a space-padded day is read only in its
      canonical spelling, which formatting gives back. */
  lemma FormatParseRoundTrip(s: string)
    requires |s| == 10 && s[8] != ' '
    requires ParseIsoDate(s).Some?
    ensures FormatIso(ParseIsoDate(s).value) == s
  {
    var d := ParseIsoDate(s).value;
    var yt, mt, dt := s[..4], s[5..7], s[8..];
    assert s[7] == '-';
    assert YearToken(yt) == Some(d.year);
    assert MonthToken(mt) == Some(d.month);
    assert DayToken(dt) == Some(d.day);
    TwoCharTokens(mt);
    TwoCharTokens(dt);
    PadOfDigits(mt);
    PadOfDigits(dt);
    PadOfDigits(yt[..2]);
    PadOfDigits(yt[2..]);
    SplitHundreds(d.year, 10 * DigitValue(yt[0]) + DigitValue(yt[1]), 10 * DigitValue(yt[2]) + DigitValue(yt[3]));
    assert YearSpelling(d.year) == yt;
    assert s == yt + "-" + mt + "-" + dt;
  }

  /** A digit character and its value determine each other. */
  lemma DigitRoundTrip(c: char)
    requires IsDigit(c)
    ensures DigitValue(c) < 10 && DigitChar(DigitValue(c)) == c
  {
  }

  /** `%Y` reads `t` as `y` exactly when `t` is the four-digit spelling of `y`. */
  lemma YearTokenSpelling(t: string, y: int)
    ensures YearToken(t) == Some(y) <==> 0 <= y <= 9999 && t == YearSpelling(y)
  {
    if YearToken(t) == Some(y) {
      PadOfDigits(t[..2]);
      PadOfDigits(t[2..]);
      SplitHundreds(y, 10 * DigitValue(t[0]) + DigitValue(t[1]), 10 * DigitValue(t[2]) + DigitValue(t[3]));
      assert t == t[..2] + t[2..];
    }
    if 0 <= y <= 9999 && t == YearSpelling(y) {
      var hi, lo := y / 100, y % 100;
      assert t == [DigitChar(hi / 10), DigitChar(hi % 10), DigitChar(lo / 10), DigitChar(lo % 10)];
      assert 1000 * (hi / 10) + 100 * (hi % 10) + 10 * (lo / 10) + lo % 10 == 100 * hi + lo;
    }
  }

  /** `%m` reads `t` as `m` exactly when `t` is one of the spellings of `m`. */
  lemma MonthTokenSpelling(t: string, m: int)
    ensures MonthToken(t) == Some(m) <==> t in MonthSpellings(m)
  {
    if MonthToken(t) == Some(m) {
      DigitRoundTrip(t[|t| - 1]);
      if |t| == 1 {
        assert t == [DigitChar(m)];
      } else if t[0] == '0' {
        assert t == ['0', DigitChar(m)];
      } else {
        assert t == Pad2(m);
      }
    }
  }

  /** `%d` reads `t` as `d` exactly when `t` is one of the spellings of `d`. */
  lemma DayTokenSpelling(t: string, d: int)
    ensures DayToken(t) == Some(d) <==> t in DaySpellings(d)
  {
    if DayToken(t) == Some(d) {
      DigitRoundTrip(t[|t| - 1]);
      if |t| == 1 {
        assert t == [DigitChar(d)];
      } else if t[0] == '0' {
        assert t == ['0', DigitChar(d)];
      } else if t[0] == ' ' {
        assert t == [' ', DigitChar(d)];
      } else {
        DigitRoundTrip(t[0]);
        assert t == Pad2(d);
      }
    }
  }

  /** Every month and day spelling is one or two characters, none a dash. */
  lemma SpellingShape(mt: string, m: int, dt: string, d: int)
    requires mt in MonthSpellings(m) && dt in DaySpellings(d)
    ensures 1 <= |mt| <= 2 && '-' !in mt
    ensures 1 <= |dt| <= 2
  {
  }

  /** Every spelling of a valid date is read as that date. */
  lemma ParseAcceptsSpelling(s: string, d: Date)
    requires SpelledAs(s, d)
    ensures ParseIsoDate(s) == Some(d)
  {
    var mt, dt :| mt in MonthSpellings(d.month) && dt in DaySpellings(d.day)
                && s == YearSpelling(d.year) + "-" + mt + "-" + dt;
    var ys := YearSpelling(d.year);
    SpellingShape(mt, d.month, dt, d.day);
    YearTokenSpelling(ys, d.year);
    MonthTokenSpelling(mt, d.month);
    DayTokenSpelling(dt, d.day);
    var sep := 5 + |mt|;
    assert s[4] == '-' && s[sep] == '-';
    assert s[6] == '-' <==> sep == 6 by {
      if sep == 7 { assert s[6] == mt[1]; }
    }
    assert s[..4] == ys;
    assert s[5..sep] == mt;
    assert s[sep + 1..] == dt;
  }

  /** Whatever is read is a spelling of the date read: nothing trails the
      day, whatever the length of the month and day spellings. */
  lemma ParseYieldsSpelling(s: string)
    requires ParseIsoDate(s).Some?
    ensures SpelledAs(s, ParseIsoDate(s).value)
  {
    var d := ParseIsoDate(s).value;
    var sep := if s[6] == '-' then 6 else 7;
    var yt, mt, dt := s[..4], s[5..sep], s[sep + 1..];
    assert YearToken(yt) == Some(d.year);
    assert MonthToken(mt) == Some(d.month);
    assert DayToken(dt) == Some(d.day);
    YearTokenSpelling(yt, d.year);
    MonthTokenSpelling(mt, d.month);
    DayTokenSpelling(dt, d.day);
    assert s == yt + "-" + mt + "-" + dt;
  }

  /** `strptime(s, "%Y-%m-%d")` yields `d` exactly when `s` spells the valid
      date `d`. */
  lemma ParseIsoDateSpellings(s: string, d: Date)
    ensures ParseIsoDate(s) == Some(d) <==> SpelledAs(s, d)
  {
    if ParseIsoDate(s) == Some(d) {
      ParseYieldsSpelling(s);
    }
    if SpelledAs(s, d) {
      ParseAcceptsSpelling(s, d);
    }
  }

  /** Short spellings are read, and text after a one-digit day is not. */
  lemma ShortSpellingExamples()
    ensures ParseIsoDate("2024-8-5") == Some(Date(2024, 8, 5))
    ensures ParseIsoDate("2024-08- 5") == Some(Date(2024, 8, 5))
    ensures ParseIsoDate("2024-8-5X") == None
  {
    assert "2024-8-5"[..4] == "2024" && "2024-8-5"[5..6] == "8" && "2024-8-5"[7..] == "5";
    assert "2024-08- 5"[..4] == "2024" && "2024-08- 5"[5..7] == "08" && "2024-08- 5"[8..] == " 5";
    assert "2024-8-5X"[7..] == "5X";
  }

  /** Lexicographic order on dates. */
  predicate DateBefore(a: Date, b: Date) {
    a.year < b.year || (a.year == b.year && (a.month < b.month || (a.month == b.month && a.day < b.day)))
  }

  /** `a < b` on naive `datetime` values. */
  predicate InstantBefore(a: Instant, b: Instant) {
    DateBefore(a.date, b.date) || (a.date == b.date && a.micros < b.micros)
  }

  /** `datetime.strptime` yields midnight of the parsed date: the earliest
      instant of that date. */
  function Midnight(d: Date): (r: Instant)
    ensures r.date == d
    ensures forall t: Instant :: t.date == d ==> !InstantBefore(t, r)
  {
    Instant(d, 0)
  }

  /** `<` on `datetime` values is a strict total order. */
  lemma InstantOrder(a: Instant, b: Instant, c: Instant)
    ensures !InstantBefore(a, a)
    ensures InstantBefore(a, b) ==> !InstantBefore(b, a)
    ensures InstantBefore(a, b) && InstantBefore(b, c) ==> InstantBefore(a, c)
    ensures a != b ==> InstantBefore(a, b) || InstantBefore(b, a)
  {
  }

  /** The day after `d`. */
  function NextDay(d: Date): (r: Date)
    requires ValidDate(d)
    ensures DateBefore(d, r)
    ensures d != Date(9999, 12, 31) ==> ValidDate(r)
    ensures forall e :: ValidDate(e) && DateBefore(d, e) ==> !DateBefore(e, r)
  {
    if d.day < DaysInMonth(d.year, d.month) then Date(d.year, d.month, d.day + 1)
    else if d.month < 12 then Date(d.year, d.month + 1, 1)
    else Date(d.year + 1, 1, 1)
  }
}
