/** The payload date: `datetime.strptime(field.split()[0],
    "%d/%b/%Y:%H:%M:%S")`, read as whole seconds on the proleptic
    Gregorian calendar. Only the fixed shape an access log writes is
    accepted: two-digit day, hour, minute and second, four-digit year. */
module Timestamp {
  import opened Strings

  datatype DateTime = DateTime(year: int, month: int, day: int, hour: int, minute: int, second: int)

  predicate IsLeap(y: int)
  {
    y % 4 == 0 && (y % 100 != 0 || y % 400 == 0)
  }

  function DaysInYear(y: int): int
  {
    if IsLeap(y) then 366 else 365
  }

  function DaysInMonth(y: int, m: int): int
    requires 1 <= m <= 12
  {
    if m == 2 then (if IsLeap(y) then 29 else 28)
    else if m == 4 || m == 6 || m == 9 || m == 11 then 30
    else 31
  }

  /** Days in the months of year `y` before month `m`. */
  function DaysBeforeMonth(y: int, m: int): int
    requires 1 <= m <= 12
  {
    var table := [0, 31, 59, 90, 120, 151, 181, 212, 243, 273, 304, 334];
    table[m - 1] + (if m > 2 && IsLeap(y) then 1 else 0)
  }

  /** Days from 1 January of year 1 to 1 January of year `y`. */
  function DaysBeforeYear(y: int): int
    requires y >= 1
  {
    var p := y - 1;
    p * 365 + p / 4 - p / 100 + p / 400
  }

  /** What the `datetime` constructor accepts. */
  predicate Valid(dt: DateTime)
  {
    && 1 <= dt.year <= 9999
    && 1 <= dt.month <= 12
    && 1 <= dt.day <= DaysInMonth(dt.year, dt.month)
    && 0 <= dt.hour <= 23
    && 0 <= dt.minute <= 59
    && 0 <= dt.second <= 59
  }

  function DayNumber(dt: DateTime): int
    requires Valid(dt)
  {
    DaysBeforeYear(dt.year) + DaysBeforeMonth(dt.year, dt.month) + dt.day - 1
  }

  /** Seconds since 0001-01-01 00:00:00. */
  function Seconds(dt: DateTime): int
    requires Valid(dt)
  {
    DayNumber(dt) * 86400 + dt.hour * 3600 + dt.minute * 60 + dt.second
  }

  /** Calendar order: year, then month, day, hour, minute, second. */
  predicate Before(a: DateTime, b: DateTime)
  {
    if a.year != b.year then a.year < b.year
    else if a.month != b.month then a.month < b.month
    else if a.day != b.day then a.day < b.day
    else if a.hour != b.hour then a.hour < b.hour
    else if a.minute != b.minute then a.minute < b.minute
    else a.second < b.second
  }

  lemma YearStep(y: int)
    requires y >= 1
    ensures DaysBeforeYear(y + 1) == DaysBeforeYear(y) + DaysInYear(y)
  {
    var p := y - 1;
    assert (p + 1) / 4 == p / 4 + (if (p + 1) % 4 == 0 then 1 else 0);
    assert (p + 1) / 100 == p / 100 + (if (p + 1) % 100 == 0 then 1 else 0);
    assert (p + 1) / 400 == p / 400 + (if (p + 1) % 400 == 0 then 1 else 0);
  }

  lemma {:induction false} YearMonotone(y1: int, y2: int)
    requires 1 <= y1 < y2
    ensures DaysBeforeYear(y1) + DaysInYear(y1) <= DaysBeforeYear(y2)
    decreases y2 - y1
  {
    YearStep(y1);
    if y1 + 1 < y2 {
      YearMonotone(y1 + 1, y2);
    }
  }

  lemma MonthFits(y: int, m: int)
    requires 1 <= m <= 12
    ensures DaysBeforeMonth(y, m) + DaysInMonth(y, m) <= DaysInYear(y)
    ensures m < 12 ==> DaysBeforeMonth(y, m + 1) == DaysBeforeMonth(y, m) + DaysInMonth(y, m)
  {
  }

  lemma {:induction false} MonthMonotone(y: int, m1: int, m2: int)
    requires 1 <= m1 < m2 <= 12
    ensures DaysBeforeMonth(y, m1) + DaysInMonth(y, m1) <= DaysBeforeMonth(y, m2)
    decreases m2 - m1
  {
    MonthFits(y, m1);
    if m1 + 1 < m2 {
      MonthMonotone(y, m1 + 1, m2);
    }
  }

  lemma DayNumberOrder(a: DateTime, b: DateTime)
    requires Valid(a) && Valid(b)
    requires a.year < b.year || (a.year == b.year && a.month < b.month)
    ensures DayNumber(a) < DayNumber(b)
  {
    MonthFits(a.year, a.month);
    if a.year < b.year {
      YearMonotone(a.year, b.year);
    } else {
      MonthMonotone(a.year, a.month, b.month);
    }
  }

  /** The seconds count orders timestamps exactly as the calendar does. */
  lemma SecondsOrder(a: DateTime, b: DateTime)
    requires Valid(a) && Valid(b)
    ensures Seconds(a) < Seconds(b) <==> Before(a, b)
    ensures Seconds(a) == Seconds(b) <==> a == b
  {
    if a.year != b.year || a.month != b.month {
      if a.year < b.year || (a.year == b.year && a.month < b.month) {
        DayNumberOrder(a, b);
      } else {
        DayNumberOrder(b, a);
      }
    }
  }

  // ---------------------------------------------------------------------
  // Parsing "%d/%b/%Y:%H:%M:%S"

  predicate IsDigit(c: char)
  {
    '0' <= c <= '9'
  }

  function DigitValue(c: char): int
  {
    c as int - '0' as int
  }

  function Lower(c: char): char
  {
    if 'A' <= c <= 'Z' then (c as int + 32) as char else c
  }

  const MonthNames: seq<string> :=
    ["Jan", "Feb", "Mar", "Apr", "May", "Jun", "Jul", "Aug", "Sep", "Oct", "Nov", "Dec"]

  /** `%b`: a three-letter month abbreviation, case ignored. */
  function MonthNumber(s: string): (m: Option<int>)
    ensures m.Some? ==> 1 <= m.value <= 12
  {
    if |s| != 3 then None
    else
      var n := [Lower(s[0]), Lower(s[1]), Lower(s[2])];
      if n == "jan" then Some(1) else if n == "feb" then Some(2)
      else if n == "mar" then Some(3) else if n == "apr" then Some(4)
      else if n == "may" then Some(5) else if n == "jun" then Some(6)
      else if n == "jul" then Some(7) else if n == "aug" then Some(8)
      else if n == "sep" then Some(9) else if n == "oct" then Some(10)
      else if n == "nov" then Some(11) else if n == "dec" then Some(12)
      else None
  }

  predicate DigitsAt(s: string, positions: seq<int>)
  {
    forall k :: 0 <= k < |positions| ==> 0 <= positions[k] < |s| && IsDigit(s[positions[k]])
  }

  function Number2(s: string, i: int): int
    requires 0 <= i && i + 2 <= |s|
  {
    DigitValue(s[i]) * 10 + DigitValue(s[i + 1])
  }

  function Number4(s: string, i: int): int
    requires 0 <= i && i + 4 <= |s|
  {
    Number2(s, i) * 100 + Number2(s, i + 2)
  }

  /** `strptime(s, "%d/%b/%Y:%H:%M:%S")` on the fixed shape `DD/Mon/YYYY:HH:MM:SS`. */
  function ParseClock(s: string): (r: Option<DateTime>)
    ensures r.Some? ==> Valid(r.value)
  {
    if |s| == 20 && s[2] == '/' && s[6] == '/' && s[11] == ':' && s[14] == ':' && s[17] == ':'
       && DigitsAt(s, [0, 1, 7, 8, 9, 10, 12, 13, 15, 16, 18, 19])
       && MonthNumber(s[3..6]).Some?
    then
      var dt := DateTime(Number4(s, 7), MonthNumber(s[3..6]).value, Number2(s, 0),
                         Number2(s, 12), Number2(s, 15), Number2(s, 18));
      if Valid(dt) then Some(dt) else None
    else None
  }

  // ---------------------------------------------------------------------
  // Writing a timestamp the way the access log does

  function DigitChar(n: int): char
    requires 0 <= n <= 9
  {
    ('0' as int + n) as char
  }

  function Pad2(n: int): string
    requires 0 <= n <= 99
  {
    [DigitChar(n / 10), DigitChar(n % 10)]
  }

  /** `DD/Mon/YYYY:HH:MM:SS` */
  function Format(dt: DateTime): (s: string)
    requires Valid(dt)
    ensures |s| == 20 && NoSpace(s)
  {
    var d, mo, c, y := Pad2(dt.day), MonthNames[dt.month - 1], Pad2(dt.year / 100), Pad2(dt.year % 100);
    var h, mi, se := Pad2(dt.hour), Pad2(dt.minute), Pad2(dt.second);
    [d[0], d[1], '/', mo[0], mo[1], mo[2], '/', c[0], c[1], y[0], y[1],
     ':', h[0], h[1], ':', mi[0], mi[1], ':', se[0], se[1]]
  }

  lemma MonthNumberOfName(m: int)
    requires 1 <= m <= 12
    ensures MonthNumber(MonthNames[m - 1]) == Some(m)
  {
    var name := MonthNames[m - 1];
    var n := [Lower(name[0]), Lower(name[1]), Lower(name[2])];
    if m == 1 { assert n == "jan"; }
    else if m == 2 { assert n == "feb"; }
    else if m == 3 { assert n == "mar"; }
    else if m == 4 { assert n == "apr"; }
    else if m == 5 { assert n == "may"; }
    else if m == 6 { assert n == "jun"; }
    else if m == 7 { assert n == "jul"; }
    else if m == 8 { assert n == "aug"; }
    else if m == 9 { assert n == "sep"; }
    else if m == 10 { assert n == "oct"; }
    else if m == 11 { assert n == "nov"; }
    else { assert n == "dec"; }
  }

  /** Parsing what `Format` writes gives the timestamp back. */
  lemma ParseFormat(dt: DateTime)
    requires Valid(dt)
    ensures ParseClock(Format(dt)) == Some(dt)
  {
    var s := Format(dt);
    FormatFields(dt);
    MonthNumberOfName(dt.month);
  }

  /** Where `Format` puts each field, and that each reads back. */
  lemma FormatFields(dt: DateTime)
    requires Valid(dt)
    ensures var s := Format(dt);
      && s[2] == '/' && s[6] == '/' && s[11] == ':' && s[14] == ':' && s[17] == ':'
      && DigitsAt(s, [0, 1, 7, 8, 9, 10, 12, 13, 15, 16, 18, 19])
      && s[3..6] == MonthNames[dt.month - 1]
      && Number2(s, 0) == dt.day && Number4(s, 7) == dt.year
      && Number2(s, 12) == dt.hour && Number2(s, 15) == dt.minute && Number2(s, 18) == dt.second
  {
    var s := Format(dt);
    assert s[3..6] == MonthNames[dt.month - 1];
    FormatDigits(dt);
    Pad2Digits(dt.year / 100);
    Pad2Digits(dt.year % 100);
    assert Number4(s, 7) == dt.year;
  }

  lemma FormatDigits(dt: DateTime)
    requires Valid(dt)
    ensures var s := Format(dt);
      && DigitsAt(s, [0, 1, 7, 8, 9, 10, 12, 13, 15, 16, 18, 19])
      && Number2(s, 0) == dt.day && Number2(s, 12) == dt.hour
      && Number2(s, 15) == dt.minute && Number2(s, 18) == dt.second
  {
    var s := Format(dt);
    Pad2Digits(dt.day);
    Pad2Digits(dt.year / 100);
    Pad2Digits(dt.year % 100);
    Pad2Digits(dt.hour);
    Pad2Digits(dt.minute);
    Pad2Digits(dt.second);
    assert DigitsAt(s, [0, 1, 7, 8, 9, 10, 12, 13, 15, 16, 18, 19]);
  }

  /** The two characters of `Pad2(n)` are digits that read back as `n`. */
  lemma Pad2Digits(n: int)
    requires 0 <= n <= 99
    ensures IsDigit(Pad2(n)[0]) && IsDigit(Pad2(n)[1])
    ensures DigitValue(Pad2(n)[0]) * 10 + DigitValue(Pad2(n)[1]) == n
  {
  }

  // ---------------------------------------------------------------------
  // The log's date field

  datatype LogDate = Parsed(seconds: int) | NoToken | Malformed

  /** `strptime(field.split()[0], ...)`: `NoToken` is the IndexError of a
      blank field, `Malformed` the ValueError of a bad timestamp. */
  function ParseLogDate(field: string): (r: LogDate)
    ensures r.NoToken? <==> Tokens(field) == []
  {
    var ts := Tokens(field);
    if ts == [] then NoToken
    else match ParseClock(ts[0])
      case Some(dt) => Parsed(Seconds(dt))
      case None => Malformed
  }

  /** The time-zone offset after the first blank is discarded. */
  lemma ZoneDiscarded(clock: string, blank: char, zone: string)
    requires clock != [] && NoSpace(clock) && IsSpace(blank)
    ensures ParseLogDate(clock + [blank] + zone) == ParseLogDate(clock)
  {
    FirstToken(clock, blank, zone);
    TokensOfWord(clock);
  }

  /** A date field as Apache writes it yields the seconds of its timestamp. */
  lemma ParseLogDateOfFormat(dt: DateTime, zone: string)
    requires Valid(dt)
    ensures ParseLogDate(Format(dt) + [' '] + zone) == Parsed(Seconds(dt))
  {
    var s := Format(dt);
    ParseFormat(dt);
    ZoneDiscarded(s, ' ', zone);
    TokensOfWord(s);
    assert ParseLogDate(s) == Parsed(Seconds(dt));
  }
}
