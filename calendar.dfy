/**
 * Calendar days, the en-US long date display ("January 20, 2024") and the
 * date forms of the ECMA-262 date time string format. The host's Date is
 * represented by the calendar day it denotes, read in UTC.
 */
module Calendar {
  import opened Wrappers
  import opened Text

  datatype CalendarDate = CalendarDate(year: int, month: int, day: int)

  /** Gregorian leap years. */
  predicate IsLeapYear(y: int) {
    y % 4 == 0 && (y % 100 != 0 || y % 400 == 0)
  }

  function DaysInMonth(y: int, m: int): (n: int)
    requires 1 <= m <= 12
    ensures 28 <= n <= 31
    ensures n == 29 <==> m == 2 && IsLeapYear(y)
  {
    if m == 2 then (if IsLeapYear(y) then 29 else 28)
    else if m == 4 || m == 6 || m == 9 || m == 11 then 30
    else 31
  }

  /** A day of the proleptic Gregorian calendar from year 1 on. */
  predicate IsValidDate(d: CalendarDate) {
    1 <= d.year && 1 <= d.month <= 12 && 1 <= d.day <= DaysInMonth(d.year, d.month)
  }

  /** What a Date that is not an Invalid Date denotes. */
  type Date = d: CalendarDate | IsValidDate(d) witness CalendarDate(1970, 1, 1)

  const MonthNames: seq<string> :=
    ["January", "February", "March", "April", "May", "June",
     "July", "August", "September", "October", "November", "December"]

  /** The full English month name (month: 'long'). */
  function MonthName(m: int): (name: string)
    requires 1 <= m <= 12
    ensures name != [] && ' ' !in name && ',' !in name
  {
    MonthNames[m - 1]
  }

  /** The month whose full name is name, if any. */
  function MonthNumber(name: string): (r: Option<int>)
    ensures r.Some? ==> 1 <= r.value <= 12 && MonthName(r.value) == name
    ensures r.None? ==> forall m :: 1 <= m <= 12 ==> MonthName(m) != name
  {
    MonthFrom(name, 1)
  }

  function MonthFrom(name: string, m: int): (r: Option<int>)
    requires 1 <= m <= 13
    ensures r.Some? ==> m <= r.value <= 12 && MonthName(r.value) == name
    ensures r.None? ==> forall k :: m <= k <= 12 ==> MonthName(k) != name
    decreases 13 - m
  {
    if m == 13 then None
    else if MonthName(m) == name then Some(m)
    else MonthFrom(name, m + 1)
  }

  /** Length, first and third letter: enough to tell the month names apart. */
  function MonthSignature(m: int): (sig: (int, char, char))
    requires 1 <= m <= 12
    ensures var name := MonthName(m); |name| >= 3 && sig == (|name|, name[0], name[2])
  {
    match m
    case 1 => (7, 'J', 'n')
    case 2 => (8, 'F', 'b')
    case 3 => (5, 'M', 'r')
    case 4 => (5, 'A', 'r')
    case 5 => (3, 'M', 'y')
    case 6 => (4, 'J', 'n')
    case 7 => (4, 'J', 'l')
    case 8 => (6, 'A', 'g')
    case 9 => (9, 'S', 'p')
    case 10 => (7, 'O', 't')
    case 11 => (8, 'N', 'v')
    case 12 => (8, 'D', 'c')
  }

  /** Reading a month's name back gives that month. */
  lemma MonthNumberOfName(m: int)
    requires 1 <= m <= 12
    ensures MonthNumber(MonthName(m)) == Some(m)
  {
    var k := MonthNumber(MonthName(m)).value;
    assert MonthSignature(k) == MonthSignature(m);
  }

  /**
   * toLocaleDateString('en-US', {year: 'numeric', month: 'long', day:
   * 'numeric'}): "<month name> <day>, <year>", the day and the year in
   * decimal without leading zeros.
   */
  function LongDate(d: Date): string {
    MonthName(d.month) + " " + NatToString(d.day) + ", " + NatToString(d.year)
  }

  /**
   * Reads "<month name> <day>, <year>" with canonical numerals back into the
   * day it names; None for anything else.
   */
  function ParseLongDate(s: string): Option<Date> {
    match SplitFirst(s, ' ')
    case None => None
    case Some((name, rest)) =>
      match MonthNumber(name)
      case None => None
      case Some(m) => ParseDayYear(m, rest)
  }

  /** Reads "<day>, <year>" after the month name. */
  function ParseDayYear(m: int, rest: string): Option<Date> {
    match SplitFirst(rest, ',')
    case None => None
    case Some((dayText, tail)) =>
      if tail == [] || tail[0] != ' ' then None else ReadDay(m, dayText, tail[1..])
  }

  /** The day with month m and the day and year numerals given, if they are canonical and name a valid day. */
  function ReadDay(m: int, dayText: string, yearText: string): Option<Date> {
    if !IsCanonicalNumeral(dayText) || !IsCanonicalNumeral(yearText) then None
    else
      var d := CalendarDate(DigitsValue(yearText), m, DigitsValue(dayText));
      if IsValidDate(d) then Some(d) else None
  }

  /** The display of a day reads back as that day, so different days display differently. */
  lemma LongDateRoundTrip(d: Date)
    ensures ParseLongDate(LongDate(d)) == Some(d)
  {
    var name, dayText, yearText := MonthName(d.month), NatToString(d.day), NatToString(d.year);
    var rest := dayText + [','] + ([' '] + yearText);
    LongDateOfParts(d, name, dayText, yearText);
    SplitFirstOfJoin(name, ' ', rest);
    MonthNumberOfName(d.month);
    ParseDayYearOfDisplay(d);
  }

  /** "<day>, <year>" in canonical numerals reads back as the day. */
  lemma ParseDayYearOfDisplay(d: Date)
    ensures ParseDayYear(d.month, NatToString(d.day) + [','] + ([' '] + NatToString(d.year))) == Some(d)
  {
    var dayText, yearText := NatToString(d.day), NatToString(d.year);
    SplitFirstOfJoin(dayText, ',', [' '] + yearText);
    assert ([' '] + yearText)[1..] == yearText;
  }

  /** The numerals ReadDay accepts are the decimal renderings of the day and year it returns. */
  lemma ReadDayCanonical(m: int, dayText: string, yearText: string)
    requires ReadDay(m, dayText, yearText).Some?
    ensures var d := ReadDay(m, dayText, yearText).value;
      d.month == m && NatToString(d.day) == dayText && NatToString(d.year) == yearText
  {
    CanonicalNumeralUnique(dayText);
    CanonicalNumeralUnique(yearText);
  }

  /** Only the canonical display of a day reads back as that day. */
  lemma ParseLongDateCanonical(s: string)
    requires ParseLongDate(s).Some?
    ensures LongDate(ParseLongDate(s).value) == s
  {
    var d := ParseLongDate(s).value;
    var (name, rest) := SplitFirst(s, ' ').value;
    var m := MonthNumber(name).value;
    assert ParseDayYear(m, rest) == Some(d);
    ParseDayYearCanonical(m, rest);
    LongDateOfParts(d, name, NatToString(d.day), NatToString(d.year));
  }

  /** What ParseDayYear accepts is "<day>, <year>" in canonical numerals. */
  lemma ParseDayYearCanonical(m: int, rest: string)
    requires ParseDayYear(m, rest).Some?
    ensures var d := ParseDayYear(m, rest).value;
      d.month == m && rest == NatToString(d.day) + [','] + ([' '] + NatToString(d.year))
  {
    var (dayText, tail) := SplitFirst(rest, ',').value;
    var yearText := tail[1..];
    ReadDayCanonical(m, dayText, yearText);
    assert tail == [' '] + yearText;
  }

  /** The two ways of gluing "<a> <b>, <c>" together agree. */
  lemma DisplayAssociates(a: string, b: string, c: string)
    ensures a + [' '] + (b + [','] + ([' '] + c)) == a + " " + b + ", " + c
  {
    var lhs, rhs := a + [' '] + (b + [','] + ([' '] + c)), a + " " + b + ", " + c;
    assert |lhs| == |rhs|;
    forall i | 0 <= i < |lhs| ensures lhs[i] == rhs[i] {
      if i < |a| + 1 + |b| + 2 {
        assert lhs[i] == (a + " " + b + ", ")[i];
      }
    }
  }

  /** The display of a day, from the month name and the two numerals. */
  lemma LongDateOfParts(d: Date, name: string, dayText: string, yearText: string)
    requires MonthName(d.month) == name && NatToString(d.day) == dayText && NatToString(d.year) == yearText
    ensures LongDate(d) == name + [' '] + (dayText + [','] + ([' '] + yearText))
  {
    DisplayAssociates(name, dayText, yearText);
  }

  // ---------------------------------------------------------------------
  // The ECMA-262 date time string format (date forms, optional time)
  // ---------------------------------------------------------------------

  /** "YYYY", "YYYY-MM" or "YYYY-MM-DD"; an absent month or day is 1. */
  function ParseDateForm(s: string): Option<CalendarDate> {
    if |s| == 4 && AllDigits(s) then
      Some(CalendarDate(DigitsValue(s), 1, 1))
    else if |s| == 7 && AllDigits(s[..4]) && s[4] == '-' && AllDigits(s[5..]) then
      Some(CalendarDate(DigitsValue(s[..4]), DigitsValue(s[5..]), 1))
    else if |s| == 10 && AllDigits(s[..4]) && s[4] == '-' && AllDigits(s[5..7]) && s[7] == '-' && AllDigits(s[8..]) then
      Some(CalendarDate(DigitsValue(s[..4]), DigitsValue(s[5..7]), DigitsValue(s[8..])))
    else
      None
  }

  /** Two digits denoting at most max. */
  predicate IsTwoDigitsAtMost(s: string, max: nat) {
    |s| == 2 && AllDigits(s) && DigitsValue(s) <= max
  }

  /** What may follow 'T': "HH:mm", "HH:mm:ss" or "HH:mm:ss.sss", each optionally followed by "Z". */
  predicate IsTimeForm(t: string) {
    var u := if t != [] && t[|t| - 1] == 'Z' then t[..|t| - 1] else t;
    && (|u| == 5 || |u| == 8 || |u| == 12)
    && IsTwoDigitsAtMost(u[..2], 23) && u[2] == ':' && IsTwoDigitsAtMost(u[3..5], 59)
    && (|u| >= 8 ==> u[5] == ':' && IsTwoDigitsAtMost(u[6..8], 59))
    && (|u| == 12 ==> u[8] == '.' && AllDigits(u[9..]))
  }

  /** "HH:mm:ss" with the fields zero-padded. */
  function TimeText(h: nat, mi: nat, se: nat): (s: string)
    requires h < 100 && mi < 100 && se < 100
  {
    PaddedDigits(h, 2) + ":" + PaddedDigits(mi, 2) + ":" + PaddedDigits(se, 2)
  }

  /** A time of day in range, with or without a trailing "Z", is a time form. */
  lemma TimeTextIsTimeForm(h: nat, mi: nat, se: nat)
    requires h <= 23 && mi <= 59 && se <= 59
    ensures IsTimeForm(TimeText(h, mi, se)) && IsTimeForm(TimeText(h, mi, se) + "Z")
  {
    var hs, ms, ss := PaddedDigits(h, 2), PaddedDigits(mi, 2), PaddedDigits(se, 2);
    var t := TimeText(h, mi, se);
    assert t == hs + [':'] + ms + [':'] + ss;
    assert t[..2] == hs && t[3..5] == ms && t[6..8] == ss;
    var z := t + "Z";
    assert z[|z| - 1] == 'Z' && z[..|z| - 1] == t;
  }

  /**
   * A Date parser for the date time string format: a date form, then
   * optionally 'T' and a time form. The time of day does not change the
   * calendar day. Anything else, and any out-of-range field, is an Invalid
   * Date (None).
   */
  function ParseIso(s: string): (r: Option<Date>)
    ensures s == [] ==> r.None?
    ensures r.Some? ==> r.value.year < 10000
  {
    var t := IndexOf(s, 'T');
    var datePart := if t < 0 then s else s[..t];
    ParseDateFormYear(datePart);
    if t >= 0 && !IsTimeForm(s[t + 1..]) then None
    else
      match ParseDateForm(datePart)
      case None => None
      case Some(d) => if IsValidDate(d) then Some(d) else None
  }

  /** The date forms have four-digit years. */
  lemma ParseDateFormYear(p: string)
    ensures ParseDateForm(p).Some? ==> ParseDateForm(p).value.year < 10000
  {
    if |p| >= 4 && AllDigits(p[..4]) {
      DigitsValueBelow(p[..4]);
      assert Pow10(4) == 10000;
      if |p| == 4 {
        assert p[..4] == p;
      }
    }
  }

  /** "YYYY-MM-DD" with the fields zero-padded, whether or not they name a day. */
  function IsoText(y: nat, m: nat, d: nat): (s: string)
    requires y < 10000 && m < 100 && d < 100
  {
    PaddedDigits(y, 4) + "-" + PaddedDigits(m, 2) + "-" + PaddedDigits(d, 2)
  }

  /** "YYYY-MM-DD" for a day of the years 1 to 9999. */
  function IsoDate(d: Date): (s: string)
    requires d.year <= 9999
  {
    IsoText(d.year, d.month, d.day)
  }

  /** The fields of YYYY-MM-DD text sit at fixed positions, and the text has no 'T'. */
  lemma IsoTextFields(y: nat, m: nat, d: nat)
    requires y < 10000 && m < 100 && d < 100
    ensures var s := IsoText(y, m, d);
      && |s| == 10 && 'T' !in s && s[4] == '-' && s[7] == '-'
      && s[..4] == PaddedDigits(y, 4) && s[5..7] == PaddedDigits(m, 2) && s[8..] == PaddedDigits(d, 2)
  {
    var ys, ms, ds := PaddedDigits(y, 4), PaddedDigits(m, 2), PaddedDigits(d, 2);
    var s := IsoText(y, m, d);
    assert s == ys + ['-'] + ms + ['-'] + ds;
    assert s[..4] == ys && s[5..7] == ms && s[8..] == ds;
    assert 'T' !in s by {
      forall i | 0 <= i < |s| ensures s[i] != 'T' {
        if i < 4 {
          assert s[i] == ys[i];
        } else if 4 < i < 7 {
          assert s[i] == ms[i - 5];
        } else if 7 < i {
          assert s[i] == ds[i - 8];
        }
      }
    }
  }

  /** Text of the YYYY-MM-DD shape parses exactly when its fields name a valid day, and then as that day. */
  lemma ParseIsoText(y: nat, m: nat, d: nat)
    requires y < 10000 && m < 100 && d < 100
    ensures ParseIso(IsoText(y, m, d)) ==
      (if IsValidDate(CalendarDate(y, m, d)) then Some(CalendarDate(y, m, d)) else None)
  {
    var s := IsoText(y, m, d);
    IsoTextFields(y, m, d);
    assert IndexOf(s, 'T') == -1;
    assert ParseDateForm(s) == Some(CalendarDate(y, m, d));
  }

  /** "YYYY-MM" with the fields zero-padded. */
  function IsoMonthText(y: nat, m: nat): (s: string)
    requires y < 10000 && m < 100
  {
    PaddedDigits(y, 4) + "-" + PaddedDigits(m, 2)
  }

  /** The fields of YYYY-MM text sit at fixed positions, and the text has no 'T'. */
  lemma IsoMonthTextFields(y: nat, m: nat)
    requires y < 10000 && m < 100
    ensures var s := IsoMonthText(y, m);
      |s| == 7 && 'T' !in s && s[4] == '-' && s[..4] == PaddedDigits(y, 4) && s[5..] == PaddedDigits(m, 2)
  {
    var ys, ms := PaddedDigits(y, 4), PaddedDigits(m, 2);
    var s := IsoMonthText(y, m);
    assert s == ys + ['-'] + ms;
    assert s[..4] == ys && s[5..] == ms;
    assert 'T' !in s by {
      forall i | 0 <= i < |s| ensures s[i] != 'T' {
        if i < 4 {
          assert s[i] == ys[i];
        } else if 4 < i {
          assert s[i] == ms[i - 5];
        }
      }
    }
  }

  /** Text of the YYYY-MM shape parses as the first of that month, when the year and month are in range. */
  lemma ParseIsoMonthText(y: nat, m: nat)
    requires y < 10000 && m < 100
    ensures ParseIso(IsoMonthText(y, m)) ==
      (if 1 <= y && 1 <= m <= 12 then Some(CalendarDate(y, m, 1)) else None)
  {
    var s := IsoMonthText(y, m);
    IsoMonthTextFields(y, m);
    assert IndexOf(s, 'T') == -1;
    assert ParseDateForm(s) == Some(CalendarDate(y, m, 1));
  }

  /** The ISO rendering of a day parses back as that day. */
  lemma IsoDateRoundTrip(d: Date)
    requires d.year <= 9999
    ensures ParseIso(IsoDate(d)) == Some(d)
  {
    ParseIsoText(d.year, d.month, d.day);
  }

  /** A date string and the same string with a time of day parse to the same calendar day. */
  lemma TimeOfDayKeepsDay(datePart: string, time: string)
    requires 'T' !in datePart
    requires IsTimeForm(time)
    ensures ParseIso(datePart + "T" + time) == ParseIso(datePart)
  {
    var s := datePart + ("T" + time);
    assert datePart + "T" + time == s;
    IndexOfAfterFree(datePart, "T" + time, 'T');
    assert s[..|datePart|] == datePart;
    assert s[|datePart| + 1..] == time;
  }
}
