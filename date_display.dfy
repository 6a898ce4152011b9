/**
 * The formatDate helper, which appears twice: once for the meditations
 * list (tests/unit/formatDate.test.ts) and once for the note card
 * (tests/unit/NoteCard.formatDate.test.ts). Both guard against a falsy
 * argument, construct a Date, return "" for an Invalid Date and otherwise
 * display the day in the en-US long form.
 *
 * Constructing a Date from a string is host code; here it is the parser
 * passed in, which returns None for an Invalid Date. Calendar.ParseIso is
 * a parser for the ISO forms the tests use.
 */
module DateDisplay {
  import opened Wrappers
  import opened Text
  import opened Calendar

  /** The argument type string | null | undefined. */
  datatype DateInput = Null | Undefined | Str(text: string)

  /** !dateString: null, undefined and the empty string are falsy. */
  predicate IsFalsy(dateString: DateInput) {
    dateString.Null? || dateString.Undefined? || dateString.text == ""
  }

  /** new Date(text), with None for an Invalid Date (a NaN time value). */
  type DateParser = string -> Option<Date>

  /**
   * formatDate of the meditations list: "" for a falsy argument (the parser
   * is not consulted) and for an Invalid Date; otherwise the en-US long
   * display of the parsed day, which reads back as exactly that day.
   */
  function FormatDate(dateString: DateInput, parse: DateParser): (r: string)
    ensures IsFalsy(dateString) ==> r == ""
    ensures r == "" <==> IsFalsy(dateString) || parse(dateString.text).None?
    ensures r != "" ==> ParseLongDate(r) == parse(dateString.text)
  {
    if IsFalsy(dateString) then
      ""
    else
      FormattedDay(parse(dateString.text))
  }

  /**
   * formatDate of the note card, written as its own copy: "" exactly for a
   * falsy argument or an Invalid Date, otherwise a display that reads back
   * as the parsed day.
   */
  function NoteCardFormatDate(dateString: DateInput, parse: DateParser): (r: string)
    ensures r == "" <==> IsFalsy(dateString) || parse(dateString.text).None?
    ensures r != "" ==> ParseLongDate(r) == parse(dateString.text)
  {
    if IsFalsy(dateString) then
      ""
    else
      var date := parse(dateString.text);
      if date.None? then "" else LongDateRoundTrip(date.value); LongDate(date.value)
  }

  /** The two copies agree on every argument and every parser. */
  lemma CopiesAgree(dateString: DateInput, parse: DateParser)
    ensures NoteCardFormatDate(dateString, parse) == FormatDate(dateString, parse)
  {
  }

  /** A falsy argument gives "" whatever the parser would have said: parsing is not attempted. */
  lemma FalsyIgnoresParser(dateString: DateInput, parse1: DateParser, parse2: DateParser)
    requires IsFalsy(dateString)
    ensures FormatDate(dateString, parse1) == FormatDate(dateString, parse2) == ""
  {
  }

  /** A day written as YYYY-MM-DD displays as that day. */
  lemma FormatIsoDate(d: Date)
    requires d.year <= 9999
    ensures FormatDate(Str(IsoDate(d)), ParseIso) == LongDate(d)
  {
    IsoDateRoundTrip(d);
  }

  /** A date string and the same date with a time of day display identically. */
  lemma TimestampSameDisplay(datePart: string, time: string)
    requires 'T' !in datePart
    requires IsTimeForm(time)
    ensures FormatDate(Str(datePart + "T" + time), ParseIso) == FormatDate(Str(datePart), ParseIso)
  {
    var stamped := datePart + "T" + time;
    TimeOfDayKeepsDay(datePart, time);
    assert |stamped| > 0;
  }

  /** ISO text whose fields name no day (a thirteenth month, a February 29 outside a leap year) displays as "". */
  lemma ImpossibleIsoTextIsBlank(y: nat, m: nat, d: nat)
    requires y < 10000 && m < 100 && d < 100
    ensures FormatDate(Str(IsoText(y, m, d)), ParseIso) == "" <==> !IsValidDate(CalendarDate(y, m, d))
  {
    ParseIsoText(y, m, d);
    assert |IsoText(y, m, d)| == 10;
  }

  /** The year numerals the examples display. */
  lemma YearNumerals()
    ensures NatToString(2023) == "2023" && NatToString(2024) == "2024"
  {
    YearNumeral2023();
  }

  /** The zero-padded years the examples use. */
  lemma PaddedYears()
    ensures PaddedDigits(2023, 4) == "2023" && PaddedDigits(2024, 4) == "2024"
  {
    assert PaddedDigits(2, 1) == "2";
    assert PaddedDigits(20, 2) == "20";
    assert PaddedDigits(202, 3) == "202";
  }

  lemma YearNumeral2023()
    ensures NatToString(2023) == "2023"
  {
    assert NatToString(202) == "202";
  }

  /** The ISO text of a day displays as that day's long form. */
  lemma IsoTextDisplaysAs(y: nat, m: nat, d: nat, display: string)
    requires y < 10000 && m < 100 && d < 100
    requires IsValidDate(CalendarDate(y, m, d)) && LongDate(CalendarDate(y, m, d)) == display
    ensures FormatDate(Str(IsoText(y, m, d)), ParseIso) == display
  {
    FormatIsoDate(CalendarDate(y, m, d));
  }

  /** The text "2024-01-20". */
  lemma JanuaryTwentiethText()
    ensures IsoText(2024, 1, 20) == "2024-01-20"
  {
    PaddedYears();
    PaddedTwoDigits(1);
    PaddedTwoDigits(20);
    assert DigitChar(0) == '0' && DigitChar(1) == '1' && DigitChar(2) == '2';
  }

  /** The long display "January 20, 2024". */
  lemma JanuaryTwentiethDisplay()
    ensures LongDate(CalendarDate(2024, 1, 20)) == "January 20, 2024"
  {
    YearNumerals();
  }

  /** "2024-01-20" displays as "January 20, 2024". */
  lemma DisplaysJanuaryTwentieth(text: string)
    requires text == "2024-01-20"
    ensures FormatDate(Str(text), ParseIso) == "January 20, 2024"
  {
    JanuaryTwentiethText();
    JanuaryTwentiethDisplay();
    IsoTextDisplaysAs(2024, 1, 20, "January 20, 2024");
  }

  /** The text "2024-03-05". */
  lemma MarchFifthText()
    ensures IsoText(2024, 3, 5) == "2024-03-05"
  {
    PaddedYears();
    PaddedTwoDigits(3);
    PaddedTwoDigits(5);
    assert DigitChar(0) == '0' && DigitChar(3) == '3' && DigitChar(5) == '5';
  }

  /** The long display "March 5, 2024". */
  lemma MarchFifthDisplay()
    ensures LongDate(CalendarDate(2024, 3, 5)) == "March 5, 2024"
  {
    YearNumerals();
  }

  /** "2024-03-05" displays as "March 5, 2024": no leading zero on the day. */
  lemma DisplaysDayWithoutLeadingZero(text: string)
    requires text == "2024-03-05"
    ensures FormatDate(Str(text), ParseIso) == "March 5, 2024"
  {
    MarchFifthText();
    MarchFifthDisplay();
    IsoTextDisplaysAs(2024, 3, 5, "March 5, 2024");
  }

  /** The text "2024-02-29". */
  lemma LeapDayText()
    ensures IsoText(2024, 2, 29) == "2024-02-29"
  {
    PaddedYears();
    PaddedTwoDigits(2);
    PaddedTwoDigits(29);
    assert DigitChar(0) == '0' && DigitChar(2) == '2' && DigitChar(9) == '9';
  }

  /** The long display "February 29, 2024". */
  lemma LeapDayDisplay()
    ensures IsValidDate(CalendarDate(2024, 2, 29))
    ensures LongDate(CalendarDate(2024, 2, 29)) == "February 29, 2024"
  {
    YearNumerals();
  }

  /** The leap day "2024-02-29" displays as "February 29, 2024". */
  lemma DisplaysLeapDay(text: string)
    requires text == "2024-02-29"
    ensures FormatDate(Str(text), ParseIso) == "February 29, 2024"
  {
    LeapDayText();
    LeapDayDisplay();
    IsoTextDisplaysAs(2024, 2, 29, "February 29, 2024");
  }

  /** The text "2023-02-29". */
  lemma NoLeapDayText()
    ensures IsoText(2023, 2, 29) == "2023-02-29"
  {
    PaddedYears();
    PaddedTwoDigits(2);
    PaddedTwoDigits(29);
    assert DigitChar(0) == '0' && DigitChar(2) == '2' && DigitChar(9) == '9';
  }

  /** "2023-02-29" names no day, since 2023 is not a leap year: it displays as "". */
  lemma NoLeapDayIn2023(text: string)
    requires text == "2023-02-29"
    ensures FormatDate(Str(text), ParseIso) == ""
  {
    NoLeapDayText();
    ImpossibleIsoTextIsBlank(2023, 2, 29);
  }

  /** The text "2024-13-45". */
  lemma ThirteenthMonthText()
    ensures IsoText(2024, 13, 45) == "2024-13-45"
  {
    PaddedYears();
    PaddedTwoDigits(13);
    PaddedTwoDigits(45);
    assert DigitChar(1) == '1' && DigitChar(3) == '3' && DigitChar(4) == '4' && DigitChar(5) == '5';
  }

  /** "2024-13-45" names no day: it displays as "". */
  lemma ThirteenthMonthIsBlank(text: string)
    requires text == "2024-13-45"
    ensures FormatDate(Str(text), ParseIso) == ""
  {
    ThirteenthMonthText();
    ImpossibleIsoTextIsBlank(2024, 13, 45);
  }

  /** The text "2024-12-25". */
  lemma ChristmasText()
    ensures IsoText(2024, 12, 25) == "2024-12-25"
  {
    PaddedYears();
    PaddedTwoDigits(12);
    PaddedTwoDigits(25);
    assert DigitChar(1) == '1' && DigitChar(2) == '2' && DigitChar(5) == '5';
  }

  /** The long display "December 25, 2024". */
  lemma ChristmasDisplay()
    ensures LongDate(CalendarDate(2024, 12, 25)) == "December 25, 2024"
  {
    YearNumerals();
  }

  /** "2024-12-25" displays as "December 25, 2024". */
  lemma DisplaysChristmas(text: string)
    requires text == "2024-12-25"
    ensures FormatDate(Str(text), ParseIso) == "December 25, 2024"
  {
    ChristmasText();
    ChristmasDisplay();
    IsoTextDisplaysAs(2024, 12, 25, "December 25, 2024");
  }

  /** The text "2023-06-15". */
  lemma OtherYearText()
    ensures IsoText(2023, 6, 15) == "2023-06-15"
  {
    PaddedYears();
    PaddedTwoDigits(6);
    PaddedTwoDigits(15);
    assert DigitChar(0) == '0' && DigitChar(1) == '1' && DigitChar(5) == '5' && DigitChar(6) == '6';
  }

  /** The long display "June 15, 2023". */
  lemma OtherYearDisplay()
    ensures LongDate(CalendarDate(2023, 6, 15)) == "June 15, 2023"
  {
    YearNumerals();
  }

  /** "2023-06-15" displays as "June 15, 2023". */
  lemma DisplaysOtherYear(text: string)
    requires text == "2023-06-15"
    ensures FormatDate(Str(text), ParseIso) == "June 15, 2023"
  {
    OtherYearText();
    OtherYearDisplay();
    IsoTextDisplaysAs(2023, 6, 15, "June 15, 2023");
  }

  /** A year and month in range ("YYYY-MM") display as the first day of that month. */
  lemma IsoMonthTextDisplaysAs(y: nat, m: nat, display: string)
    requires 1 <= y < 10000 && 1 <= m <= 12
    requires LongDate(CalendarDate(y, m, 1)) == display
    ensures FormatDate(Str(IsoMonthText(y, m)), ParseIso) == display
  {
    ParseIsoMonthText(y, m);
    IsoMonthTextFields(y, m);
    assert ParseIso(IsoMonthText(y, m)) == Some(CalendarDate(y, m, 1));
  }

  /** The text "2024-01". */
  lemma PartialDateText()
    ensures IsoMonthText(2024, 1) == "2024-01"
  {
    PaddedYears();
    PaddedTwoDigits(1);
    assert DigitChar(0) == '0' && DigitChar(1) == '1';
  }

  /** The long display "January 1, 2024". */
  lemma PartialDateDisplay()
    ensures LongDate(CalendarDate(2024, 1, 1)) == "January 1, 2024"
  {
    YearNumerals();
  }

  /** The partial date "2024-01" names January 1, 2024, so its display is not "". */
  lemma PartialDateDisplays(text: string)
    requires text == "2024-01"
    ensures FormatDate(Str(text), ParseIso) == "January 1, 2024"
  {
    PartialDateText();
    PartialDateDisplay();
    IsoMonthTextDisplaysAs(2024, 1, "January 1, 2024");
  }

  /** "not-a-date" is an Invalid Date: it displays as "". */
  lemma NotADateIsBlank(text: string)
    requires text == "not-a-date"
    ensures FormatDate(Str(text), ParseIso) == ""
  {
    assert 'T' !in text;
    assert IndexOf(text, 'T') == -1;
    assert !IsDigit(text[0]) && !AllDigits(text[..4]);
    assert ParseDateForm(text) == None;
    assert ParseIso(text) == None;
  }

  /** An ISO day with a UTC time of day ("YYYY-MM-DDTHH:mm:ssZ") displays as that day's long form. */
  lemma IsoTimestampDisplaysAs(y: nat, m: nat, d: nat, h: nat, mi: nat, se: nat, display: string)
    requires y < 10000 && m < 100 && d < 100 && h <= 23 && mi <= 59 && se <= 59
    requires IsValidDate(CalendarDate(y, m, d)) && LongDate(CalendarDate(y, m, d)) == display
    ensures FormatDate(Str(IsoText(y, m, d) + "T" + TimeText(h, mi, se) + "Z"), ParseIso) == display
  {
    var date, time := IsoText(y, m, d), TimeText(h, mi, se) + "Z";
    IsoTextFields(y, m, d);
    TimeTextIsTimeForm(h, mi, se);
    assert date + "T" + TimeText(h, mi, se) + "Z" == date + "T" + time;
    TimestampSameDisplay(date, time);
    IsoTextDisplaysAs(y, m, d, display);
  }

  /** The time of day of the "2024-01-20T10:30:00Z" example. */
  lemma ClockText()
    ensures TimeText(10, 30, 0) == "10:30:00"
  {
    PaddedTwoDigits(10);
    PaddedTwoDigits(30);
    PaddedTwoDigits(0);
    assert DigitChar(0) == '0' && DigitChar(1) == '1' && DigitChar(3) == '3';
  }

  /** The "2024-01-20T10:30:00Z" example is the date, 'T', the time of day and 'Z'. */
  lemma TimestampText()
    ensures "2024-01-20T10:30:00Z" == "2024-01-20" + "T" + "10:30:00" + "Z"
  {
  }

  /** "2024-01-20T10:30:00Z" displays as "January 20, 2024", like the date alone. */
  lemma DisplaysTimestamp(text: string)
    requires text == "2024-01-20T10:30:00Z"
    ensures FormatDate(Str(text), ParseIso) == "January 20, 2024"
  {
    TimestampText();
    JanuaryTwentiethText();
    JanuaryTwentiethDisplay();
    ClockText();
    IsoTimestampDisplaysAs(2024, 1, 20, 10, 30, 0, "January 20, 2024");
  }

  /** Non-empty text without a 'T' and not of the length of a date form is an Invalid Date: it displays as "". */
  lemma UnshapedTextIsBlank(text: string)
    requires text != [] && 'T' !in text
    requires |text| != 4 && |text| != 7 && |text| != 10
    ensures FormatDate(Str(text), ParseIso) == ""
  {
    assert IndexOf(text, 'T') == -1;
    assert ParseDateForm(text) == None;
    assert ParseIso(text) == None;
  }

  /** What formatDate returns for a truthy argument: "" for an Invalid Date, otherwise a display that reads back as the day. */
  function FormattedDay(parsed: Option<Date>): (r: string)
    ensures r == "" <==> parsed.None?
    ensures r != "" ==> ParseLongDate(r) == parsed
  {
    match parsed
    case None => ""
    case Some(date) => LongDateRoundTrip(date); LongDate(date)
  }
}
