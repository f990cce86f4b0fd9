/**
 * The date-time of deadlines and events: the fixed input layout
 * `dd-MM-yyyy HH:mm`, the ISO-8601 text that LocalDateTime prints for the
 * storage line, and the `HH:mm, MMM dd yyyy` display text.
 */
module DateTimes {
  import opened Outcomes
  import opened JavaText

  /** A local date-time to the minute; seconds are always zero in this program. */
  datatype DateTime = DateTime(year: nat, month: nat, day: nat, hour: nat, minute: nat)

  /** The field ranges the formatter's resolver checks. */
  predicate InRange(t: DateTime)
  {
    1 <= t.year && 1 <= t.month <= 12 && 1 <= t.day <= 31 && t.hour < 24 && t.minute < 60
  }

  /** Leap years of the proleptic Gregorian calendar. */
  predicate IsLeapYear(y: nat)
  {
    y % 4 == 0 && (y % 100 != 0 || y % 400 == 0)
  }

  /** The length of a month. */
  function DaysInMonth(y: nat, m: nat): nat
  {
    if m == 2 then (if IsLeapYear(y) then 29 else 28)
    else if m == 4 || m == 6 || m == 9 || m == 11 then 30
    else 31
  }

  /** A time that names a real day of the calendar, as every LocalDateTime does. */
  predicate IsCalendarDate(t: DateTime)
  {
    InRange(t) && t.day <= DaysInMonth(t.year, t.month)
  }

  /** Times that the layout `dd-MM-yyyy HH:mm` can write: calendar dates with a four-digit year. */
  predicate Writable(t: DateTime)
  {
    IsCalendarDate(t) && t.year < 10000
  }

  /** The places of the layout that hold a separator rather than a digit. */
  predicate IsSeparatorPlace(k: int)
  {
    k == 2 || k == 5 || k == 10 || k == 13
  }

  /** Two digits, dash, two digits, dash, four digits, space, two digits, colon, two digits. */
  predicate HasLayout(s: string)
  {
    && |s| == 16
    && s[2] == '-' && s[5] == '-' && s[10] == ' ' && s[13] == ':'
    && forall k :: 0 <= k < 16 && !IsSeparatorPlace(k) ==> IsDigit(s[k])
  }

  /** The five digit groups of a text with the layout. */
  lemma LayoutDigits(s: string)
    requires HasLayout(s)
    ensures AllDigits(s[0..2]) && AllDigits(s[3..5]) && AllDigits(s[6..10])
    ensures AllDigits(s[11..13]) && AllDigits(s[14..16])
  {
    assert forall k :: 0 <= k < 2 ==> s[0..2][k] == s[k];
    assert forall k :: 0 <= k < 2 ==> s[3..5][k] == s[k + 3];
    assert forall k :: 0 <= k < 4 ==> s[6..10][k] == s[k + 6];
    assert forall k :: 0 <= k < 2 ==> s[11..13][k] == s[k + 11];
    assert forall k :: 0 <= k < 2 ==> s[14..16][k] == s[k + 14];
  }

  /** The time a text with the layout names, before any range check. */
  function FieldsOf(s: string): DateTime
    requires HasLayout(s)
  {
    LayoutDigits(s);
    DateTime(DigitsValue(s[6..10]), DigitsValue(s[3..5]), DigitsValue(s[0..2]),
             DigitsValue(s[11..13]), DigitsValue(s[14..16]))
  }

  /** The text of `t` in the input layout `dd-MM-yyyy HH:mm`. */
  function PatternText(t: DateTime): string
  {
    Digits(t.day, 2) + "-" + Digits(t.month, 2) + "-" + Digits(t.year, 4) + " "
    + Digits(t.hour, 2) + ":" + Digits(t.minute, 2)
  }

  /** Where each field sits in the layout text of a time. */
  lemma PatternTextFields(t: DateTime)
    ensures var s := PatternText(t);
            && |s| == 16
            && s[0..2] == Digits(t.day, 2) && s[3..5] == Digits(t.month, 2)
            && s[6..10] == Digits(t.year, 4) && s[11..13] == Digits(t.hour, 2)
            && s[14..16] == Digits(t.minute, 2)
            && s[2] == '-' && s[5] == '-' && s[10] == ' ' && s[13] == ':'
  {
  }

  /** A 16-character text is its five groups joined by the separators it holds. */
  lemma LayoutJoin(s: string)
    requires HasLayout(s)
    ensures s == s[0..2] + "-" + s[3..5] + "-" + s[6..10] + " " + s[11..13] + ":" + s[14..16]
  {
  }

  /** A text with the layout is the layout text of its own fields, with a four-digit year. */
  lemma LayoutText(s: string)
    requires HasLayout(s)
    ensures PatternText(FieldsOf(s)) == s
    ensures FieldsOf(s).year < 10000
  {
    LayoutDigits(s);
    var t := FieldsOf(s);
    DigitsOfValue(s[0..2]);
    DigitsOfValue(s[3..5]);
    DigitsOfValue(s[6..10]);
    DigitsOfValue(s[11..13]);
    DigitsOfValue(s[14..16]);
    assert Digits(t.day, 2) == s[0..2] && Digits(t.month, 2) == s[3..5];
    assert Digits(t.year, 4) == s[6..10];
    assert Digits(t.hour, 2) == s[11..13] && Digits(t.minute, 2) == s[14..16];
    assert Pow10(4) == 10000;
    LayoutJoin(s);
  }

  /** The layout text of any time has the layout. */
  lemma PatternTextLayout(t: DateTime)
    ensures HasLayout(PatternText(t))
  {
    var s := PatternText(t);
    PatternTextFields(t);
    forall k | 0 <= k < 16 && !IsSeparatorPlace(k) ensures IsDigit(s[k]) {
      if k < 2 { assert s[k] == Digits(t.day, 2)[k]; }
      else if k < 5 { assert s[k] == Digits(t.month, 2)[k - 3]; }
      else if k < 10 { assert s[k] == Digits(t.year, 4)[k - 6]; }
      else if k < 13 { assert s[k] == Digits(t.hour, 2)[k - 11]; }
      else { assert s[k] == Digits(t.minute, 2)[k - 14]; }
    }
  }

  /**
   * The layout read field by field: the text must match `dd-MM-yyyy HH:mm`
   * exactly and every field be in its range. A text is read only if it is
   * exactly the layout text of the fields it yields.
   */
  function ReadLayout(s: string): (r: Option<DateTime>)
    ensures r.Some? ==> InRange(r.value) && r.value.year < 10000 && PatternText(r.value) == s
  {
    if !HasLayout(s) then None
    else
      var t := FieldsOf(s);
      if !InRange(t) then None
      else
        LayoutText(s);
        Some(t)
  }

  /**
   * How the smart resolver treats a day past the end of its month: it
   * becomes the month's last day; nothing else changes.
   */
  function ClampDay(t: DateTime): (r: DateTime)
    requires InRange(t)
    ensures IsCalendarDate(r)
    ensures r.(day := t.day) == t
    ensures IsCalendarDate(t) ==> r == t
    ensures !IsCalendarDate(t) ==> r.day == DaysInMonth(t.year, t.month) < t.day
  {
    if t.day <= DaysInMonth(t.year, t.month) then t else t.(day := DaysInMonth(t.year, t.month))
  }

  /**
   * `LocalDateTime.parse(s, ofPattern("dd-MM-yyyy HH:mm"))`: the layout must
   * match exactly and every field be in range; a day past the end of its
   * month is moved back to the month's last day. `None` stands for the
   * DateTimeParseException.
   */
  function ParseDateTime(s: string): (r: Option<DateTime>)
    ensures r.Some? <==> ReadLayout(s).Some?
    ensures r.Some? ==> Writable(r.value)
    ensures r.Some? ==> var named := ReadLayout(s).value;
      && r.value.(day := named.day) == named
      && (r.value.day == named.day || r.value.day == DaysInMonth(named.year, named.month) < named.day)
  {
    match ReadLayout(s)
    case None => None
    case Some(t) => Some(ClampDay(t))
  }

  /** Every time in range with a four-digit year is read back from its layout text. */
  lemma ReadPatternText(t: DateTime)
    requires InRange(t) && t.year < 10000
    ensures ReadLayout(PatternText(t)) == Some(t)
  {
    var s := PatternText(t);
    PatternTextFields(t);
    PatternTextLayout(t);
    assert Pow10(2) == 100 && Pow10(4) == 10000;
    DigitsRoundTrip(t.day, 2);
    DigitsRoundTrip(t.month, 2);
    DigitsRoundTrip(t.year, 4);
    DigitsRoundTrip(t.hour, 2);
    DigitsRoundTrip(t.minute, 2);
    assert FieldsOf(s) == t;
  }

  /**
   * The layout text of any time in range with a four-digit year is read as
   * that time, with its day clamped to the month; a calendar date is read
   * back unchanged.
   */
  lemma ParsePatternText(t: DateTime)
    requires InRange(t) && t.year < 10000
    ensures ParseDateTime(PatternText(t)) == Some(ClampDay(t))
    ensures Writable(t) ==> ParseDateTime(PatternText(t)) == Some(t)
  {
    ReadPatternText(t);
  }

  /** How java.time prints a year: four digits, or a plus sign and all digits past 9999. */
  function YearText(y: nat): string
  {
    if y < 10000 then Digits(y, 4) else "+" + NatText(y)
  }

  /** `LocalDateTime.toString` for a time with zero seconds: `yyyy-MM-ddTHH:mm`. */
  function IsoText(t: DateTime): string
  {
    YearText(t.year) + "-" + Digits(t.month, 2) + "-" + Digits(t.day, 2) + "T"
    + Digits(t.hour, 2) + ":" + Digits(t.minute, 2)
  }

  /** Where each field sits in the ISO text of a writable time. */
  lemma IsoTextFields(t: DateTime)
    requires Writable(t)
    ensures var a := IsoText(t);
            && |a| == 16
            && a[0..4] == Digits(t.year, 4) && a[5..7] == Digits(t.month, 2)
            && a[8..10] == Digits(t.day, 2) && a[11..13] == Digits(t.hour, 2)
            && a[14..16] == Digits(t.minute, 2)
  {
  }

  /** Two numbers below 10^w with the same `w`-digit text are equal. */
  lemma DigitsInjective(n: nat, m: nat, w: nat)
    requires n < Pow10(w) && m < Pow10(w)
    requires Digits(n, w) == Digits(m, w)
    ensures n == m
  {
    DigitsRoundTrip(n, w);
    DigitsRoundTrip(m, w);
  }

  /** The ISO text of a writable time is 16 characters long and names the time uniquely. */
  lemma IsoTextInjective(t: DateTime, u: DateTime)
    requires Writable(t) && Writable(u)
    ensures |IsoText(t)| == 16
    ensures IsoText(t) == IsoText(u) ==> t == u
  {
    IsoTextFields(t);
    IsoTextFields(u);
    assert Pow10(2) == 100 && Pow10(4) == 10000;
    if IsoText(t) == IsoText(u) {
      DigitsInjective(t.year, u.year, 4);
      DigitsInjective(t.month, u.month, 2);
      DigitsInjective(t.day, u.day, 2);
      DigitsInjective(t.hour, u.hour, 2);
      DigitsInjective(t.minute, u.minute, 2);
    }
  }

  /** English short month names, as `MMM` prints them. */
  function MonthName(m: nat): string
  {
    match m
    case 1 => "Jan" case 2 => "Feb" case 3 => "Mar" case 4 => "Apr"
    case 5 => "May" case 6 => "Jun" case 7 => "Jul" case 8 => "Aug"
    case 9 => "Sep" case 10 => "Oct" case 11 => "Nov" case 12 => "Dec"
    case _ => ""
  }

  /** The display text `HH:mm, MMM dd yyyy`. */
  function DisplayText(t: DateTime): string
  {
    Digits(t.hour, 2) + ":" + Digits(t.minute, 2) + ", " + MonthName(t.month) + " "
    + Digits(t.day, 2) + " " + YearText(t.year)
  }
}
