/** `java.time.LocalDate` as the perishable valuation uses it: the ISO
    calendar, `LocalDate.parse` with `DateTimeFormatter.ISO_LOCAL_DATE`
    (the extended calendar-date format YYYY-MM-DD of section 4.1.2.2 of
    ISO 8601:2004, with the year widened and signed as java.time allows),
    `LocalDate.toString`, and `ChronoUnit.DAYS.between`. */
module Dates {
  import opened Wrappers
  import opened Text

  datatype Date = Date(year: int, month: int, day: int)

  const MinYear: int := -999_999_999
  const MaxYear: int := 999_999_999

  /** Proleptic Gregorian leap years (`IsoChronology.isLeapYear`). */
  predicate IsLeap(y: int) {
    y % 4 == 0 && (y % 100 != 0 || y % 400 == 0)
  }

  function DaysInMonth(y: int, m: int): int
    requires 1 <= m <= 12
  {
    if m == 2 then (if IsLeap(y) then 29 else 28)
    else if m == 4 || m == 6 || m == 9 || m == 11 then 30
    else 31
  }

  /** The dates a `LocalDate` can hold. */
  predicate ValidDate(d: Date) {
    MinYear <= d.year <= MaxYear && 1 <= d.month <= 12 && 1 <= d.day <= DaysInMonth(d.year, d.month)
  }

  type LocalDate = d: Date | ValidDate(d) witness Date(1970, 1, 1)

  // ---------------------------------------------------------------------
  // Parsing
  // ---------------------------------------------------------------------

  /** The year field of `ISO_LOCAL_DATE` (at least 4 digits, at most 10,
      `SignStyle.EXCEEDS_PAD`, strict): without a sign exactly 4 digits; with
      '+' more than 4; with '-' at least 4 and not all zero. The range of the
      value is checked with the rest of the date. */
  function ParseYear(h: string): (r: Option<int>)
    ensures r.Some? ==> |h| >= 4
  {
    if |h| == 0 then None
    else if h[0] == '+' then
      var b := h[1..];
      if AllDigits(b) && 5 <= |b| <= 10 then Some(DigitsValue(b)) else None
    else if h[0] == '-' then
      var b := h[1..];
      if AllDigits(b) && 4 <= |b| <= 10 && DigitsValue(b) != 0 then Some(0 - DigitsValue(b)) else None
    else if AllDigits(h) && |h| == 4 then Some(DigitsValue(h))
    else None
  }

  /** `LocalDate.parse(text)`: a year, '-', two month digits, '-', two day
      digits and nothing more, forming a real calendar date; otherwise a
      `DateTimeParseException` (None). The greedy year digits end exactly six
      characters before the end of a text that parses, so the year field is
      the text before the last six characters. */
  function ParseIsoDate(s: string): (r: Option<LocalDate>)
    ensures r.Some? ==> |s| >= 10
  {
    if |s| < 6 then None
    else
      var head := s[..|s| - 6];
      var tail := s[|s| - 6..];
      if !(tail[0] == '-' && IsDigit(tail[1]) && IsDigit(tail[2]) && tail[3] == '-' && IsDigit(tail[4]) && IsDigit(tail[5]))
      then None
      else
        match ParseYear(head)
        case None => None
        case Some(y) =>
          var date := Date(y, DigitsValue(tail[1..3]), DigitsValue(tail[4..6]));
          if ValidDate(date) then Some(date) else None
  }

  // ---------------------------------------------------------------------
  // Formatting
  // ---------------------------------------------------------------------

  /** The digits of a month or day, padded to two. */
  function TwoDigits(n: nat): (r: string)
    requires n < 100
    ensures |r| == 2 && AllDigits(r) && DigitsValue(r) == n
  {
    NatDigitsLength(n, 2);
    NatDigitsValue(n);
    PadDigitsValue(NatDigits(n), 2);
    PadDigits(NatDigits(n), 2)
  }

  /** The year as `LocalDate.toString` writes it: at least four digits, a
      '-' before negative years and a '+' before years above 9999. */
  function FormatYear(y: int): string {
    var sign := if y < 0 then "-" else if y > 9999 then "+" else "";
    var abs: nat := if y < 0 then -y else y;
    sign + PadDigits(NatDigits(abs), 4)
  }

  /** `LocalDate.toString()`. */
  function FormatIsoDate(d: LocalDate): string {
    FormatYear(d.year) + "-" + TwoDigits(d.month) + "-" + TwoDigits(d.day)
  }

  /** The year digits `toString` writes: the magnitude, padded to four,
      with no more than nine digits. */
  lemma YearDigits(y: int)
    requires MinYear <= y <= MaxYear
    ensures var abs: nat := if y < 0 then -y else y;
      var digits := PadDigits(NatDigits(abs), 4);
      AllDigits(digits) && DigitsValue(digits) == abs && 4 <= |digits| <= 9
      && (abs <= 9999 <==> |digits| == 4)
  {
    var abs: nat := if y < 0 then -y else y;
    NatDigitsValue(abs);
    PadDigitsValue(NatDigits(abs), 4);
    assert Pow10(9) == 1_000_000_000;
    NatDigitsLength(abs, 9);
    assert Pow10(4) == 10_000;
    NatDigitsLength(abs, 4);
  }

  lemma ParseFormatYear(y: int)
    requires MinYear <= y <= MaxYear
    ensures ParseYear(FormatYear(y)) == Some(y)
  {
    var abs: nat := if y < 0 then -y else y;
    var digits := PadDigits(NatDigits(abs), 4);
    YearDigits(y);
    var h := FormatYear(y);
    if y < 0 {
      assert h == "-" + digits && h[1..] == digits;
    } else if y > 9999 {
      assert h == "+" + digits && h[1..] == digits;
    } else {
      assert h == digits && IsDigit(h[0]);
    }
  }

  /** The last six characters of a date: '-', two digits, '-', two digits. */
  lemma DateTail(m: string, dd: string)
    requires |m| == 2 && |dd| == 2 && AllDigits(m) && AllDigits(dd)
    ensures var t := "-" + m + "-" + dd;
      |t| == 6 && t[0] == '-' && IsDigit(t[1]) && IsDigit(t[2]) && t[3] == '-' && IsDigit(t[4]) && IsDigit(t[5])
      && t[1..3] == m && t[4..6] == dd
  {
    var t := "-" + m + "-" + dd;
    assert t[1] == m[0] && t[2] == m[1] && t[4] == dd[0] && t[5] == dd[1];
  }

  /** `ParseIsoDate` on a year field followed by '-', two month digits, '-'
      and two day digits. */
  lemma ParseJoined(h: string, m: string, dd: string, date: LocalDate)
    requires |m| == 2 && |dd| == 2 && AllDigits(m) && AllDigits(dd)
    requires ParseYear(h) == Some(date.year) && DigitsValue(m) == date.month && DigitsValue(dd) == date.day
    ensures ParseIsoDate(h + ("-" + m + "-" + dd)) == Some(date)
  {
    var t := "-" + m + "-" + dd;
    DateTail(m, dd);
    var s := h + t;
    assert s[..|s| - 6] == h;
    assert s[|s| - 6..] == t;
  }

  /** Every date written by `toString` parses back to itself. */
  lemma ParseFormat(d: LocalDate)
    ensures ParseIsoDate(FormatIsoDate(d)) == Some(d)
  {
    var m := TwoDigits(d.month);
    var dd := TwoDigits(d.day);
    ConcatTail(FormatYear(d.year), m, dd);
    ParseFormatYear(d.year);
    ParseJoined(FormatYear(d.year), m, dd, d);
  }

  lemma ConcatTail(h: string, m: string, dd: string)
    ensures h + "-" + m + "-" + dd == h + ("-" + m + "-" + dd)
  {
  }

  /** The example of the product tests: "2023-12-31" is the last day of 2023. */
  lemma ParseExample()
    ensures ParseIsoDate("2023-12-31") == Some(Date(2023, 12, 31))
  {
    var s := "2023-12-31";
    var head, tail := s[..4], s[4..];
    assert head == "2023" && tail == "-12-31";
    DigitsOfFour(head);
    DigitsOfTwo(tail[1..3]);
    DigitsOfTwo(tail[4..6]);
  }

  /** Day 30 of February is rejected in every four-digit year. */
  lemma ParseRejectsFebruary30(y: int)
    requires 1000 <= y <= 9999
    ensures ParseIsoDate(FormatYear(y) + "-02-30") == None
  {
    var s := FormatYear(y) + "-02-30";
    var tail := s[|s| - 6..];
    assert tail == "-02-30";
    DigitsOfTwo(tail[1..3]);
    DigitsOfTwo(tail[4..6]);
  }

  lemma DigitsOfTwo(s: string)
    requires |s| == 2 && AllDigits(s)
    ensures DigitsValue(s) == 10 * (s[0] as int - '0' as int) + (s[1] as int - '0' as int)
  {
    var first := s[..1];
    assert first[..0] == [] && first[0] == s[0];
    assert DigitsValue(first) == s[0] as int - '0' as int;
  }

  lemma DigitsOfFour(s: string)
    requires |s| == 4 && AllDigits(s)
    ensures DigitsValue(s) == 1000 * (s[0] as int - '0' as int) + 100 * (s[1] as int - '0' as int)
                              + 10 * (s[2] as int - '0' as int) + (s[3] as int - '0' as int)
  {
    assert s[..3][..2] == s[..2];
    DigitsOfTwo(s[..2]);
  }

  // ---------------------------------------------------------------------
  // Day numbers
  // ---------------------------------------------------------------------

  /** Days from year 0 to 1970-01-01. */
  const DaysTo1970: int := 719_528

  /** Leap days counted by `LocalDate.toEpochDay` for the years before `y`. */
  function LeapDays(y: int): int {
    if y >= 0 then (y + 3) / 4 - (y + 99) / 100 + (y + 399) / 400
    else -((-y) / 4 - (-y) / 100 + (-y) / 400)
  }

  /** `LocalDate.toEpochDay()`: the day number with 1970-01-01 as day 0. */
  function EpochDay(d: LocalDate): int {
    365 * d.year + LeapDays(d.year) + DaysBeforeMonth(d.year, d.month) + d.day - 1 - DaysTo1970
  }

  /** The days of year `y` before month `m`, as `toEpochDay` counts them:
      `(367 * m - 362) / 12`, less 1 or 2 after February. */
  function DaysBeforeMonth(y: int, m: int): int
    requires 1 <= m <= 12
  {
    var correction := if m > 2 then (if IsLeap(y) then 1 else 2) else 0;
    (367 * m - 362) / 12 - correction
  }

  /** Each month starts where the one before it ends. */
  lemma MonthStep(y: int, m: int)
    requires 1 <= m < 12
    ensures DaysBeforeMonth(y, m + 1) == DaysBeforeMonth(y, m) + DaysInMonth(y, m)
  {
    if m == 1 {
    } else if m == 2 {
    } else if m <= 6 {
      assert m == 3 || m == 4 || m == 5 || m == 6;
    } else {
      assert m == 7 || m == 8 || m == 9 || m == 10 || m == 11;
    }
  }

  /** `ChronoUnit.DAYS.between(from, to)`: whole days from `from` to `to`. */
  function DaysBetween(from: LocalDate, to: LocalDate): int {
    EpochDay(to) - EpochDay(from)
  }

  /** The following calendar day (`plusDays(1)`), absent after the last
      representable date. */
  function NextDay(d: LocalDate): (r: Option<LocalDate>)
    ensures r.None? <==> d == Date(MaxYear, 12, 31)
  {
    if d.day < DaysInMonth(d.year, d.month) then Some(Date(d.year, d.month, d.day + 1))
    else if d.month < 12 then Some(Date(d.year, d.month + 1, 1))
    else if d.year < MaxYear then Some(Date(d.year + 1, 1, 1))
    else None
  }

  /** A year has one more leap day before its successor exactly when it is a leap year. */
  lemma LeapDaysStep(y: int)
    ensures LeapDays(y + 1) == LeapDays(y) + (if IsLeap(y) then 1 else 0)
  {
    StepBy(y, 4);
    StepBy(y, 100);
    StepBy(y, 400);
    DivisorChain(y);
    if y >= 0 {
      assert LeapDays(y + 1) == (y + 4) / 4 - (y + 100) / 100 + (y + 400) / 400;
      assert LeapDays(y) == (y + 3) / 4 - (y + 99) / 100 + (y + 399) / 400;
    } else if y == -1 {
      assert LeapDays(0) == 0 && LeapDays(-1) == 0 && !IsLeap(-1);
    } else {
      assert LeapDays(y + 1) == -((-y - 1) / 4 - (-y - 1) / 100 + (-y - 1) / 400);
      assert LeapDays(y) == -((-y) / 4 - (-y) / 100 + (-y) / 400);
    }
  }

  lemma DivisorChain(y: int)
    ensures y % 400 == 0 ==> y % 100 == 0
    ensures y % 100 == 0 ==> y % 4 == 0
  {
    if y % 400 == 0 {
      var q := y / 400;
      assert y == 100 * (4 * q);
      MultipleMod(4 * q, 100);
    }
    if y % 100 == 0 {
      var q := y / 100;
      assert y == 4 * (25 * q);
      MultipleMod(25 * q, 4);
    }
  }

  lemma MultipleMod(q: int, k: int)
    requires k == 4 || k == 100
    ensures (k * q) % k == 0
  {
    if k == 4 { assert (4 * q) % 4 == 0; } else { assert (100 * q) % 100 == 0; }
  }

  /** How a count of multiples of `k` changes from `y` to `y + 1`, on either
      side of zero as `LeapDays` counts them. */
  lemma StepBy(y: int, k: int)
    requires k == 4 || k == 100 || k == 400
    ensures y >= 0 ==> (y + k) / k - (y + k - 1) / k == if y % k == 0 then 1 else 0
    ensures y < 0 ==> (-y) / k - (-y - 1) / k == if y % k == 0 then 1 else 0
  {
    if k == 4 {
      if y >= 0 { UpStep4(y); } else { DownStep4(y); }
    } else if k == 100 {
      if y >= 0 { UpStep100(y); } else { DownStep100(y); }
    } else {
      if y >= 0 { UpStep400(y); } else { DownStep400(y); }
    }
  }

  lemma UpStep4(y: int) requires y >= 0 ensures (y + 4) / 4 - (y + 3) / 4 == if y % 4 == 0 then 1 else 0 {}
  lemma DownStep4(y: int) requires y < 0 ensures (-y) / 4 - (-y - 1) / 4 == if y % 4 == 0 then 1 else 0 {}
  lemma UpStep100(y: int) requires y >= 0 ensures (y + 100) / 100 - (y + 99) / 100 == if y % 100 == 0 then 1 else 0 {}
  lemma DownStep100(y: int) requires y < 0 ensures (-y) / 100 - (-y - 1) / 100 == if y % 100 == 0 then 1 else 0 {}
  lemma UpStep400(y: int) requires y >= 0 ensures (y + 400) / 400 - (y + 399) / 400 == if y % 400 == 0 then 1 else 0 {}
  lemma DownStep400(y: int) requires y < 0 ensures (-y) / 400 - (-y - 1) / 400 == if y % 400 == 0 then 1 else 0 {}

  /** Consecutive calendar days have consecutive day numbers, so
      `DaysBetween` counts calendar days. */
  lemma EpochDayNext(d: LocalDate)
    requires NextDay(d).Some?
    ensures EpochDay(NextDay(d).value) == EpochDay(d) + 1
  {
    if d.day < DaysInMonth(d.year, d.month) {
    } else if d.month < 12 {
      MonthStep(d.year, d.month);
    } else {
      LeapDaysStep(d.year);
      assert DaysBeforeMonth(d.year, 12) == 334 + (if IsLeap(d.year) then 1 else 0);
    }
  }
}
