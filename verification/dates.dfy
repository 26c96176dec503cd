/** `SimpleDate`: a proleptic-Gregorian calendar date with the ledger's lenient
    text parser (`YYYY-MM-DD` or `YYYY.MM.DD`, two-digit years meaning 20YY),
    its canonical `YYYY.MM.DD` text, and chronological ordering.

    hectec keeps a `time::Date` beside the three numbers and compares
    dates through it; that library value is a year plus a day-of-year, so the
    model compares `(year, Ordinal)` and proves this is the calendar order. */
module Dates {
  import opened Wrappers
  import opened Text

  datatype SimpleDate = SimpleDate(year: int, month: int, day: int)

  /** The year range of `time::Date` without its `large-dates` feature. */
  const MinYear: int := -9999
  const MaxYear: int := 9999

  predicate IsLeapYear(y: int) {
    y % 4 == 0 && (y % 100 != 0 || y % 400 == 0)
  }

  function DaysInMonth(y: int, m: int): (n: int)
    requires 1 <= m <= 12
    ensures 28 <= n <= 31
    ensures n == 29 <==> m == 2 && IsLeapYear(y)
  {
    if m == 2 then (if IsLeapYear(y) then 29 else 28)
    else if m == 4 || m == 6 || m == 9 || m == 11 then 30
    else 31
  }

  /** What `Date::from_calendar_date` accepts. */
  predicate IsCalendarDate(y: int, m: int, d: int) {
    MinYear <= y <= MaxYear && 1 <= m <= 12 && 1 <= d <= DaysInMonth(y, m)
  }

  predicate Valid(d: SimpleDate) {
    IsCalendarDate(d.year, d.month, d.day)
  }

  // ---------------------------------------------------------------------------
  // Ordering
  // ---------------------------------------------------------------------------

  /** Days in the months of year `y` before month `m` (months past December
      count as a whole year). */
  function DaysBeforeMonth(y: int, m: int): (n: nat)
    decreases m
  {
    if m <= 1 then 0
    else if m > 13 then DaysBeforeMonth(y, 13)
    else DaysBeforeMonth(y, m - 1) + DaysInMonth(y, m - 1)
  }

  /** The day of the year, as `time::Date` stores it. */
  function Ordinal(d: SimpleDate): int {
    DaysBeforeMonth(d.year, d.month) + d.day
  }

  /** `Ord for SimpleDate`: compares the underlying `(year, ordinal)` value. */
  function DateCmp(a: SimpleDate, b: SimpleDate): (r: Ordering)
    ensures Valid(a) && Valid(b) ==> r == CalendarCmp(a, b)
    ensures Valid(a) && Valid(b) ==> (r == Equal <==> a == b)
  {
    if a.year != b.year then CmpInt(a.year, b.year)
    else if Valid(a) && Valid(b) && a.month < b.month then
      OrdinalMonthOrder(a, b);
      CmpInt(Ordinal(a), Ordinal(b))
    else if Valid(a) && Valid(b) && b.month < a.month then
      OrdinalMonthOrder(b, a);
      CmpInt(Ordinal(a), Ordinal(b))
    else CmpInt(Ordinal(a), Ordinal(b))
  }

  predicate DateLe(a: SimpleDate, b: SimpleDate) {
    DateCmp(a, b) != Greater
  }

  /** The calendar order: year, then month, then day. */
  function CalendarCmp(a: SimpleDate, b: SimpleDate): Ordering {
    if a.year != b.year then CmpInt(a.year, b.year)
    else if a.month != b.month then CmpInt(a.month, b.month)
    else CmpInt(a.day, b.day)
  }

  lemma {:induction false} DaysBeforeMonthGrows(y: int, m: int, k: int)
    requires 1 <= m <= k <= 13
    ensures DaysBeforeMonth(y, k) >= DaysBeforeMonth(y, m) + (k - m) * 28
    decreases k - m
  {
    if m < k {
      DaysBeforeMonthGrows(y, m + 1, k);
    }
  }

  /** Within one year, a later month starts after every day of an earlier one. */
  lemma OrdinalMonthOrder(a: SimpleDate, b: SimpleDate)
    requires Valid(a) && Valid(b) && a.year == b.year && a.month < b.month
    ensures Ordinal(a) < Ordinal(b)
  {
    DaysBeforeMonthGrows(a.year, a.month + 1, b.month);
  }

  /** `DateLe` is a total preorder on all dates. */
  lemma DateLeTotalPreorder(a: SimpleDate, b: SimpleDate, c: SimpleDate)
    ensures DateLe(a, a)
    ensures DateLe(a, b) || DateLe(b, a)
    ensures DateLe(a, b) && DateLe(b, c) ==> DateLe(a, c)
    ensures DateCmp(a, b) == Less <==> DateCmp(b, a) == Greater
  {
  }

  // ---------------------------------------------------------------------------
  // Canonical text
  // ---------------------------------------------------------------------------

  /** `Display for SimpleDate`: `{:04}.{:02}.{:02}`. */
  function FormatDate(d: SimpleDate): (s: string)
    ensures Valid(d) && d.year >= 0 ==> |s| == 10 && s[4] == '.' && s[7] == '.'
  {
    var text := PadInt(d.year, 4) + "." + PadInt(d.month, 2) + "." + PadInt(d.day, 2);
    if Valid(d) && d.year >= 0 then
      ZeroPadLength(d.year, 4);
      ZeroPadLength(d.month, 2);
      ZeroPadLength(d.day, 2);
      text
    else text
  }

  // ---------------------------------------------------------------------------
  // Parsing
  // ---------------------------------------------------------------------------

  datatype DateError =
    | InvalidYear(yearText: string)
    | MissingMonth(text: string)
    | InvalidMonth(monthText: string)
    | MonthOutOfRange(month: nat)
    | MissingDay(text: string)
    | InvalidDay(dayText: string)
    | InvalidDate(text: string)
  {
    /** The message hectec formats for each failure. */
    function Message(): string {
      match this
      case InvalidYear(y) => "Invalid year: " + y
      case MissingMonth(s) => "Missing month in " + s
      case InvalidMonth(m) => "Invalid month: " + m
      case MonthOutOfRange(m) => "Invalid month: " + NatToDigits(m)
      case MissingDay(s) => "Missing day in " + s
      case InvalidDay(d) => "Invalid day: " + d
      case InvalidDate(s) => "Invalid date: " + s
    }
  }

  /** The separator: `-` if the text has one anywhere, otherwise `.`. */
  function Splitter(s: string): char {
    if '-' in s then '-' else '.'
  }

  /** Two-digit (and smaller) years are read as 20YY. */
  function ExpandYear(y: int): int {
    if y < 100 then 2000 + y else y
  }

  /** `SimpleDate::try_from`. Only the first three pieces are read; the year
      piece has no `-` in it (a `-` anywhere makes `-` the separator), so the
      year is never negative and every accepted year lies in 100..=9999. */
  function ParseDate(s: string): (r: Result<SimpleDate, DateError>)
    ensures r.Ok? ==> Valid(r.value) && 100 <= r.value.year <= MaxYear
  {
    var parts := Split(s, Splitter(s));
    SplitPieces(s, Splitter(s), '-');
    match ParseI32(parts[0])
    case None => Err(InvalidYear(parts[0]))
    case Some(y) =>
      var year := ExpandYear(y);
      if |parts| < 2 then Err(MissingMonth(s))
      else match ParseU8(parts[1])
      case None => Err(InvalidMonth(parts[1]))
      case Some(month) =>
        if !(1 <= month <= 12) then Err(MonthOutOfRange(month))
        else if |parts| < 3 then Err(MissingDay(s))
        else match ParseU8(parts[2])
        case None => Err(InvalidDay(parts[2]))
        case Some(day) =>
          if IsCalendarDate(year, month, day) then Ok(SimpleDate(year, month, day))
          else Err(InvalidDate(s))
  }

  lemma DigitsExclude(s: string, x: char)
    requires AllDigits(s) && !IsDigit(x)
    ensures x !in s
  {
  }

  /** Parsing the canonical text of any date a parse can produce gives the
      same date back. */
  lemma ParseFormatRoundTrip(d: SimpleDate)
    requires Valid(d) && 100 <= d.year
    ensures ParseDate(FormatDate(d)) == Ok(d)
  {
    var y, m, dd := ZeroPad(d.year, 4), ZeroPad(d.month, 2), ZeroPad(d.day, 2);
    FormattedPieces(d);
    ZeroPadValue(d.year, 4); ZeroPadValue(d.month, 2); ZeroPadValue(d.day, 2);
    ParseIntegerDigits(y, true, I32Min, I32Max);
    ParseIntegerDigits(m, false, 0, U8Max);
    ParseIntegerDigits(dd, false, 0, U8Max);
  }

  /** The canonical text splits on `.` into its three zero-padded numbers. */
  lemma FormattedPieces(d: SimpleDate)
    requires Valid(d) && 100 <= d.year
    ensures var s := FormatDate(d);
            Splitter(s) == '.' && Split(s, '.') == [ZeroPad(d.year, 4), ZeroPad(d.month, 2), ZeroPad(d.day, 2)]
  {
    var y, m, dd := ZeroPad(d.year, 4), ZeroPad(d.month, 2), ZeroPad(d.day, 2);
    var s := FormatDate(d);
    assert s == y + ['.'] + m + ['.'] + dd;
    DigitsExclude(y, '-'); DigitsExclude(m, '-'); DigitsExclude(dd, '-');
    DigitsExclude(y, '.'); DigitsExclude(m, '.'); DigitsExclude(dd, '.');
    assert '-' !in s;
    SplitThree(y, m, dd, '.');
  }

  /** Distinct parseable dates have distinct canonical texts. */
  lemma FormatDateInjective(a: SimpleDate, b: SimpleDate)
    requires Valid(a) && 100 <= a.year && Valid(b) && 100 <= b.year
    requires FormatDate(a) == FormatDate(b)
    ensures a == b
  {
    ParseFormatRoundTrip(a);
    ParseFormatRoundTrip(b);
  }

  /** The failures that name only a piece of the text, so that text after
      the pieces read cannot change them. */
  predicate IsPieceError(e: DateError) {
    e.InvalidYear? || e.InvalidMonth? || e.MonthOutOfRange? || e.InvalidDay?
  }

  /** Pieces after those read are never looked at: appending a separator and
      any further text (that does not change which separator is used) leaves
      a successful parse, and a failure on a piece's value, unchanged. */
  lemma TrailingPiecesIgnored(s: string, junk: string)
    requires ParseDate(s).Ok? || IsPieceError(ParseDate(s).error)
    requires '-' in s || '-' !in junk
    ensures ParseDate(s + [Splitter(s)] + junk) == ParseDate(s)
  {
    var c := Splitter(s);
    var t := s + [c] + junk;
    SplitterOfExtension(s, junk);
    SplitAppend(s, junk, c);
    assert (Split(s, c) + Split(junk, c))[..|Split(s, c)|] == Split(s, c);
    SamePiecesSameOutcome(s, t);
  }

  /** A missing day is not a piece error: `2024-02` is refused for want of
      a day, while the same text with a separator and a day appended is a
      date. */
  lemma MissingDayIsCompletedByTrailingText(s: string, t: string)
    requires s == "2024-02" && t == s + ['-'] + "05"
    ensures ParseDate(s) == Err(MissingDay(s))
    ensures ParseDate(t) == Ok(SimpleDate(2024, 2, 5))
  {
    MissingDayExample(s);
    assert t == "2024" + ['-'] + "02" + ['-'] + "05";
    CompletedDayExample(t);
  }

  lemma MissingDayExample(s: string)
    requires s == "2024" + ['-'] + "02"
    ensures ParseDate(s) == Err(MissingDay(s))
  {
    assert Splitter(s) == '-' by { assert s[4] == '-'; }
    assert Split(s, '-') == ["2024", "02"] by {
      SplitAppend("2024", "02", '-');
      SplitWithoutSeparator("2024", '-');
      SplitWithoutSeparator("02", '-');
    }
    YearNumber();
    MonthDayNumbers();
    ParseDateOfTwoPieces(s, 2024, 2);
  }

  lemma CompletedDayExample(t: string)
    requires t == "2024" + ['-'] + "02" + ['-'] + "05"
    ensures ParseDate(t) == Ok(SimpleDate(2024, 2, 5))
  {
    assert Splitter(t) == '-' by { assert t[4] == '-'; }
    assert Split(t, '-') == ["2024", "02", "05"] by {
      SplitThree("2024", "02", "05", '-');
    }
    YearNumber();
    MonthDayNumbers();
    YearMonthDayNumbers();
    ParseDateOfPieces(t, 2024, 2, 5);
  }

  /** Text with a year and a month in range but no third piece lacks a day. */
  lemma ParseDateOfTwoPieces(s: string, y: int, m: int)
    requires |Split(s, Splitter(s))| == 2
    requires ParseI32(Split(s, Splitter(s))[0]) == Some(y)
    requires ParseU8(Split(s, Splitter(s))[1]) == Some(m)
    requires 1 <= m <= 12
    ensures ParseDate(s) == Err(MissingDay(s))
  {
  }

  /** Appending the separator and text without a `-` (or to text that
      already has one) keeps the separator. */
  lemma SplitterOfExtension(s: string, junk: string)
    requires '-' in s || '-' !in junk
    ensures Splitter(s + [Splitter(s)] + junk) == Splitter(s)
  {
    var c := Splitter(s);
    var t := s + [c] + junk;
    if '-' in s {
      var k :| 0 <= k < |s| && s[k] == '-';
      assert t[k] == '-';
    } else {
      forall k | 0 <= k < |t| ensures t[k] != '-' {
        if k < |s| { assert t[k] == s[k]; }
        else if k > |s| { assert t[k] == junk[k - |s| - 1]; }
      }
    }
  }

  /** A successful parse, or a failure on a piece's value, is decided by the
      pieces alone: text whose pieces begin with the same pieces parses the
      same way. */
  lemma SamePiecesSameOutcome(s: string, t: string)
    requires ParseDate(s).Ok? || IsPieceError(ParseDate(s).error)
    requires |Split(s, Splitter(s))| <= |Split(t, Splitter(t))|
    requires Split(t, Splitter(t))[..|Split(s, Splitter(s))|] == Split(s, Splitter(s))
    ensures ParseDate(t) == ParseDate(s)
  {
    var ps, pt := Split(s, Splitter(s)), Split(t, Splitter(t));
    forall k | 0 <= k < |ps| ensures pt[k] == ps[k] {
      assert pt[..|ps|][k] == pt[k];
    }
  }

  /** What a parse accepts, in terms of the pieces: the text has at least
      three pieces, the first is a year (read as 20YY below 100), the second
      and third are the month and day, and together they name a calendar
      date. Every other text is refused. */
  lemma ParseDateAccepts(s: string, d: SimpleDate)
    ensures ParseDate(s) == Ok(d) <==>
      var p := Split(s, Splitter(s));
      && |p| >= 3
      && ParseI32(p[0]).Some? && d.year == ExpandYear(ParseI32(p[0]).value)
      && ParseU8(p[1]) == Some(d.month)
      && ParseU8(p[2]) == Some(d.day)
      && IsCalendarDate(d.year, d.month, d.day)
  {
  }

  /** The outcome of a parse whose first three pieces are numbers and whose
      month is in range. */
  lemma ParseDateOfPieces(s: string, y: int, m: int, d: int)
    requires |Split(s, Splitter(s))| >= 3
    requires ParseI32(Split(s, Splitter(s))[0]) == Some(y)
    requires ParseU8(Split(s, Splitter(s))[1]) == Some(m)
    requires ParseU8(Split(s, Splitter(s))[2]) == Some(d)
    requires 1 <= m <= 12
    ensures ParseDate(s) == if IsCalendarDate(ExpandYear(y), m, d)
                            then Ok(SimpleDate(ExpandYear(y), m, d)) else Err(InvalidDate(s))
  {
  }

  /** `"23-01-05"` is the fifth of January 2023. */
  lemma TwoDigitYearExample()
    ensures ParseDate("23-01-05") == Ok(SimpleDate(2023, 1, 5))
  {
    var s := "23-01-05";
    assert Splitter(s) == '-' by { assert s[2] == '-'; }
    assert Split(s, '-') == ["23", "01", "05"] by {
      assert s == "23" + ['-'] + "01" + ['-'] + "05";
      SplitThree("23", "01", "05", '-');
    }
    YearMonthDayNumbers();
    ParseDateOfPieces(s, 23, 1, 5);
  }

  /** A two-digit text reads as the number it spells, signed or not. */
  lemma TwoDigitNumber(s: string)
    requires |s| == 2 && AllDigits(s)
    ensures ParseI32(s) == Some(10 * DigitValue(s[0]) + DigitValue(s[1]))
    ensures ParseU8(s) == Some(10 * DigitValue(s[0]) + DigitValue(s[1]))
  {
    assert s[..1] == [s[0]] && s[..1][..0] == [];
    assert DigitsValue(s[..1]) == DigitValue(s[0]);
    assert DigitsValue(s) == 10 * DigitValue(s[0]) + DigitValue(s[1]);
    ParseIntegerDigits(s, true, I32Min, I32Max);
    ParseIntegerDigits(s, false, 0, U8Max);
  }

  lemma YearMonthDayNumbers()
    ensures ParseI32("23") == Some(23) && ParseU8("01") == Some(1) && ParseU8("05") == Some(5)
  {
    TwoDigitNumber("23");
    TwoDigitNumber("01");
    TwoDigitNumber("05");
  }

  lemma MonthDayNumbers()
    ensures ParseU8("02") == Some(2) && ParseU8("30") == Some(30)
  {
    TwoDigitNumber("02");
    TwoDigitNumber("30");
  }

  lemma YearNumber()
    ensures ParseI32("2024") == Some(2024)
  {
    assert "2024"[..3] == "202";
    assert "202"[..2] == "20";
    assert "20"[..1] == "2";
    ParseIntegerDigits("2024", true, I32Min, I32Max);
  }

  /** There is no 30 February. */
  lemma InvalidCalendarDayExample()
    ensures ParseDate("2024-02-30") == Err(InvalidDate("2024-02-30"))
  {
    var s := "2024-02-30";
    assert Splitter(s) == '-' by { assert s[4] == '-'; }
    assert Split(s, '-') == ["2024", "02", "30"] by {
      assert s == "2024" + ['-'] + "02" + ['-'] + "30";
      SplitThree("2024", "02", "30", '-');
    }
    MonthDayNumbers();
    YearNumber();
    ParseDateOfPieces(s, 2024, 2, 30);
  }
}
