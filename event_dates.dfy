/** The event manager's two date-string helpers: `formatEventDate` shows a date
    as `DD.MM.YYYY`, and `formatDateForInput` fills a date input with
    `YYYY-MM-DD`. Both read the German order `DD-MM-YY(YY)` themselves. Every
    other form goes to the `Date` string parser, which is a parameter here. */
module EventDates {
  import opened Wrappers
  import opened Text
  import Arith

  /** A local calendar date as the `Date` getters report it: `getFullYear()`,
      `getMonth() + 1` and `getDate()`. */
  datatype CalDate = CalDate(year: int, month: nat, day: nat)

  // ---------------------------------------------------------------------------
  // The proleptic Gregorian calendar of section 21.4.1 of ECMA-262
  // ---------------------------------------------------------------------------

  predicate IsLeapYear(y: int) {
    (y % 4 == 0 && y % 100 != 0) || y % 400 == 0
  }

  function DaysInYear(y: int): nat {
    if IsLeapYear(y) then 366 else 365
  }

  function DaysInMonth(y: int, m: nat): (n: nat)
    requires 1 <= m <= 12
    ensures 28 <= n <= 31
    ensures n == 29 <==> m == 2 && IsLeapYear(y)
  {
    if m == 2 then (if IsLeapYear(y) then 29 else 28)
    else if m == 4 || m == 6 || m == 9 || m == 11 then 30
    else 31
  }

  predicate ValidDate(d: CalDate) {
    1 <= d.month <= 12 && 1 <= d.day <= DaysInMonth(d.year, d.month)
  }

  /** The number of days of year `y` that come before month `m`. */
  function DaysBeforeMonth(y: int, m: nat): nat
    requires 1 <= m <= 12
  {
    [0, 31, 59, 90, 120, 151, 181, 212, 243, 273, 304, 334][m - 1]
      + (if m > 2 && IsLeapYear(y) then 1 else 0)
  }

  /** `DayFromYear`: the day number of 1 January of year `y`, counted from
      1 January 1970. */
  function DayFromYear(y: int): int {
    365 * (y - 1970) + (y - 1969) / 4 - (y - 1901) / 100 + (y - 1601) / 400
  }

  /** The day number of day `d` of month `m` of year `y`. The day may lie
      outside the month, as `MakeDay` allows. */
  function DayNumber(y: int, m: nat, d: int): int
    requires 1 <= m <= 12
  {
    DayFromYear(y) + DaysBeforeMonth(y, m) + d - 1
  }

  /** Consecutive years follow each other without a gap: the day-number
      formula agrees with the leap-year rule. */
  lemma DayFromYearStep(y: int)
    ensures DayFromYear(y + 1) == DayFromYear(y) + DaysInYear(y)
  {
    Arith.FloorStep(y - 1969, 4);
    Arith.FloorStep(y - 1901, 100);
    Arith.FloorStep(y - 1601, 400);
    Arith.ModOffset(y, -492, 4);
    Arith.ModOffset(y, -19, 100);
    Arith.ModOffset(y, -4, 400);
  }

  /** Month `m` begins the day after the month before it ends, across the turn
      of the year too. */
  lemma MonthBoundary(y: int, m: nat)
    requires 1 <= m <= 12
    ensures m > 1 ==> DayNumber(y, m, 1) == DayNumber(y, m - 1, DaysInMonth(y, m - 1) + 1)
    ensures m == 1 ==> DayNumber(y, 1, 1) == DayNumber(y - 1, 12, DaysInMonth(y - 1, 12) + 1)
  {
    if m == 1 {
      DayFromYearStep(y - 1);
    } else {
      assert m == 2 || m == 3 || m == 4 || m == 5 || m == 6 || m == 7
          || m == 8 || m == 9 || m == 10 || m == 11 || m == 12;
    }
  }

  /** Distinct valid dates have distinct day numbers, so a day number names one
      date. */
  lemma {:induction false} DayNumberInjective(a: CalDate, b: CalDate)
    requires ValidDate(a) && ValidDate(b) && a != b
    ensures DayNumber(a.year, a.month, a.day) != DayNumber(b.year, b.month, b.day)
  {
    if (a.year, a.month) == (b.year, b.month) {
    } else if a.year < b.year || (a.year == b.year && a.month < b.month) {
      DayNumberBefore(a, b.year, b.month);
    } else {
      DayNumberBefore(b, a.year, a.month);
    }
  }

  /** A valid date of an earlier month has a smaller day number than the first
      day of a later month. */
  lemma {:induction false} DayNumberBefore(a: CalDate, y: int, m: nat)
    requires ValidDate(a) && 1 <= m <= 12
    requires a.year < y || (a.year == y && a.month < m)
    ensures DayNumber(a.year, a.month, a.day) < DayNumber(y, m, 1)
    decreases y - a.year, m
  {
    if m > 1 {
      MonthBoundary(y, m);
      if (a.year, a.month) != (y, m - 1) {
        DayNumberBefore(a, y, m - 1);
      }
    } else {
      MonthBoundary(y, 1);
      if (a.year, a.month) != (y - 1, 12) {
        DayNumberBefore(a, y - 1, 12);
      }
    }
  }

  // ---------------------------------------------------------------------------
  // new Date(year, monthIndex, day)
  // ---------------------------------------------------------------------------

  /** The last day of the month before month `m` of year `y`: the day just
      before that month begins. */
  function MonthBefore(y: int, m: nat): (r: CalDate)
    requires 1 <= m <= 12
    ensures ValidDate(r) && r.day == DaysInMonth(r.year, r.month)
    ensures DayNumber(r.year, r.month, r.day) + 1 == DayNumber(y, m, 1)
  {
    MonthBoundary(y, m);
    if m == 1 then CalDate(y - 1, 12, 31) else CalDate(y, m - 1, DaysInMonth(y, m - 1))
  }

  /** The first day of the month after month `m` of year `y`: the day just
      after that month ends. */
  function MonthAfter(y: int, m: nat): (r: CalDate)
    requires 1 <= m <= 12
    ensures ValidDate(r) && r.day == 1
    ensures DayNumber(r.year, r.month, r.day) == DayNumber(y, m, DaysInMonth(y, m)) + 1
  {
    var r := if m == 12 then CalDate(y + 1, 1, 1) else CalDate(y, m + 1, 1);
    MonthBoundary(r.year, r.month);
    r
  }

  /** What `MakeDay` does with a day outside its month: it counts on into the
      following months, or back into the preceding ones, until the day fits. */
  function Normalize(y: int, m: nat, d: int): (r: CalDate)
    requires 1 <= m <= 12
    ensures ValidDate(r)
    ensures DayNumber(r.year, r.month, r.day) == DayNumber(y, m, d)
    decreases if d < 1 then 1 else 0, if d < 1 then 1 - d else d
  {
    if d < 1 then
      var p := MonthBefore(y, m);
      Normalize(p.year, p.month, d + p.day)
    else if d > DaysInMonth(y, m) then
      var n := MonthAfter(y, m);
      Normalize(n.year, n.month, d - DaysInMonth(y, m))
    else
      CalDate(y, m, d)
  }

  /** A date that is already valid is left as it is. */
  lemma NormalizeKeepsValid(d: CalDate)
    requires ValidDate(d)
    ensures Normalize(d.year, d.month, d.day) == d
  {
  }

  /** `MakeFullYear`: the `Date` constructor reads a year from 0 to 99 as a
      year of the 1900s. */
  function FullYear(year: int): int {
    if 0 <= year <= 99 then 1900 + year else year
  }

  /** The largest distance, in days, of a valid `Date` from 1 January 1970. */
  const MaxDays := 100000000

  /** `new Date(year, monthIndex, day)` at local midnight: the month index
      carries whole years, the day carries months, and a date more than
      `MaxDays` days from 1 January 1970 is an invalid date (`None`). */
  function MakeDate(year: int, monthIndex: int, day: int): Option<CalDate> {
    DateOf(CarriedYear(year, monthIndex), CarriedMonth(monthIndex), day)
  }

  /** The year after the month index has carried whole years into it. */
  function CarriedYear(year: int, monthIndex: int): int {
    FullYear(year) + monthIndex / 12
  }

  /** The month (1 to 12) that is left once whole years are carried out. */
  function CarriedMonth(monthIndex: int): (m: nat)
    ensures 1 <= m <= 12
  {
    monthIndex % 12 + 1
  }

  /** What `MakeDay` promises: the date is valid, it is `day - 1` days after
      the first of the carried month, and it is `None` exactly when that day
      lies out of range. */
  lemma MakeDateDay(year: int, monthIndex: int, day: int)
    ensures var y, m := CarriedYear(year, monthIndex), CarriedMonth(monthIndex);
      MakeDate(year, monthIndex, day).Some? <==> -MaxDays <= DayNumber(y, m, day) <= MaxDays
    ensures var y, m, r := CarriedYear(year, monthIndex), CarriedMonth(monthIndex), MakeDate(year, monthIndex, day);
      r.Some? ==> ValidDate(r.value) && DayNumber(r.value.year, r.value.month, r.value.day) == DayNumber(y, m, 1) + day - 1
  {
    var n := Normalize(CarriedYear(year, monthIndex), CarriedMonth(monthIndex), day);
  }

  /** Day `day` of month `m` of year `y`, carried into a valid date;
      `TimeClip` makes a date further than `MaxDays` days from 1 January 1970
      an invalid date. */
  function DateOf(y: int, m: nat, day: int): Option<CalDate>
    requires 1 <= m <= 12
  {
    var d := Normalize(y, m, day);
    if -MaxDays <= DayNumber(d.year, d.month, d.day) <= MaxDays then Some(d) else None
  }

  /** A valid date in range, outside the years 0 to 99, is built back by its
      own fields. */
  lemma MakeDateOfValid(d: CalDate)
    requires ValidDate(d) && !(0 <= d.year <= 99)
    requires -MaxDays <= DayNumber(d.year, d.month, d.day) <= MaxDays
    ensures MakeDate(d.year, d.month - 1, d.day) == Some(d)
  {
    assert CarriedYear(d.year, d.month - 1) == d.year && CarriedMonth(d.month - 1) == d.month by {
      Arith.DivUnique(d.month - 1, 12, 0, d.month - 1);
    }
    NormalizeKeepsValid(d);
  }

  /** A day past the end of February 2024 runs on into March. */
  lemma RolloverExample()
    ensures MakeDate(2024, 1, 31) == Some(CalDate(2024, 3, 2))
    ensures MakeDate(2023, 0, 0) == Some(CalDate(2022, 12, 31))
  {
    assert CarriedYear(2024, 1) == 2024 && CarriedMonth(1) == 2;
    assert Normalize(2024, 2, 31) == CalDate(2024, 3, 2);
    assert CarriedYear(2023, 0) == 2023 && CarriedMonth(0) == 1;
    assert Normalize(2023, 1, 0) == CalDate(2022, 12, 31);
  }

  // ---------------------------------------------------------------------------
  // Reading the input string
  // ---------------------------------------------------------------------------

  /** The two-digit year pivot of the German branch: below 50 is the 2000s,
      50 to 99 the 1900s, and larger years stay as they are. */
  function Pivot(year: int): int {
    if year < 100 then year + (if year < 50 then 2000 else 1900) else year
  }

  lemma PivotYear(y: int)
    ensures 0 <= y < 50 ==> Pivot(y) == 2000 + y
    ensures 50 <= y < 100 ==> Pivot(y) == 1900 + y
    ensures y >= 100 ==> Pivot(y) == y
    ensures 0 <= y < 100 ==> 1950 <= Pivot(y) <= 2049 && Pivot(y) % 100 == y
    ensures y >= 0 ==> Pivot(y) >= 100 && FullYear(Pivot(y)) == Pivot(y)
  {
    if 0 <= y < 100 {
      Arith.ModOffset(y, if y < 50 then 20 else 19, 100);
    }
  }

  /** What the shared front half of both helpers makes of a non-empty string. */
  datatype Reading =
    | NoDate     // a dash, but not three parts: `date` stays undefined
    | IsoParts   // three parts, the first four characters long
    | DayFirst(day: Option<int>, month: Option<int>, year: Option<int>)
                 // the three parts through `parseInt`, `None` for `NaN`
    | Parsed     // no dash: handed to the `Date` string parser

  function Read(s: string): Reading {
    if '-' in s then
      var parts := Split(s, '-');
      if |parts| != 3 then NoDate
      else if |parts[0]| == 4 then IsoParts
      else DayFirst(ParseInt(parts[0]), ParseInt(parts[1]), ParseInt(parts[2]))
    else Parsed
  }

  /** `new Date(year, month - 1, day)` after the year pivot; a `NaN` part makes
      the date invalid. */
  function DayFirstDate(day: Option<int>, month: Option<int>, year: Option<int>): Option<CalDate> {
    if day.Some? && month.Some? && year.Some? then MakeDate(Pivot(year.value), month.value - 1, day.value)
    else None
  }

  /** The German branch never produces a year the `Date` constructor would
      move into the 1900s: a part of a dash-split string has no minus sign. */
  lemma DayFirstYear(s: string)
    requires Read(s).DayFirst? && Read(s).year.Some?
    ensures Read(s).year.value >= 0
    ensures Pivot(Read(s).year.value) >= 100
    ensures FullYear(Pivot(Read(s).year.value)) == Pivot(Read(s).year.value)
  {
    var parts := Split(s, '-');
    assert '-' !in parts[2];
    PivotYear(Read(s).year.value);
  }

  /** Three dash-free pieces joined by dashes, the first not four characters
      long, are read day-first: day, month, year. */
  lemma DayFirstOrder(dd: string, mm: string, yy: string)
    requires '-' !in dd && '-' !in mm && '-' !in yy && |dd| != 4
    ensures Read(Join([dd, mm, yy], '-')) == DayFirst(ParseInt(dd), ParseInt(mm), ParseInt(yy))
  {
    var parts := [dd, mm, yy];
    assert forall k :: 0 <= k < 3 ==> '-' !in parts[k];
    SplitJoin(parts, '-');
  }

  // ---------------------------------------------------------------------------
  // The two helpers
  // ---------------------------------------------------------------------------

  /** `${day}.${month}.${year}`: `DD.MM.YYYY`. */
  function ShowDotted(d: CalDate): string {
    Join([Pad2(d.day), Pad2(d.month), IntToString(d.year)], '.')
  }

  /** `${year}-${month}-${day}`: `YYYY-MM-DD`. */
  function ShowIso(d: CalDate): string {
    Join([IntToString(d.year), Pad2(d.month), Pad2(d.day)], '-')
  }

  /** `formatEventDate(s)`; `parse` is `new Date(s)` read through the local
      getters, `None` for an invalid date. */
  function FormatEventDate(s: string, parse: string -> Option<CalDate>): string {
    if s == [] then "-"
    else
      var date := match Read(s) {
        case NoDate => None
        case IsoParts => parse(s)
        case DayFirst(day, month, year) => DayFirstDate(day, month, year)
        case Parsed => parse(s)
      };
      if date.None? then s else ShowDotted(date.value)
  }

  /** `formatDateForInput(s)`, with `parse` as for `FormatEventDate`. */
  function FormatDateForInput(s: string, parse: string -> Option<CalDate>): string {
    if s == [] then ""
    else match Read(s) {
      case NoDate => ""
      case IsoParts => s
      case DayFirst(day, month, year) =>
        var date := DayFirstDate(day, month, year);
        if date.None? then "" else ShowIso(date.value)
      case Parsed => if parse(s).None? then "" else ShowIso(parse(s).value)
    }
  }

  // ---------------------------------------------------------------------------
  // What the helpers promise
  // ---------------------------------------------------------------------------

  /** The fallbacks: the empty string gives `-` and `''`; a dash with other
      than three parts, or an invalid date, gives the input back and `''`. */
  lemma Fallbacks(s: string, parse: string -> Option<CalDate>)
    ensures s == [] ==> FormatEventDate(s, parse) == "-" && FormatDateForInput(s, parse) == ""
    ensures s != [] && '-' in s && |Split(s, '-')| != 3 ==>
      FormatEventDate(s, parse) == s && FormatDateForInput(s, parse) == ""
    ensures s != [] && Read(s).DayFirst? && DayFirstDate(Read(s).day, Read(s).month, Read(s).year).None? ==>
      FormatEventDate(s, parse) == s && FormatDateForInput(s, parse) == ""
    ensures s != [] && '-' !in s && parse(s).None? ==>
      FormatEventDate(s, parse) == s && FormatDateForInput(s, parse) == ""
  {
  }

  /** A dash-separated string of three parts whose first part has four
      characters is passed through by `formatDateForInput` and handed to the
      parser by `formatEventDate`. */
  lemma IsoPassthrough(s: string, parse: string -> Option<CalDate>)
    requires |Split(s, '-')| == 3 && |Split(s, '-')[0]| == 4
    ensures FormatDateForInput(s, parse) == s
    ensures FormatEventDate(s, parse) == if parse(s).None? then s else ShowDotted(parse(s).value)
  {
  }

  /** A valid date written day-first, with a zero-padded day and month and a
      year of one or more digits, is read back as its own day, month and
      digits. */
  lemma DayFirstReadsBack(d: CalDate, yy: string)
    requires ValidDate(d) && |yy| >= 1 && AllDigits(yy)
    ensures Read(Join([Pad2(d.day), Pad2(d.month), yy], '-'))
      == DayFirst(Some(d.day as int), Some(d.month as int), Some(DecimalValue(yy) as int))
  {
    var dd, mm := Pad2(d.day), Pad2(d.month);
    DigitsHaveNoSeparator(dd);
    DigitsHaveNoSeparator(mm);
    DigitsHaveNoSeparator(yy);
    DayFirstOrder(dd, mm, yy);
    ParseIntPad2(d.day);
    ParseIntPad2(d.month);
    ParseIntOfDigits(yy);
  }

  /** Numbers that name a valid date in range, with a year the pivot takes to
      the date's year, give that date back. */
  lemma DayFirstDateOf(d: CalDate, day: Option<int>, month: Option<int>, year: Option<int>)
    requires ValidDate(d) && -MaxDays <= DayNumber(d.year, d.month, d.day) <= MaxDays
    requires day.Some? && day.value == d.day && month.Some? && month.value == d.month
    requires year.Some? && year.value >= 0 && Pivot(year.value) == d.year
    ensures DayFirstDate(day, month, year) == Some(d)
  {
    PivotYear(year.value);
    MakeDateOfValid(d);
  }

  /** A string read day-first as a valid date comes out as that date in both
      formats. */
  lemma DayFirstFormats(s: string, parse: string -> Option<CalDate>, d: CalDate)
    requires Read(s).DayFirst? && DayFirstDate(Read(s).day, Read(s).month, Read(s).year) == Some(d)
    ensures FormatEventDate(s, parse) == ShowDotted(d)
    ensures FormatDateForInput(s, parse) == ShowIso(d)
  {
    assert s != [];
  }

  /** The round trip through both helpers: such a string comes out as the
      same date in both formats. */
  lemma DayFirstRoundTrip(d: CalDate, yy: string, parse: string -> Option<CalDate>)
    requires ValidDate(d) && |yy| >= 1 && AllDigits(yy) && Pivot(DecimalValue(yy)) == d.year
    requires -MaxDays <= DayNumber(d.year, d.month, d.day) <= MaxDays
    ensures FormatEventDate(Join([Pad2(d.day), Pad2(d.month), yy], '-'), parse) == ShowDotted(d)
    ensures FormatDateForInput(Join([Pad2(d.day), Pad2(d.month), yy], '-'), parse) == ShowIso(d)
  {
    var s := Join([Pad2(d.day), Pad2(d.month), yy], '-');
    DayFirstReadsBack(d, yy);
    DayFirstDateOf(d, Read(s).day, Read(s).month, Read(s).year);
    DayFirstFormats(s, parse, d);
  }

  /** The dotted output splits on `.` into the zero-padded day, the
      zero-padded month and the year. */
  lemma DottedSplit(d: CalDate)
    requires ValidDate(d) && d.year >= 0
    ensures Split(ShowDotted(d), '.') == [Pad2(d.day), Pad2(d.month), NatToString(d.year)]
    ensures |Pad2(d.day)| == 2 && |Pad2(d.month)| == 2
  {
    var parts := [Pad2(d.day), Pad2(d.month), NatToString(d.year)];
    DigitsHaveNoSeparator(parts[0]);
    DigitsHaveNoSeparator(parts[1]);
    DigitsHaveNoSeparator(parts[2]);
    assert forall k :: 0 <= k < 3 ==> '.' !in parts[k];
    assert ShowDotted(d) == Join(parts, '.');
    SplitJoin(parts, '.');
  }

  /** `parseInt` reads the day, the month and the year back from the dotted
      output. */
  lemma DottedReadBack(d: CalDate)
    requires ValidDate(d) && d.year >= 0
    ensures var parts := Split(ShowDotted(d), '.');
      |parts| == 3 && ParseInt(parts[0]) == Some(d.day as int)
      && ParseInt(parts[1]) == Some(d.month as int) && ParseInt(parts[2]) == Some(d.year)
  {
    var parts := Split(ShowDotted(d), '.');
    DottedSplit(d);
    assert parts[0] == Pad2(d.day) && parts[1] == Pad2(d.month) && parts[2] == NatToString(d.year);
    ParseIntPad2(d.day);
    ParseIntPad2(d.month);
    ParseIntNatToString(d.year);
  }

  /** The input-field output of a four-digit year is `YYYY-MM-DD`: it splits
      on `-` into four, two and two digits. */
  lemma IsoSplit(d: CalDate)
    requires ValidDate(d) && 1000 <= d.year <= 9999
    ensures Split(ShowIso(d), '-') == [NatToString(d.year), Pad2(d.month), Pad2(d.day)]
    ensures |NatToString(d.year)| == 4 && |Pad2(d.month)| == 2 && |Pad2(d.day)| == 2
  {
    var parts := [NatToString(d.year), Pad2(d.month), Pad2(d.day)];
    DigitsHaveNoSeparator(parts[0]);
    DigitsHaveNoSeparator(parts[1]);
    DigitsHaveNoSeparator(parts[2]);
    assert forall k :: 0 <= k < 3 ==> '-' !in parts[k];
    assert ShowIso(d) == Join(parts, '-');
    SplitJoin(parts, '-');
    NatToStringFourDigits(d.year);
  }

  /** `parseInt` reads the year, the month and the day back from the
      input-field output. */
  lemma IsoReadBack(d: CalDate)
    requires ValidDate(d) && 1000 <= d.year <= 9999
    ensures var parts := Split(ShowIso(d), '-');
      |parts| == 3 && ParseInt(parts[0]) == Some(d.year)
      && ParseInt(parts[1]) == Some(d.month as int) && ParseInt(parts[2]) == Some(d.day as int)
  {
    var parts := Split(ShowIso(d), '-');
    IsoSplit(d);
    assert parts[0] == NatToString(d.year) && parts[1] == Pad2(d.month) && parts[2] == Pad2(d.day);
    ParseIntNatToString(d.year);
    ParseIntPad2(d.month);
    ParseIntPad2(d.day);
  }

  /** Feeding the input-field output back in leaves it unchanged, for a
      four-digit year: it is read as the ISO form and passed through. */
  lemma InputFormStable(d: CalDate, parse: string -> Option<CalDate>)
    requires ValidDate(d) && 1000 <= d.year <= 9999
    ensures FormatDateForInput(ShowIso(d), parse) == ShowIso(d)
  {
    IsoSplit(d);
    IsoPassthrough(ShowIso(d), parse);
  }
}
