/** `datetime.strptime` with the two formats of extraction.py:29 and :31,
    applied to the captured date, and `strftime("%Y-%m-%d %H:%M:%S")`
    (extraction.py:33), in the C locale with English names. */
module Timestamps {
  import opened Wrappers
  import opened Chars
  import opened LinePattern

  datatype DateTime = DateTime(year: nat, month: nat, day: nat, hour: nat, minute: nat, second: nat)

  /** The ValueError that `datetime.strptime` raises, by cause. */
  datatype DateError =
    | FormatMismatch     // "time data ... does not match format ..."
    | YearOutOfRange     // date(0, ...): MINYEAR is 1
    | DayOutOfRange      // "day is out of range for month"
    | SecondOutOfRange   // %S admits 60 and 61, datetime() does not

  const MinYear: nat := 1
  const MaxYear: nat := 9999

  /** The proleptic Gregorian leap-year rule used by `datetime`. */
  predicate IsLeapYear(y: nat) {
    y % 4 == 0 && (y % 100 != 0 || y % 400 == 0)
  }

  function DaysInMonth(y: nat, m: nat): nat
    requires 1 <= m <= 12
  {
    if m == 2 then (if IsLeapYear(y) then 29 else 28)
    else if m == 4 || m == 6 || m == 9 || m == 11 then 30
    else 31
  }

  /** Days in the first `n` months of year `y`. */
  function DaysInMonths(y: nat, n: nat): nat
    requires n <= 12
  {
    if n == 0 then 0 else DaysInMonths(y, n - 1) + DaysInMonth(y, n)
  }

  /** The months add up to a year of 366 days in a leap year and 365 days
      otherwise. */
  lemma YearLength(y: nat)
    ensures DaysInMonths(y, 12) == if IsLeapYear(y) then 366 else 365
  {
    var feb := DaysInMonth(y, 2);
    assert DaysInMonths(y, 1) == 31;
    assert DaysInMonths(y, 2) == 31 + feb;
    assert DaysInMonths(y, 3) == 62 + feb;
    assert DaysInMonths(y, 4) == 92 + feb;
    assert DaysInMonths(y, 5) == 123 + feb;
    assert DaysInMonths(y, 6) == 153 + feb;
    assert DaysInMonths(y, 7) == 184 + feb;
    assert DaysInMonths(y, 8) == 215 + feb;
    assert DaysInMonths(y, 9) == 245 + feb;
    assert DaysInMonths(y, 10) == 276 + feb;
    assert DaysInMonths(y, 11) == 306 + feb;
    assert DaysInMonths(y, 12) == 337 + feb;
  }

  /** Every month has 28 to 31 days, and 29 only in February of a leap
      year. */
  lemma MonthLength(y: nat, m: nat)
    requires 1 <= m <= 12
    ensures 28 <= DaysInMonth(y, m) <= 31
    ensures DaysInMonth(y, m) == 29 <==> m == 2 && IsLeapYear(y)
    ensures DaysInMonth(y, m) == 28 <==> m == 2 && !IsLeapYear(y)
  {
  }

  /** The leap-year rule repeats every 400 years, and a century year is a
      leap year only when it is a multiple of 400. */
  lemma LeapCycle(y: nat)
    ensures IsLeapYear(y + 400) == IsLeapYear(y)
    ensures y % 100 == 0 ==> (IsLeapYear(y) <==> y % 400 == 0)
  {
    assert (y + 400) % 4 == y % 4;
    assert (y + 400) % 100 == y % 100;
    assert (y + 400) % 400 == y % 400;
  }

  /** A value `datetime` accepts. */
  predicate Valid(t: DateTime) {
    && MinYear <= t.year <= MaxYear
    && 1 <= t.month <= 12
    && 1 <= t.day <= DaysInMonth(t.year, t.month)
    && t.hour <= 23 && t.minute <= 59 && t.second <= 59
  }

  // ---------------------------------------------------------------------
  // The formats

  const PrimaryFormat: string := "%a %b %d %H:%M:%S %Y"
  const FallbackFormat: string := "%a %b  %d %H:%M:%S %Y"

  /** What both formats become before their directives are expanded. */
  const DatePattern: string := "%a\\s+%b\\s+%d\\s+%H:%M:%S\\s+%Y"

  /** The whitespace step of `_strptime`'s format compiler: every run of
      whitespace in the format becomes `\s+`. */
  function CompileFormat(f: string): string
    decreases |f|
  {
    if f == [] then []
    else if IsSpace(f[0]) then "\\s+" + CompileFormat(f[RunEnd(f, 0, Space, |f|)..])
    else [f[0]] + CompileFormat(f[1..])
  }

  lemma {:induction false} CompileNoSpace(x: string, rest: string)
    requires AllIn(x, NonSpace)
    ensures CompileFormat(x + rest) == x + CompileFormat(rest)
    decreases |x|
  {
    if x != [] {
      var f := x + rest;
      assert InClass(x[0], NonSpace);
      assert f[0] == x[0] && !IsSpace(f[0]);
      assert f[1..] == x[1..] + rest;
      assert AllIn(x[1..], NonSpace) by {
        forall i | 0 <= i < |x[1..]| ensures InClass(x[1..][i], NonSpace) {
          assert x[1..][i] == x[i + 1];
        }
      }
      CompileNoSpace(x[1..], rest);
      calc {
        CompileFormat(f);
        [x[0]] + CompileFormat(x[1..] + rest);
        [x[0]] + (x[1..] + CompileFormat(rest));
        ([x[0]] + x[1..]) + CompileFormat(rest);
        { assert [x[0]] + x[1..] == x; }
        x + CompileFormat(rest);
      }
    } else {
      assert x + rest == rest;
    }
  }

  lemma CompileGap(gap: string, rest: string)
    requires |gap| > 0 && AllIn(gap, Space)
    requires rest != [] && !IsSpace(rest[0])
    ensures CompileFormat(gap + rest) == "\\s+" + CompileFormat(rest)
  {
    var f := gap + rest;
    RunEndAt(f, 0, Space, |f|, |gap|);
    assert f[|gap|..] == rest;
  }

  /** One field of the format followed by a run of whitespace. */
  lemma CompileStep(field: string, gap: string, rest: string)
    requires AllIn(field, NonSpace)
    requires |gap| > 0 && AllIn(gap, Space)
    requires rest != [] && !IsSpace(rest[0])
    ensures CompileFormat(field + (gap + rest)) == field + ("\\s+" + CompileFormat(rest))
  {
    CompileGap(gap, rest);
    CompileNoSpace(field, gap + rest);
  }

  /** A format made of five whitespace-free fields separated by whitespace
      runs compiles to the same fields separated by `\s+`, whatever the
      widths of the runs. */
  lemma CompileFields(f1: string, f2: string, f3: string, f4: string, f5: string,
                      g1: string, g2: string, g3: string, g4: string)
    requires f2 != [] && f3 != [] && f4 != [] && f5 != []
    requires AllIn(f1, NonSpace) && AllIn(f2, NonSpace) && AllIn(f3, NonSpace)
    requires AllIn(f4, NonSpace) && AllIn(f5, NonSpace)
    requires |g1| > 0 && |g2| > 0 && |g3| > 0 && |g4| > 0
    requires AllIn(g1, Space) && AllIn(g2, Space) && AllIn(g3, Space) && AllIn(g4, Space)
    ensures CompileFormat(f1 + (g1 + (f2 + (g2 + (f3 + (g3 + (f4 + (g4 + f5))))))))
         == f1 + ("\\s+" + (f2 + ("\\s+" + (f3 + ("\\s+" + (f4 + ("\\s+" + f5)))))))
  {
    assert InClass(f2[0], NonSpace) && InClass(f3[0], NonSpace);
    assert InClass(f4[0], NonSpace) && InClass(f5[0], NonSpace);
    CompileNoSpace(f5, []);
    assert f5 + [] == f5;
    var r3 := f4 + (g4 + f5);
    CompileStep(f4, g4, f5);
    var r2 := f3 + (g3 + r3);
    CompileStep(f3, g3, r3);
    var r1 := f2 + (g2 + r2);
    CompileStep(f2, g2, r2);
    CompileStep(f1, g1, r1);
  }

  /** The fields and gaps the two formats and the pattern are made of. */
  lemma FormatPieces()
    ensures AllIn("%a", NonSpace) && AllIn("%b", NonSpace) && AllIn("%d", NonSpace)
    ensures AllIn("%H:%M:%S", NonSpace) && AllIn("%Y", NonSpace)
    ensures AllIn(" ", Space) && AllIn("  ", Space)
  {
  }

  lemma FormatsSplit()
    ensures PrimaryFormat == "%a" + (" " + ("%b" + (" " + ("%d" + (" " + ("%H:%M:%S" + (" " + "%Y")))))))
    ensures FallbackFormat == "%a" + (" " + ("%b" + ("  " + ("%d" + (" " + ("%H:%M:%S" + (" " + "%Y")))))))
    ensures DatePattern == "%a" + ("\\s+" + ("%b" + ("\\s+" + ("%d" + ("\\s+" + ("%H:%M:%S" + ("\\s+" + "%Y")))))))
  {
  }

  /** The fallback format on line 31 differs from the one on line 29 only in
      the width of a whitespace run, so both compile to the same pattern:
      whenever the first `strptime` raises, the second raises too. */
  lemma FormatsCompileAlike(fmt: string)
    requires fmt == PrimaryFormat || fmt == FallbackFormat
    ensures CompileFormat(fmt) == DatePattern
  {
    FormatPieces();
    FormatsSplit();
    if fmt == PrimaryFormat {
      CompileFields("%a", "%b", "%d", "%H:%M:%S", "%Y", " ", " ", " ", " ");
    } else {
      CompileFields("%a", "%b", "%d", "%H:%M:%S", "%Y", " ", "  ", " ", " ");
    }
  }

  // ---------------------------------------------------------------------
  // The directives of the compiled pattern, in the C locale

  /** `%a`: the abbreviated weekday names, matched ignoring case. */
  const WeekdayNames: seq<string> := ["mon", "tue", "wed", "thu", "fri", "sat", "sun"]

  /** `%b`: the abbreviated month names, matched ignoring case; the month
      number is the position in this list plus one. */
  const MonthNames: seq<string> :=
    ["jan", "feb", "mar", "apr", "may", "jun", "jul", "aug", "sep", "oct", "nov", "dec"]

  /** Python's `list.index`, with None for its ValueError: the position of
      the first occurrence of `x`. */
  function IndexOf(names: seq<string>, x: string): (r: Option<nat>)
    ensures r.Some? ==> r.value < |names| && names[r.value] == x
    ensures r.Some? ==> forall j :: 0 <= j < r.value ==> names[j] != x
    ensures r.None? ==> x !in names
    decreases |names|
  {
    if names == [] then None
    else if names[0] == x then Some(0)
    else match IndexOf(names[1..], x)
      case None => None
      case Some(i) => Some(i + 1)
  }

  /** The name a token stands for: the pattern matches the names ignoring
      case, and `_strptime` looks the lower-cased token up in the list. */
  function NameIndex(token: string, names: seq<string>): Option<nat> {
    IndexOf(names, LowerCase(token))
  }

  /** `%d`, `3[01]|[12]\d|0[1-9]|[1-9]| [1-9]`, on the day field. The last
      alternative only moves one space from the gap before the field into
      it and gives the same number as `[1-9]`. */
  predicate DayMatches(t: string) {
    || (|t| == 2 && t[0] == '3' && (t[1] == '0' || t[1] == '1'))
    || (|t| == 2 && (t[0] == '1' || t[0] == '2') && IsDigit(t[1]))
    || (|t| == 2 && t[0] == '0' && '1' <= t[1] <= '9')
    || (|t| == 1 && '1' <= t[0] <= '9')
  }

  /** `%H`, `2[0-3]|[0-1]\d|\d`, on a two-digit field followed by `:`
      (the one-digit alternative leaves a digit where `:` must be). */
  predicate HourMatches(t: string) {
    || (|t| == 2 && t[0] == '2' && '0' <= t[1] <= '3')
    || (|t| == 2 && (t[0] == '0' || t[0] == '1') && IsDigit(t[1]))
  }

  /** `%M`, `[0-5]\d|\d`, on a two-digit field followed by `:`. */
  predicate MinuteMatches(t: string) {
    |t| == 2 && '0' <= t[0] <= '5' && IsDigit(t[1])
  }

  /** `%S`, `6[0-1]|[0-5]\d|\d`, on a two-digit field followed by
      whitespace: leap seconds 60 and 61 get through the pattern. */
  predicate SecondMatches(t: string) {
    || (|t| == 2 && t[0] == '6' && (t[1] == '0' || t[1] == '1'))
    || (|t| == 2 && '0' <= t[0] <= '5' && IsDigit(t[1]))
  }

  lemma DayMatchesRange(t: string)
    requires 1 <= |t| <= 2 && AllDigits(t)
    ensures DayMatches(t) <==> 1 <= DigitsValue(t) <= 31
  {
    if |t| == 2 {
      DigitsValue2(t);
    } else {
      assert t[..0] == [];
    }
  }

  lemma HourMatchesRange(t: string)
    requires |t| == 2 && AllDigits(t)
    ensures HourMatches(t) <==> DigitsValue(t) <= 23
  {
    DigitsValue2(t);
  }

  lemma MinuteMatchesRange(t: string)
    requires |t| == 2 && AllDigits(t)
    ensures MinuteMatches(t) <==> DigitsValue(t) <= 59
  {
    DigitsValue2(t);
  }

  lemma SecondMatchesRange(t: string)
    requires |t| == 2 && AllDigits(t)
    ensures SecondMatches(t) <==> DigitsValue(t) <= 61
  {
    DigitsValue2(t);
  }

  // ---------------------------------------------------------------------
  // strptime

  /** Both names are known abbreviations. */
  predicate NamesKnown(d: RawDate) {
    NameIndex(d.weekday, WeekdayNames).Some? && NameIndex(d.month, MonthNames).Some?
  }

  /** The numeric fields are within what their directives' patterns admit. */
  predicate InPatternRanges(d: RawDate)
    requires WellShaped(d)
  {
    && 1 <= DigitsValue(d.day) <= 31
    && DigitsValue(d.hour) <= 23 && DigitsValue(d.minute) <= 59 && DigitsValue(d.second) <= 61
  }

  /** What `_strptime` reads from the groups: `int()` of each number, and
      the month as its position among the abbreviations. The weekday is
      read too but plays no part when year, month and day are all given. */
  function Fields(d: RawDate): (t: DateTime)
    requires WellShaped(d) && NameIndex(d.month, MonthNames).Some?
    ensures 1 <= t.month <= 12 && LowerCase(d.month) == MonthNames[t.month - 1]
  {
    DateTime(DigitsValue(d.year), NameIndex(d.month, MonthNames).value + 1, DigitsValue(d.day),
      DigitsValue(d.hour), DigitsValue(d.minute), DigitsValue(d.second))
  }

  /** `datetime.strptime` on the captured date against the compiled
      pattern DatePattern: the pattern must match the whole text, then
      `date(year, month, day)` checks the year and the day, then the
      `datetime` constructor checks the second. */
  function ParseDate(d: RawDate): (r: Result<DateTime, DateError>)
    requires WellShaped(d)
    ensures r.Success? <==> NamesKnown(d) && Valid(Fields(d))
    ensures r.Success? ==> r.value == Fields(d)
  {
    MatchesIffInRanges(d);
    if !(NamesKnown(d) && DayMatches(d.day) && HourMatches(d.hour)
         && MinuteMatches(d.minute) && SecondMatches(d.second)) then
      Failure(FormatMismatch)
    else
      var t := Fields(d);
      if t.year < MinYear then Failure(YearOutOfRange)
      else if t.day > DaysInMonth(t.year, t.month) then Failure(DayOutOfRange)
      else if t.second > 59 then Failure(SecondOutOfRange)
      else Success(t)
  }

  /** The directives' patterns admit exactly the numbers in their ranges;
      a four-digit year is at most MaxYear. */
  lemma MatchesIffInRanges(d: RawDate)
    requires WellShaped(d)
    ensures (DayMatches(d.day) && HourMatches(d.hour) && MinuteMatches(d.minute)
             && SecondMatches(d.second)) <==> InPatternRanges(d)
    ensures DigitsValue(d.year) <= MaxYear
  {
    DayMatchesRange(d.day);
    HourMatchesRange(d.hour);
    MinuteMatchesRange(d.minute);
    SecondMatchesRange(d.second);
    DigitsValue4(d.year);
  }

  /** Which ValueError a rejected date raises: the pattern is checked
      first, then the year, then the day, and the second last. */
  lemma ParseDateErrors(d: RawDate)
    requires WellShaped(d)
    ensures ParseDate(d) == Failure(FormatMismatch) <==> !NamesKnown(d) || !InPatternRanges(d)
    ensures ParseDate(d) == Failure(YearOutOfRange) <==>
      NamesKnown(d) && InPatternRanges(d) && DigitsValue(d.year) == 0
    ensures ParseDate(d) == Failure(DayOutOfRange) <==>
      && NamesKnown(d) && InPatternRanges(d) && DigitsValue(d.year) != 0
      && Fields(d).day > DaysInMonth(Fields(d).year, Fields(d).month)
    ensures ParseDate(d) == Failure(SecondOutOfRange) <==>
      && NamesKnown(d) && InPatternRanges(d) && DigitsValue(d.year) != 0
      && Fields(d).day <= DaysInMonth(Fields(d).year, Fields(d).month)
      && DigitsValue(d.second) >= 60
  {
    MatchesIffInRanges(d);
  }

  /** A captured February 29th with known names, a non-zero year and an
      in-range clock parses exactly in leap years; in any other year
      `strptime` raises the day-out-of-range error. */
  lemma LeapDay(d: RawDate)
    requires WellShaped(d) && NamesKnown(d)
    requires Fields(d).month == 2 && Fields(d).day == 29 && DigitsValue(d.year) != 0
    requires Fields(d).hour <= 23 && Fields(d).minute <= 59 && Fields(d).second <= 59
    ensures ParseDate(d).Success? <==> IsLeapYear(Fields(d).year)
    ensures !IsLeapYear(Fields(d).year) ==> ParseDate(d) == Failure(DayOutOfRange)
  {
    ParseDateErrors(d);
    MatchesIffInRanges(d);
  }

  /** `datetime.strptime(date_str, fmt)` for a format that compiles to
      DatePattern, as both formats of lines 29 and 31 do
      (FormatsCompileAlike). `_strptime` sees its format only through the
      compiled pattern, so the result depends on the format only through
      that pattern. */
  function Strptime(d: RawDate, fmt: string): Result<DateTime, DateError>
    requires WellShaped(d)
    requires CompileFormat(fmt) == DatePattern
  {
    ParseDate(d)
  }

  // ---------------------------------------------------------------------
  // strftime("%Y-%m-%d %H:%M:%S")

  /** The canonical text of a date: `YYYY-MM-DD HH:MM:SS`, every field
      zero-padded. */
  function Strftime(t: DateTime): (r: string)
    requires Valid(t)
  {
    DateText(t) + " " + ClockText(t)
  }

  /** `%Y-%m-%d` */
  function DateText(t: DateTime): string
    requires Valid(t)
  {
    Pad4(t.year) + "-" + Pad2(t.month) + "-" + Pad2(t.day)
  }

  /** `%H:%M:%S` */
  function ClockText(t: DateTime): string
    requires Valid(t)
  {
    Pad2(t.hour) + ":" + Pad2(t.minute) + ":" + Pad2(t.second)
  }

  /** Nineteen characters: digits, with `-`, `-`, a space, `:` and `:` at
      positions 4, 7, 10, 13 and 16. */
  predicate IsCanonical(s: string) {
    && |s| == 19
    && AllDigits(s[0..4]) && s[4] == '-' && AllDigits(s[5..7]) && s[7] == '-'
    && AllDigits(s[8..10]) && s[10] == ' ' && AllDigits(s[11..13]) && s[13] == ':'
    && AllDigits(s[14..16]) && s[16] == ':' && AllDigits(s[17..19])
  }

  /** The fields of a canonical text. */
  function ParseCanonical(s: string): DateTime
    requires IsCanonical(s)
  {
    DateTime(DigitsValue(s[0..4]), DigitsValue(s[5..7]), DigitsValue(s[8..10]),
      DigitsValue(s[11..13]), DigitsValue(s[14..16]), DigitsValue(s[17..19]))
  }

  /** Where each field sits in the output of Strftime. */
  lemma StrftimeLayout(t: DateTime)
    requires Valid(t)
    ensures var s := Strftime(t);
      && |s| == 19
      && s[0..4] == Pad4(t.year) && s[4] == '-' && s[5..7] == Pad2(t.month) && s[7] == '-'
      && s[8..10] == Pad2(t.day) && s[10] == ' ' && s[11..13] == Pad2(t.hour) && s[13] == ':'
      && s[14..16] == Pad2(t.minute) && s[16] == ':' && s[17..19] == Pad2(t.second)
  {
    var date, clock := DateText(t), ClockText(t);
    DateLayout(t);
    ClockLayout(t);
    var s := Strftime(t);
    assert s[..10] == date;
    assert s[11..] == clock;
    assert s[0..4] == date[0..4] && s[5..7] == date[5..7] && s[8..10] == date[8..10];
    assert s[11..13] == clock[0..2] && s[14..16] == clock[3..5] && s[17..19] == clock[6..8];
  }

  lemma DateLayout(t: DateTime)
    requires Valid(t)
    ensures var s := DateText(t);
      && |s| == 10
      && s[0..4] == Pad4(t.year) && s[4] == '-' && s[5..7] == Pad2(t.month) && s[7] == '-'
      && s[8..10] == Pad2(t.day)
  {
    Pad4Value(t.year);
    Pad2Value(t.month);
    Pad2Value(t.day);
    FieldAt([], Pad4(t.year), "-" + Pad2(t.month) + "-" + Pad2(t.day));
    FieldAt(Pad4(t.year) + "-", Pad2(t.month), "-" + Pad2(t.day));
    FieldAt(Pad4(t.year) + "-" + Pad2(t.month) + "-", Pad2(t.day), []);
  }

  lemma ClockLayout(t: DateTime)
    requires Valid(t)
    ensures var s := ClockText(t);
      && |s| == 8
      && s[0..2] == Pad2(t.hour) && s[2] == ':' && s[3..5] == Pad2(t.minute) && s[5] == ':'
      && s[6..8] == Pad2(t.second)
  {
    Pad2Value(t.hour);
    Pad2Value(t.minute);
    Pad2Value(t.second);
    FieldAt([], Pad2(t.hour), ":" + Pad2(t.minute) + ":" + Pad2(t.second));
    FieldAt(Pad2(t.hour) + ":", Pad2(t.minute), ":" + Pad2(t.second));
    FieldAt(Pad2(t.hour) + ":" + Pad2(t.minute) + ":", Pad2(t.second), []);
  }

  /** A field between a prefix and a suffix sits right after the prefix. */
  lemma FieldAt(x: string, f: string, r: string)
    ensures (x + f + r)[|x|..|x| + |f|] == f
  {
    assert (x + f + r)[|x|..|x| + |f|] == (x + f)[|x|..];
  }

  /** strftime gives a canonical text, from which the date reads back. */
  lemma StrftimeRoundTrip(t: DateTime)
    requires Valid(t)
    ensures IsCanonical(Strftime(t)) && ParseCanonical(Strftime(t)) == t
  {
    StrftimeLayout(t);
    Pad4Value(t.year);
    Pad2Value(t.month);
    Pad2Value(t.day);
    Pad2Value(t.hour);
    Pad2Value(t.minute);
    Pad2Value(t.second);
  }

  /** A canonical text of a valid date is what strftime writes for it. */
  lemma CanonicalRoundTrip(s: string)
    requires IsCanonical(s) && Valid(ParseCanonical(s))
    ensures Strftime(ParseCanonical(s)) == s
  {
    var t := ParseCanonical(s);
    StrftimeLayout(t);
    ValuePad4(s[0..4]);
    ValuePad2(s[5..7]);
    ValuePad2(s[8..10]);
    ValuePad2(s[11..13]);
    ValuePad2(s[14..16]);
    ValuePad2(s[17..19]);
    var u := Strftime(t);
    forall i | 0 <= i < 19
      ensures u[i] == s[i]
    {
      if i < 4 { assert u[i] == u[0..4][i]; assert s[i] == s[0..4][i]; }
      else if 5 <= i < 7 { assert u[i] == u[5..7][i - 5]; assert s[i] == s[5..7][i - 5]; }
      else if 8 <= i < 10 { assert u[i] == u[8..10][i - 8]; assert s[i] == s[8..10][i - 8]; }
      else if 11 <= i < 13 { assert u[i] == u[11..13][i - 11]; assert s[i] == s[11..13][i - 11]; }
      else if 14 <= i < 16 { assert u[i] == u[14..16][i - 14]; assert s[i] == s[14..16][i - 14]; }
      else if 17 <= i < 19 { assert u[i] == u[17..19][i - 17]; assert s[i] == s[17..19][i - 17]; }
    }
  }

  // ---------------------------------------------------------------------
  // Dates as an mbox separator writes them

  lemma NamesDistinct()
    ensures forall i, j :: 0 <= i < j < |MonthNames| ==> MonthNames[i] != MonthNames[j]
    ensures forall i, j :: 0 <= i < j < |WeekdayNames| ==> WeekdayNames[i] != WeekdayNames[j]
  {
  }

  /** The names are in lower case already. */
  lemma NamesLowerCase(name: string)
    requires name in MonthNames || name in WeekdayNames
    ensures LowerCase(name) == name
  {
  }

  /** Each name is read back as its own position. */
  lemma NameIndexOfName(names: seq<string>, k: nat)
    requires names == MonthNames || names == WeekdayNames
    requires k < |names|
    ensures NameIndex(names[k], names) == Some(k)
  {
    NamesDistinct();
    NamesLowerCase(names[k]);
  }

  /** A token whose lower-case form is a name is three letters. */
  lemma NameIsWord(token: string)
    requires LowerCase(token) in MonthNames || LowerCase(token) in WeekdayNames
    ensures |token| == 3 && AllIn(token, Word)
  {
    var name := LowerCase(token);
    assert forall i :: 0 <= i < |name| ==> 'a' <= name[i] <= 'z';
    forall i | 0 <= i < |token|
      ensures InClass(token[i], Word)
    {
      assert Lower(token[i]) == name[i];
    }
  }

  /** The date of a separator line written for `t`, the way `ctime` writes
      it (`Mon Jan  5 09:08:07 2024`, a one-digit day after two spaces),
      with the names in any case. */
  function CtimeDate(t: DateTime, weekday: string, month: string): (d: RawDate)
    requires Valid(t)
    requires LowerCase(weekday) in WeekdayNames && LowerCase(month) == MonthNames[t.month - 1]
    ensures WellShaped(d)
  {
    NameIsWord(weekday);
    NameIsWord(month);
    Pad2Value(t.day);
    Pad2Value(t.hour);
    Pad2Value(t.minute);
    Pad2Value(t.second);
    Pad4Value(t.year);
    RawDate(weekday, " ", month, if t.day < 10 then "  " else " ",
      if t.day < 10 then [DigitChar(t.day)] else Pad2(t.day), " ",
      Pad2(t.hour), Pad2(t.minute), Pad2(t.second), " ", Pad4(t.year))
  }

  /** strptime reads back every valid date from its separator text. */
  lemma ParseCtime(t: DateTime, weekday: string, month: string)
    requires Valid(t)
    requires LowerCase(weekday) in WeekdayNames && LowerCase(month) == MonthNames[t.month - 1]
    ensures ParseDate(CtimeDate(t, weekday, month)) == Success(t)
  {
    CtimeNames(t, weekday, month);
    CtimeFields(t, weekday, month);
  }

  lemma CtimeNames(t: DateTime, weekday: string, month: string)
    requires Valid(t)
    requires LowerCase(weekday) in WeekdayNames && LowerCase(month) == MonthNames[t.month - 1]
    ensures NamesKnown(CtimeDate(t, weekday, month))
    ensures NameIndex(month, MonthNames) == Some(t.month - 1)
  {
    NameIndexOfName(MonthNames, t.month - 1);
    var k :| 0 <= k < |WeekdayNames| && WeekdayNames[k] == LowerCase(weekday);
    NameIndexOfName(WeekdayNames, k);
  }

  lemma CtimeFields(t: DateTime, weekday: string, month: string)
    requires Valid(t)
    requires LowerCase(weekday) in WeekdayNames && LowerCase(month) == MonthNames[t.month - 1]
    requires NameIndex(month, MonthNames) == Some(t.month - 1)
    ensures Fields(CtimeDate(t, weekday, month)) == t
  {
    var d := CtimeDate(t, weekday, month);
    Pad2Value(t.day);
    Pad2Value(t.hour);
    Pad2Value(t.minute);
    Pad2Value(t.second);
    Pad4Value(t.year);
    if t.day < 10 {
      assert d.day[..0] == [];
    }
  }
}
