/** The date-time formatter of the notes backend: one fixed pattern,
    "dd.MM.yyyy HH:mm", used both to render and to read minute-precision
    local date-times, with java.time's default (smart) resolution of the
    parsed fields. */
module DateFormat {
  import opened Wrappers

  /** A local date-time as java.time holds it. */
  datatype LocalDateTime = LocalDateTime(year: int, month: int, day: int, hour: int, minute: int, second: int, nano: int)

  const MinYear := -999_999_999
  const MaxYear := 999_999_999

  /** The proleptic Gregorian leap-year rule. */
  predicate IsLeapYear(y: int) {
    y % 4 == 0 && (y % 100 != 0 || y % 400 == 0)
  }

  function DaysInMonth(year: int, month: int): (n: int)
    requires 1 <= month <= 12
    ensures 28 <= n <= 31
    ensures n == 31 <==> month in {1, 3, 5, 7, 8, 10, 12}
    ensures n == 30 <==> month in {4, 6, 9, 11}
    ensures month == 2 ==> (n == 29 <==> IsLeapYear(year))
  {
    if month == 2 then (if IsLeapYear(year) then 29 else 28)
    else if month in {4, 6, 9, 11} then 30
    else 31
  }

  /** The values a LocalDateTime can take. */
  predicate ValidDateTime(d: LocalDateTime) {
    && MinYear <= d.year <= MaxYear
    && 1 <= d.month <= 12
    && 1 <= d.day <= DaysInMonth(d.year, d.month)
    && 0 <= d.hour < 24
    && 0 <= d.minute < 60
    && 0 <= d.second < 60
    && 0 <= d.nano < 1_000_000_000
  }

  predicate IsDigit(c: char) {
    '0' <= c <= '9'
  }

  predicate AllDigits(s: string) {
    forall i :: 0 <= i < |s| ==> IsDigit(s[i])
  }

  function Digit(n: int): (c: char)
    requires 0 <= n < 10
    ensures IsDigit(c) && c as int - '0' as int == n
  {
    ('0' as int + n) as char
  }

  function DigitValue(c: char): (n: int)
    requires IsDigit(c)
    ensures 0 <= n < 10 && Digit(n) == c
  {
    c as int - '0' as int
  }

  function Pow10(n: nat): (p: nat)
    ensures p >= 1
  {
    if n == 0 then 1 else 10 * Pow10(n - 1)
  }

  /** The last `width` decimal digits of `n`, zero-padded on the left. */
  function PadDigits(n: nat, width: nat): (s: string)
    ensures |s| == width && AllDigits(s)
  {
    if width == 0 then [] else PadDigits(n / 10, width - 1) + [Digit(n % 10)]
  }

  /** The number of decimal digits of `n`. */
  function NumDigits(n: nat): (k: nat)
    ensures 1 <= k && n < Pow10(k)
    ensures k > 1 ==> Pow10(k - 1) <= n
  {
    if n < 10 then 1 else 1 + NumDigits(n / 10)
  }

  /** The number a string of decimal digits denotes. */
  function DigitsValue(s: string): (n: nat)
    requires AllDigits(s)
    ensures n < Pow10(|s|)
  {
    if |s| == 0 then 0 else 10 * DigitsValue(s[..|s| - 1]) + DigitValue(s[|s| - 1])
  }

  /** Reading back a zero-padded number that fits gives the number. */
  lemma {:induction false} DigitsOfPad(n: nat, width: nat)
    requires n < Pow10(width)
    ensures DigitsValue(PadDigits(n, width)) == n
  {
    if width > 0 {
      var s := PadDigits(n, width);
      assert s[..|s| - 1] == PadDigits(n / 10, width - 1);
      DigitsOfPad(n / 10, width - 1);
    }
  }

  /** Padding the value of a digit string to its own length gives it back. */
  lemma {:induction false} PadOfDigits(s: string)
    requires AllDigits(s)
    ensures PadDigits(DigitsValue(s), |s|) == s
  {
    if |s| > 0 {
      var p := s[..|s| - 1];
      var n := DigitsValue(s);
      assert n / 10 == DigitsValue(p) && n % 10 == DigitValue(s[|s| - 1]);
      PadOfDigits(p);
      assert s == p + [s[|s| - 1]];
    }
  }

  /** The year of era that "yyyy" prints: years before 1 count back from 1 BCE. */
  function YearOfEra(year: int): (y: nat)
    ensures y >= 1 && (year >= 1 ==> y == year)
  {
    if year >= 1 then year else 1 - year
  }

  /** "yyyy": the year of era in at least four digits, with a '+' in front
      when it needs more than four. */
  function YearText(year: int): (s: string)
    requires MinYear <= year <= MaxYear
    ensures YearOfEra(year) <= 9999 ==> |s| == 4 && AllDigits(s) && DigitsValue(s) == YearOfEra(year)
    ensures YearOfEra(year) > 9999 ==>
      && |s| == 1 + NumDigits(YearOfEra(year)) && |s| > 5
      && s[0] == '+' && AllDigits(s[1..]) && DigitsValue(s[1..]) == YearOfEra(year)
    ensures YearValue(s) == Some(YearOfEra(year))
  {
    var y := YearOfEra(year);
    if y <= 9999 then
      DigitsOfPad(y, 4);
      PadDigits(y, 4)
    else
      var k := NumDigits(y);
      DigitsOfPad(y, k);
      assert Pow10(4) == 10000;
      assert k > 4 by {
        if k <= 4 { PowMonotone(k, 4); }
      }
      assert k <= 10 by {
        Pow10Ten();
        NumDigitsBound(y, 10);
      }
      var s := "+" + PadDigits(y, k);
      assert s[1..] == PadDigits(y, k);
      s
  }

  lemma {:induction false} PowMonotone(i: nat, j: nat)
    requires i <= j
    ensures Pow10(i) <= Pow10(j)
  {
    if i < j {
      PowMonotone(i, j - 1);
    }
  }

  lemma Pow10Ten()
    ensures Pow10(10) == 10_000_000_000
  {
    assert Pow10(2) == 100;
    assert Pow10(4) == 10_000;
    assert Pow10(6) == 1_000_000;
    assert Pow10(8) == 100_000_000;
  }

  /** A number below 10^k has at most k digits. */
  lemma {:induction false} NumDigitsBound(n: nat, k: nat)
    requires 1 <= k && n < Pow10(k)
    ensures NumDigits(n) <= k
  {
    if n >= 10 {
      assert Pow10(1) == 10;
      NumDigitsBound(n / 10, k - 1);
    }
  }

  /** The year field as java.time's strict parse of "yyyy" reads it: exactly
      four unsigned digits, or a '+' followed by five to nineteen digits. */
  function YearValue(y: string): (r: Option<nat>)
    ensures r.Some? && |y| == 4 ==> AllDigits(y) && r.value == DigitsValue(y)
    ensures r.Some? && |y| != 4 ==> 6 <= |y| <= 20 && y[0] == '+' && AllDigits(y[1..]) && r.value == DigitsValue(y[1..])
    ensures r.None? <==> !(|y| == 4 && AllDigits(y)) && !(6 <= |y| <= 20 && y[0] == '+' && AllDigits(y[1..]))
  {
    if |y| == 4 && AllDigits(y) then Some(DigitsValue(y))
    else if 6 <= |y| <= 20 && y[0] == '+' && AllDigits(y[1..]) then Some(DigitsValue(y[1..]))
    else None
  }

  /** The five fields of a text laid out as the pattern: the year is what lies
      between the second '.' and the ' ' that starts the last six characters. */
  function DayField(s: string): string requires |s| >= 16 { s[0..2] }
  function MonthField(s: string): string requires |s| >= 16 { s[3..5] }
  function YearField(s: string): string requires |s| >= 16 { s[6..|s| - 6] }
  function HourField(s: string): string requires |s| >= 16 { s[|s| - 5..|s| - 3] }
  function MinuteField(s: string): string requires |s| >= 16 { s[|s| - 2..] }

  /** The shape of the pattern "dd.MM.yyyy HH:mm": the four literals in place
      and two-digit day, month, hour and minute fields. */
  predicate Shape(s: string) {
    && |s| >= 16
    && s[2] == '.' && s[5] == '.' && s[|s| - 6] == ' ' && s[|s| - 3] == ':'
    && AllDigits(DayField(s)) && AllDigits(MonthField(s))
    && AllDigits(HourField(s)) && AllDigits(MinuteField(s))
  }

  /** The shape with a four-digit year: sixteen characters. */
  predicate Layout(s: string) {
    && |s| == 16
    && s[2] == '.' && s[5] == '.' && s[10] == ' ' && s[13] == ':'
    && AllDigits(s[0..2]) && AllDigits(s[3..5]) && AllDigits(s[6..10])
    && AllDigits(s[11..13]) && AllDigits(s[14..16])
  }

  /** A text laid out as the pattern, from its five fields. */
  function Text(dd: string, mm: string, yyyy: string, hh: string, mi: string): string {
    dd + "." + mm + "." + yyyy + " " + hh + ":" + mi
  }

  /** The fields of a laid-out text are the fields it was made of. */
  lemma TextFields(dd: string, mm: string, yyyy: string, hh: string, mi: string)
    requires |dd| == 2 && |mm| == 2 && |yyyy| >= 4 && |hh| == 2 && |mi| == 2
    ensures var s := Text(dd, mm, yyyy, hh, mi);
      && |s| == 12 + |yyyy|
      && s[2] == '.' && s[5] == '.' && s[|s| - 6] == ' ' && s[|s| - 3] == ':'
      && DayField(s) == dd && MonthField(s) == mm && YearField(s) == yyyy
      && HourField(s) == hh && MinuteField(s) == mi
  {
    var head, tail := dd + "." + mm + ".", " " + hh + ":" + mi;
    var s := Text(dd, mm, yyyy, hh, mi);
    assert s == head + yyyy + tail;
    assert s[..6] == head && s[6..|s| - 6] == yyyy && s[|s| - 6..] == tail;
    assert s[0..2] == head[0..2] == dd;
    assert s[3..5] == head[3..5] == mm;
    assert s[|s| - 5..|s| - 3] == tail[1..3] == hh;
    assert s[|s| - 2..] == tail[4..] == mi;
  }

  /** A text with the shape is its five fields and the four literals. */
  lemma ShapeSplit(s: string)
    requires Shape(s)
    ensures s == Text(DayField(s), MonthField(s), YearField(s), HourField(s), MinuteField(s))
  {
    var t := Text(DayField(s), MonthField(s), YearField(s), HourField(s), MinuteField(s));
    TextFields(DayField(s), MonthField(s), YearField(s), HourField(s), MinuteField(s));
    assert forall i :: 0 <= i < |s| ==> s[i] == t[i] by {
      forall i | 0 <= i < |s|
        ensures s[i] == t[i]
      {
        if i < 2 { assert s[i] == DayField(s)[i] && t[i] == DayField(t)[i]; }
        else if 2 < i < 5 { assert s[i] == MonthField(s)[i - 3] && t[i] == MonthField(t)[i - 3]; }
        else if 5 < i < |s| - 6 { assert s[i] == YearField(s)[i - 6] && t[i] == YearField(t)[i - 6]; }
        else if |s| - 6 < i < |s| - 3 { assert s[i] == HourField(s)[i - |s| + 5] && t[i] == HourField(t)[i - |s| + 5]; }
        else if |s| - 3 < i { assert s[i] == MinuteField(s)[i - |s| + 2] && t[i] == MinuteField(t)[i - |s| + 2]; }
      }
    }
  }

  /** format: day, month, year, hour and minute, each zero-padded, in the
      order of the pattern; seconds and nanoseconds are not shown. */
  function Format(d: LocalDateTime): (s: string)
    requires ValidDateTime(d)
    ensures Shape(s) && YearField(s) == YearText(d.year)
    ensures DigitsValue(DayField(s)) == d.day && DigitsValue(MonthField(s)) == d.month
    ensures DigitsValue(HourField(s)) == d.hour && DigitsValue(MinuteField(s)) == d.minute
    ensures 1 <= d.year <= 9999 ==> Layout(s) && DigitsValue(s[6..10]) == d.year
  {
    var dd, mm, yyyy, hh, mi := PadDigits(d.day, 2), PadDigits(d.month, 2), YearText(d.year), PadDigits(d.hour, 2), PadDigits(d.minute, 2);
    assert Pow10(2) == 100;
    DigitsOfPad(d.day, 2);
    DigitsOfPad(d.month, 2);
    DigitsOfPad(d.hour, 2);
    DigitsOfPad(d.minute, 2);
    TextFields(dd, mm, yyyy, hh, mi);
    Text(dd, mm, yyyy, hh, mi)
  }

  /** java.time's smart resolution of a day of month that the month does not
      have (29 to 31): the last day of that month. */
  function ClampDay(year: int, month: int, day: int): (r: int)
    requires 1 <= month <= 12 && 1 <= day <= 31
    ensures 1 <= r <= DaysInMonth(year, month)
    ensures r == day <==> day <= DaysInMonth(year, month)
    ensures r != day ==> r == DaysInMonth(year, month)
  {
    if day <= DaysInMonth(year, month) then day else DaysInMonth(year, month)
  }

  /** The last day a LocalDateTime can hold. */
  predicate IsLastDay(d: LocalDateTime) {
    d.year == MaxYear && d.month == 12 && d.day == 31
  }

  /** The calendar day after `d`, at the same time. */
  function NextDay(d: LocalDateTime): (r: LocalDateTime)
    requires ValidDateTime(d) && !IsLastDay(d)
    ensures ValidDateTime(r)
    ensures r.hour == d.hour && r.minute == d.minute && r.second == d.second && r.nano == d.nano
    ensures d.day < DaysInMonth(d.year, d.month) ==> r == d.(day := d.day + 1)
    ensures d.day == DaysInMonth(d.year, d.month) && d.month < 12 ==> r == d.(month := d.month + 1, day := 1)
    ensures d.day == DaysInMonth(d.year, d.month) && d.month == 12 ==> r == d.(year := d.year + 1, month := 1, day := 1)
  {
    if d.day < DaysInMonth(d.year, d.month) then d.(day := d.day + 1)
    else if d.month < 12 then d.(month := d.month + 1, day := 1)
    else d.(year := d.year + 1, month := 1, day := 1)
  }

  /** parse: the text must have the shape of the pattern and a year field
      "yyyy" accepts, with day 1-31, month 1-12, year 1-999999999, minute 0-59
      and hour 0-23; hour 24 is taken when the minute is 0, as midnight at the
      end of the day, unless that day is the last a LocalDateTime can hold. A
      day the month lacks resolves to the month's last day. Seconds and
      nanoseconds are zero. Anything else is a parse error (None). */
  function Parse(s: string): (r: Option<LocalDateTime>)
    ensures r.Some? ==> Shape(s) && YearValue(YearField(s)).Some?
    ensures r.Some? ==> ValidDateTime(r.value) && r.value.second == 0 && r.value.nano == 0
    ensures r.Some? ==> 1 <= r.value.year
  {
    if !Shape(s) then None
    else match YearValue(YearField(s))
      case None => None
      case Some(year) =>
        var day, month := DigitsValue(DayField(s)), DigitsValue(MonthField(s));
        var hour, minute := DigitsValue(HourField(s)), DigitsValue(MinuteField(s));
        if !(1 <= day <= 31 && 1 <= month <= 12 && 1 <= year <= MaxYear && minute < 60) then None
        else
          var date := LocalDateTime(year, month, ClampDay(year, month, day), 0, 0, 0, 0);
          if hour < 24 then Some(date.(hour := hour, minute := minute))
          else if hour == 24 && minute == 0 && !IsLastDay(date) then Some(NextDay(date))
          else None
  }

  /** What parse accepts, field by field: exactly the shape and a readable
      year field, with every field in range. */
  lemma ParseAccepts(s: string)
    ensures Parse(s).Some? <==>
      && Shape(s) && YearValue(YearField(s)).Some?
      && var day, month, year := DigitsValue(DayField(s)), DigitsValue(MonthField(s)), YearValue(YearField(s)).value;
      && var hour, minute := DigitsValue(HourField(s)), DigitsValue(MinuteField(s));
      && 1 <= day <= 31 && 1 <= month <= 12 && 1 <= year <= MaxYear && minute < 60
      && (hour < 24 || (hour == 24 && minute == 0 && !(year == MaxYear && month == 12 && day == 31)))
  {
  }

  /** Round trip: parsing what format printed gives the date-time back, for
      every year from 1 on and zero seconds and nanoseconds. */
  lemma ParseOfFormat(d: LocalDateTime)
    requires ValidDateTime(d) && 1 <= d.year
    requires d.second == 0 && d.nano == 0
    ensures Parse(Format(d)) == Some(d)
  {
  }

  /** The other round trip: formatting what parse read gives the text back,
      except where resolution changed a field (a clamped day, hour 24) or the
      year field has leading zeros beyond four digits. */
  lemma FormatOfParse(s: string)
    requires Parse(s).Some?
    requires DigitsValue(HourField(s)) < 24
    requires DigitsValue(DayField(s)) <= DaysInMonth(Parse(s).value.year, DigitsValue(MonthField(s)))
    requires |YearField(s)| == 4 || |YearField(s)| == 1 + NumDigits(Parse(s).value.year)
    ensures Format(Parse(s).value) == s
  {
    var d := Parse(s).value;
    ParseFields(s);
    YearTextOfField(YearField(s));
    PadOfDigits(DayField(s));
    PadOfDigits(MonthField(s));
    PadOfDigits(HourField(s));
    PadOfDigits(MinuteField(s));
    FormatFields(d);
    ShapeSplit(s);
  }

  /** The value parse gives a text whose hour is below 24: its fields, with
      the day resolved. */
  lemma ParseFields(s: string)
    requires Parse(s).Some? && DigitsValue(HourField(s)) < 24
    ensures var year, month := YearValue(YearField(s)).value, DigitsValue(MonthField(s));
      Parse(s).value == LocalDateTime(year, month, ClampDay(year, month, DigitsValue(DayField(s))),
                                      DigitsValue(HourField(s)), DigitsValue(MinuteField(s)), 0, 0)
  {
  }

  /** A year field without surplus leading zeros is what format prints for
      its value. */
  lemma YearTextOfField(y: string)
    requires YearValue(y).Some? && 1 <= YearValue(y).value <= MaxYear
    requires |y| == 4 || |y| == 1 + NumDigits(YearValue(y).value)
    ensures YearText(YearValue(y).value) == y
  {
    var v := YearValue(y).value;
    assert Pow10(4) == 10000;
    if |y| == 4 {
      PadOfDigits(y);
    } else {
      PadOfDigits(y[1..]);
      PowMonotone(4, |y| - 2);
      assert y == "+" + y[1..];
    }
  }

  /** Format drops the era: a year before 1 prints as its year of era, the
      same text as the positive year it mirrors. */
  lemma FormatDropsEra(d: LocalDateTime)
    requires ValidDateTime(d) && d.year <= 0 && ValidDateTime(d.(year := 1 - d.year))
    ensures Format(d) == Format(d.(year := 1 - d.year))
  {
  }

  /** A year of era beyond 9999 prints as a '+' and its digits, which makes
      the text longer than sixteen characters. */
  lemma WideYearFormat(d: LocalDateTime)
    requires ValidDateTime(d) && d.year > 9999
    ensures Format(d)[6] == '+' && |Format(d)| == 13 + NumDigits(d.year) > 16
  {
    assert Format(d)[6] == YearField(Format(d))[0];
  }

  /** A five-digit year prints with a '+' and is read back. */
  lemma WideYearExample()
    ensures Parse("01.01.+10000 00:00") == Some(LocalDateTime(10000, 1, 1, 0, 0, 0, 0))
    ensures Format(LocalDateTime(10000, 1, 1, 0, 0, 0, 0)) == "01.01.+10000 00:00"
  {
    var s := "01.01.+10000 00:00";
    ShapeOfChars(s);
    ShapeValues(s);
    assert YearField(s) == "+10000";
    FiveDigits(YearField(s)[1..]);
    NumDigitsFive();
    FormatOfParse(s);
  }

  lemma NumDigitsFive()
    ensures NumDigits(10000) == 5
  {
    assert NumDigits(10) == 2 && NumDigits(100) == 3 && NumDigits(1000) == 4;
  }

  /** Format is the five padded fields and the four literals. */
  lemma FormatFields(d: LocalDateTime)
    requires ValidDateTime(d)
    ensures Format(d) == Text(PadDigits(d.day, 2), PadDigits(d.month, 2), YearText(d.year), PadDigits(d.hour, 2), PadDigits(d.minute, 2))
  {
  }

  /** More than four digits need the '+', and the '+' needs more than four
      digits. */
  lemma YearSignExamples()
    ensures Parse("01.01.10000 00:00") == None
    ensures Parse("01.01.+9999 00:00") == None
  {
    var a, b := "01.01.10000 00:00", "01.01.+9999 00:00";
    assert YearField(a) == "10000" && YearField(a)[0] != '+';
    assert |YearField(b)| == 5;
  }

  /** parse does not trim: a character that is not a digit in front of or
      behind an otherwise valid text makes it unparsable. */
  lemma NoTrimming(s: string, c: char)
    requires !IsDigit(c)
    ensures Parse([c] + s) == None
    ensures Parse(s + [c]) == None
  {
    var x, y := [c] + s, s + [c];
    if |x| >= 16 {
      assert DayField(x)[0] == c;
    }
    if |y| >= 16 {
      assert MinuteField(y)[1] == c;
    }
  }

  /** The formatter's example: 2025-11-11 22:00 and "11.11.2025 22:00". */
  lemma FormatExample()
    ensures Parse("11.11.2025 22:00") == Some(LocalDateTime(2025, 11, 11, 22, 0, 0, 0))
    ensures Format(LocalDateTime(2025, 11, 11, 22, 0, 0, 0)) == "11.11.2025 22:00"
  {
    LayoutOfChars("11.11.2025 22:00");
    LayoutValues("11.11.2025 22:00");
    FormatOfParse("11.11.2025 22:00");
  }

  lemma EpochExample()
    ensures Parse("01.01.1970 00:00") == Some(LocalDateTime(1970, 1, 1, 0, 0, 0, 0))
  {
    LayoutOfChars("01.01.1970 00:00");
    LayoutValues("01.01.1970 00:00");
  }

  /** Rejected texts: the ISO layout, out-of-range fields, and whitespace
      around a valid text. */
  lemma RejectionExamples()
    ensures Parse("2025-11-11T22:00") == None
    ensures Parse("32.13.2025 99:99") == None
    ensures Parse(" 11.11.2025 22:00 \t") == None
  {
    assert "2025-11-11T22:00"[2] != '.';
    LayoutOfChars("32.13.2025 99:99");
    LayoutValues("32.13.2025 99:99");
  }

  /** Smart resolution: the 31st of February is the last day of February. */
  lemma ClampExample()
    ensures Parse("31.02.2025 10:00") == Some(LocalDateTime(2025, 2, 28, 10, 0, 0, 0))
  {
    LayoutOfChars("31.02.2025 10:00");
    LayoutValues("31.02.2025 10:00");
  }

  /** In a leap year the 29th of February stays as it is. */
  lemma LeapDayExample()
    ensures Parse("29.02.2024 10:00") == Some(LocalDateTime(2024, 2, 29, 10, 0, 0, 0))
  {
    LayoutOfChars("29.02.2024 10:00");
    LayoutValues("29.02.2024 10:00");
  }

  /** Smart resolution: 24:00 is midnight at the start of the next day. */
  lemma EndOfDayExample()
    ensures Parse("31.12.2025 24:00") == Some(LocalDateTime(2026, 1, 1, 0, 0, 0, 0))
  {
    LayoutOfChars("31.12.2025 24:00");
    LayoutValues("31.12.2025 24:00");
  }

  /** The values of the five digit fields of a text with the layout, read
      off its characters. */
  lemma LayoutValues(s: string)
    requires Layout(s)
    ensures DigitsValue(s[0..2]) == 10 * DigitValue(s[0]) + DigitValue(s[1])
    ensures DigitsValue(s[3..5]) == 10 * DigitValue(s[3]) + DigitValue(s[4])
    ensures DigitsValue(s[6..10]) == 1000 * DigitValue(s[6]) + 100 * DigitValue(s[7]) + 10 * DigitValue(s[8]) + DigitValue(s[9])
    ensures DigitsValue(s[11..13]) == 10 * DigitValue(s[11]) + DigitValue(s[12])
    ensures DigitsValue(s[14..16]) == 10 * DigitValue(s[14]) + DigitValue(s[15])
  {
    TwoDigits(s[0..2]);
    TwoDigits(s[3..5]);
    TwoDigits(s[11..13]);
    TwoDigits(s[14..16]);
    FourDigits(s[6..10]);
  }

  lemma FourDigits(s: string)
    requires |s| == 4 && AllDigits(s)
    ensures DigitsValue(s) == 1000 * DigitValue(s[0]) + 100 * DigitValue(s[1]) + 10 * DigitValue(s[2]) + DigitValue(s[3])
  {
    assert DigitsValue(s) == 10 * DigitsValue(s[..3]) + DigitValue(s[3]);
    assert s[..3][..2] == s[..2];
    assert DigitsValue(s[..3]) == 10 * DigitsValue(s[..2]) + DigitValue(s[2]);
    TwoDigits(s[..2]);
  }

  /** The layout, character by character. */
  lemma LayoutOfChars(s: string)
    requires |s| == 16 && s[2] == '.' && s[5] == '.' && s[10] == ' ' && s[13] == ':'
    requires IsDigit(s[0]) && IsDigit(s[1]) && IsDigit(s[3]) && IsDigit(s[4])
    requires IsDigit(s[6]) && IsDigit(s[7]) && IsDigit(s[8]) && IsDigit(s[9])
    requires IsDigit(s[11]) && IsDigit(s[12]) && IsDigit(s[14]) && IsDigit(s[15])
    ensures Layout(s)
  {
  }

  lemma TwoDigits(s: string)
    requires |s| == 2 && AllDigits(s)
    ensures DigitsValue(s) == 10 * DigitValue(s[0]) + DigitValue(s[1])
  {
    assert s[..1][..0] == [];
  }

  lemma FiveDigits(s: string)
    requires |s| == 5 && AllDigits(s)
    ensures DigitsValue(s) == 10000 * DigitValue(s[0]) + 1000 * DigitValue(s[1]) + 100 * DigitValue(s[2]) + 10 * DigitValue(s[3]) + DigitValue(s[4])
  {
    assert DigitsValue(s) == 10 * DigitsValue(s[..4]) + DigitValue(s[4]);
    FourDigits(s[..4]);
  }

  /** The shape, character by character. */
  lemma ShapeOfChars(s: string)
    requires |s| >= 16 && s[2] == '.' && s[5] == '.' && s[|s| - 6] == ' ' && s[|s| - 3] == ':'
    requires IsDigit(s[0]) && IsDigit(s[1]) && IsDigit(s[3]) && IsDigit(s[4])
    requires IsDigit(s[|s| - 5]) && IsDigit(s[|s| - 4]) && IsDigit(s[|s| - 2]) && IsDigit(s[|s| - 1])
    ensures Shape(s)
  {
  }

  /** The values of the two-digit fields of a text with the shape. */
  lemma ShapeValues(s: string)
    requires Shape(s)
    ensures DigitsValue(DayField(s)) == 10 * DigitValue(s[0]) + DigitValue(s[1])
    ensures DigitsValue(MonthField(s)) == 10 * DigitValue(s[3]) + DigitValue(s[4])
    ensures DigitsValue(HourField(s)) == 10 * DigitValue(s[|s| - 5]) + DigitValue(s[|s| - 4])
    ensures DigitsValue(MinuteField(s)) == 10 * DigitValue(s[|s| - 2]) + DigitValue(s[|s| - 1])
  {
    TwoDigits(DayField(s));
    TwoDigits(MonthField(s));
    TwoDigits(HourField(s));
    TwoDigits(MinuteField(s));
  }
}
