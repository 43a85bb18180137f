/** The fixed-width hour text `2006-01-02T15` that starts every aggregate key: its
    format, what `time.Parse` accepts for it, and why its byte order is time order. */
module HourKey {
  import opened Wrappers
  import opened Calendar
  import opened ByteOrder

  // ---------------------------------------------------------------------------
  // Decimal digits

  function Digit(d: nat): char
    requires d < 10
  {
    '0' + d as char
  }

  predicate IsDigit(c: char) { '0' <= c <= '9' }

  function DigitValue(c: char): nat
    requires IsDigit(c)
  {
    c as int - '0' as int
  }

  /** The last `w` decimal digits of `n`. */
  function Digits(n: nat, w: nat): (s: string)
    ensures |s| == w
    ensures forall i :: 0 <= i < w ==> IsDigit(s[i])
  {
    if w == 0 then [] else Digits(n / 10, w - 1) + [Digit(n % 10)]
  }

  predicate AllDigits(s: string) { forall i :: 0 <= i < |s| ==> IsDigit(s[i]) }

  function Number(s: string): nat
    requires AllDigits(s)
  {
    if s == [] then 0 else 10 * Number(s[..|s| - 1]) + DigitValue(s[|s| - 1])
  }

  function Pow10(w: nat): nat { if w == 0 then 1 else 10 * Pow10(w - 1) }

  lemma {:induction false} NumberOfDigits(n: nat, w: nat)
    requires n < Pow10(w)
    ensures Number(Digits(n, w)) == n
    decreases w
  {
    if w > 0 {
      NumberOfDigits(n / 10, w - 1);
      assert Digits(n, w)[..w - 1] == Digits(n / 10, w - 1);
    }
  }

  lemma {:induction false} DigitsOfNumber(s: string)
    requires AllDigits(s)
    ensures Digits(Number(s), |s|) == s && Number(s) < Pow10(|s|)
    decreases |s|
  {
    if s != [] {
      DigitsOfNumber(s[..|s| - 1]);
      assert s == s[..|s| - 1] + [s[|s| - 1]];
    }
  }

  /** Fixed width makes byte order numeric order. */
  lemma {:induction false} DigitsLess(a: nat, b: nat, w: nat)
    requires a < b < Pow10(w)
    ensures Less(Digits(a, w), Digits(b, w))
    decreases w
  {
    var x, y := [Digit(a % 10)], [Digit(b % 10)];
    LessByHead(Digits(a / 10, w - 1), Digits(b / 10, w - 1), x, y);
    if a / 10 < b / 10 {
      DigitsLess(a / 10, b / 10, w - 1);
    } else {
      assert Less(x, y);
    }
  }

  // ---------------------------------------------------------------------------
  // Hours

  /** The parts of an hour, counted from the zero time. */
  function MonthIndex(h: nat): nat { MonthOf(h / 24) }

  function YearOf(h: nat): nat { MonthIndex(h) / 12 + 1 }

  function MonthNumber(h: nat): nat { MonthIndex(h) % 12 + 1 }

  function DayNumber(h: nat): nat { DayOfMonth(h / 24) }

  /** Hours that format with a four-digit year. */
  predicate FourDigitYear(h: nat) { YearOf(h) <= 9999 }

  function DatePart(h: nat): (s: string)
    ensures |s| == 11
  {
    Digits(YearOf(h), 4) + "-" + Digits(MonthNumber(h), 2) + "-" + Digits(DayNumber(h), 2) + "T"
  }

  /** `Format("2006-01-02T15")`. */
  function FormatHour(h: nat): (s: string)
    ensures |s| == 13
  {
    DatePart(h) + Digits(h % 24, 2)
  }

  /** Digits and separators where the layout has them; the hour may have one digit. */
  predicate HourShape(s: string) {
    && (|s| == 12 || |s| == 13)
    && AllDigits(s[0..4]) && s[4] == '-' && AllDigits(s[5..7]) && s[7] == '-' && AllDigits(s[8..10])
    && s[10] == 'T' && AllDigits(s[11..])
  }

  /** The hour with these fields, if they are in range and the day exists. */
  function HourOfFields(y: nat, mo: nat, d: nat, hr: nat): Option<nat> {
    if 1 <= y && 1 <= mo <= 12 && 1 <= d <= MonthLength(12 * (y - 1) + mo - 1) && hr <= 23 then
      Some(24 * (MonthStart(12 * (y - 1) + mo - 1) + d - 1) + hr)
    else None
  }

  /** `ParseInLocation("2006-01-02T15", s, UTC)` for the years 1 to 9999. */
  function ParseHour(s: string): Option<nat> {
    if HourShape(s) then HourOfFields(Number(s[0..4]), Number(s[5..7]), Number(s[8..10]), Number(s[11..])) else None
  }

  lemma PowersOfTen()
    ensures Pow10(2) == 100 && Pow10(4) == 10000
  {
    assert Pow10(1) == 10;
    assert Pow10(3) == 1000;
  }

  lemma HourParts(h: nat)
    ensures 1 <= MonthNumber(h) <= 12 && 1 <= DayNumber(h) <= 31 && h % 24 <= 23
    ensures 12 * (YearOf(h) - 1) + MonthNumber(h) - 1 == MonthIndex(h)
    ensures DayNumber(h) <= MonthLength(MonthIndex(h))
    ensures 24 * (MonthStart(MonthIndex(h)) + DayNumber(h) - 1) + h % 24 == h
  {
  }

  lemma FormatFields(h: nat)
    ensures var s := FormatHour(h);
            && s[0..4] == Digits(YearOf(h), 4) && s[4] == '-' && s[5..7] == Digits(MonthNumber(h), 2) && s[7] == '-'
            && s[8..10] == Digits(DayNumber(h), 2) && s[10] == 'T' && s[11..] == Digits(h % 24, 2)
  {
  }

  lemma FourDigits(h: nat)
    requires FourDigitYear(h)
    ensures 1 <= YearOf(h) <= 9999
  {
  }

  /** Formatting an hour and parsing it back is the identity. */
  lemma ParseFormat(h: nat)
    requires FourDigitYear(h)
    ensures ParseHour(FormatHour(h)) == Some(h)
  {
    hide MonthStart, MonthLength, Digits, FormatHour, YearOf, MonthNumber, DayNumber, MonthIndex;
    PowersOfTen();
    HourParts(h);
    FormatFields(h);
    FourDigits(h);
    NumberOfDigits(YearOf(h), 4);
    NumberOfDigits(MonthNumber(h), 2);
    NumberOfDigits(DayNumber(h), 2);
    NumberOfDigits(h % 24, 2);
    assert HourShape(FormatHour(h));
  }

  lemma SplitDay(day: nat, hr: nat)
    requires hr < 24
    ensures (24 * day + hr) / 24 == day && (24 * day + hr) % 24 == hr
  {
  }

  lemma HourOfParts(month: nat, d: nat, hr: nat)
    requires 1 <= d <= MonthLength(month) && hr < 24
    ensures var h := 24 * (MonthStart(month) + d - 1) + hr;
            MonthIndex(h) == month && DayNumber(h) == d && h % 24 == hr
  {
    hide MonthStart, MonthLength, MonthOf, DayOfMonth;
    var day := MonthStart(month) + d - 1;
    SplitDay(day, hr);
    DayOfParts(month, d);
  }

  lemma NextMonthStart(month: nat)
    ensures MonthStart(month + 1) == MonthStart(month) + MonthLength(month)
  {
  }

  lemma DayOfParts(month: nat, d: nat)
    requires 1 <= d <= MonthLength(month)
    ensures MonthOf(MonthStart(month) + d - 1) == month && DayOfMonth(MonthStart(month) + d - 1) == d
  {
    hide MonthStart, MonthLength, MonthOf;
    NextMonthStart(month);
    MonthOfUnique(MonthStart(month) + d - 1, month);
  }

  lemma FieldsOfHour(y: nat, mo: nat, d: nat, hr: nat)
    requires HourOfFields(y, mo, d, hr).Some?
    ensures var h := HourOfFields(y, mo, d, hr).value;
            YearOf(h) == y && MonthNumber(h) == mo && DayNumber(h) == d && h % 24 == hr
  {
    hide MonthStart, MonthLength, MonthIndex, DayNumber;
    HourOfParts(12 * (y - 1) + mo - 1, d, hr);
  }

  lemma DateText(s: string)
    requires |s| >= 11 && s[4] == '-' && s[7] == '-' && s[10] == 'T'
    ensures s[..11] == s[0..4] + "-" + s[5..7] + "-" + s[8..10] + "T"
    ensures s == s[..11] + s[11..]
  {
  }

  /** A parsed text has the date part of its hour, and is the formatted hour itself
      when its hour has two digits. */
  lemma FormatParse(s: string)
    requires ParseHour(s).Some?
    ensures var h := ParseHour(s).value;
            && FourDigitYear(h) && s[..11] == DatePart(h) && AllDigits(s[11..]) && Number(s[11..]) == h % 24
            && (|s| == 13 ==> s == FormatHour(h))
  {
    PowersOfTen();
    FieldsOfHour(Number(s[0..4]), Number(s[5..7]), Number(s[8..10]), Number(s[11..]));
    DigitsOfNumber(s[0..4]);
    DigitsOfNumber(s[5..7]);
    DigitsOfNumber(s[8..10]);
    DigitsOfNumber(s[11..]);
    DateText(s);
  }

  // ---------------------------------------------------------------------------
  // Byte order is time order

  /** How two hours first differ, from the year down. */
  lemma HoursDiffer(a: nat, b: nat)
    requires a < b
    ensures YearOf(a) < YearOf(b)
         || (YearOf(a) == YearOf(b) && MonthNumber(a) < MonthNumber(b))
         || (MonthIndex(a) == MonthIndex(b) && DayNumber(a) < DayNumber(b))
         || (a / 24 == b / 24 && a % 24 < b % 24)
  {
    hide MonthOf, DayOfMonth;
    if a / 24 < b / 24 {
      DaysDiffer(a / 24, b / 24);
    }
  }

  lemma DaysDiffer(a: nat, b: nat)
    requires a < b
    ensures MonthOf(a) < MonthOf(b) || (MonthOf(a) == MonthOf(b) && DayOfMonth(a) < DayOfMonth(b))
  {
    hide MonthStart, MonthLength;
    if MonthOf(b) < MonthOf(a) {
      MonthStartIncreases(MonthOf(b) + 1, MonthOf(a));
    }
  }

  lemma FieldLess(a: string, b: string, x: string, y: string)
    requires |a| == |b| && (Less(a, b) || (a == b && Less(x, y)))
    ensures Less(a + ("-" + x), b + ("-" + y))
  {
    LessByHead(a, b, "-" + x, "-" + y);
    LessByHead("-", "-", x, y);
  }

  lemma JoinFields(y: string, m: string, d: string)
    ensures y + "-" + m + "-" + d + "T" == y + ("-" + (m + ("-" + (d + "T"))))
  {
  }

  lemma MonthLess(ma: string, mb: string, da: string, db: string)
    requires |ma| == |mb| && |da| == |db| && (Less(ma, mb) || (ma == mb && Less(da, db)))
    ensures Less(ma + ("-" + (da + "T")), mb + ("-" + (db + "T")))
  {
    LessByHead(da, db, "T", "T");
    FieldLess(ma, mb, da + "T", db + "T");
  }

  lemma DateLess(a: nat, b: nat)
    requires FourDigitYear(a) && FourDigitYear(b)
    requires YearOf(a) < YearOf(b)
          || (YearOf(a) == YearOf(b) && MonthNumber(a) < MonthNumber(b))
          || (MonthIndex(a) == MonthIndex(b) && DayNumber(a) < DayNumber(b))
    ensures Less(DatePart(a), DatePart(b))
  {
    hide Digits, MonthIndex, DayNumber, Less;
    PowersOfTen();
    HourParts(a);
    HourParts(b);
    if YearOf(a) < YearOf(b) {
      DigitsLess(YearOf(a), YearOf(b), 4);
    } else if MonthNumber(a) < MonthNumber(b) {
      DigitsLess(MonthNumber(a), MonthNumber(b), 2);
    } else {
      DigitsLess(DayNumber(a), DayNumber(b), 2);
    }
    var ma, mb, da, db := Digits(MonthNumber(a), 2), Digits(MonthNumber(b), 2), Digits(DayNumber(a), 2),
        Digits(DayNumber(b), 2);
    JoinFields(Digits(YearOf(a), 4), ma, da);
    JoinFields(Digits(YearOf(b), 4), mb, db);
    if YearOf(a) == YearOf(b) {
      MonthLess(ma, mb, da, db);
    }
    FieldLess(Digits(YearOf(a), 4), Digits(YearOf(b), 4), ma + ("-" + (da + "T")), mb + ("-" + (db + "T")));
  }

  lemma HourLess(a: nat, b: nat)
    requires a < b && FourDigitYear(a) && FourDigitYear(b)
    ensures Less(FormatHour(a), FormatHour(b))
  {
    PowersOfTen();
    HoursDiffer(a, b);
    LessByHead(DatePart(a), DatePart(b), Digits(a % 24, 2), Digits(b % 24, 2));
    if a / 24 == b / 24 {
      DigitsLess(a % 24, b % 24, 2);
    } else {
      DateLess(a, b);
    }
  }

  /** With four-digit years the hour texts sort exactly as the hours do. */
  lemma HourOrder(a: nat, b: nat)
    requires FourDigitYear(a) && FourDigitYear(b)
    ensures Less(FormatHour(a), FormatHour(b)) <==> a < b
    ensures FormatHour(a) == FormatHour(b) <==> a == b
  {
    if a < b {
      HourLess(a, b);
      LessIrreflexive(FormatHour(a));
    } else if b < a {
      HourLess(b, a);
      LessAsymmetric(FormatHour(b), FormatHour(a));
      LessIrreflexive(FormatHour(a));
    } else {
      LessIrreflexive(FormatHour(a));
    }
  }

  lemma YearMonotone(a: nat, b: nat)
    requires a <= b
    ensures YearOf(a) <= YearOf(b)
  {
    if a < b {
      HoursDiffer(a, b);
    }
  }

  /** Seven o'clock on the last day of February 2024. */
  lemma LeapDayFormats()
    ensures FormatHour((738_885 + 31 + 28) * 24 + 7) == "2024-02-29T07"
  {
    hide MonthOf, MonthStart, Digits;
    var day, month := 738_885 + 31 + 28, 12 * 2023 + 1;
    LeapDayMonth();
    MonthOfUnique(day, month);
    LeapDayDigits();
  }

  lemma LeapDayMonth()
    ensures MonthStart(12 * 2023 + 1) == 738_885 + 31 && MonthStart(12 * 2023 + 2) == 738_885 + 31 + 29
  {
    hide MonthLength, MonthStart, LeapYears;
    YearStart(2023);
    assert LeapYears(2023) == 490 by { LeapYearsUntil(2023); }
    MonthDays(2023, 0);
    MonthDays(2023, 1);
    NextMonthStart(12 * 2023);
    NextMonthStart(12 * 2023 + 1);
  }

  lemma LeapYearsUntil(y: nat)
    ensures LeapYears(y) == y / 4 - y / 100 + y / 400
  {
  }

  lemma LeapDayDigits()
    ensures Digits(2024, 4) == "2024" && Digits(2, 2) == "02" && Digits(29, 2) == "29" && Digits(7, 2) == "07"
  {
    TwoDigits(20, 24);
    TwoDigits(0, 2);
    TwoDigits(0, 29);
    TwoDigits(0, 7);
  }

  lemma TwoDigits(hundreds: nat, rest: nat)
    requires rest < 100
    ensures Digits(100 * hundreds + rest, 4) == Digits(hundreds, 2) + [Digit(rest / 10), Digit(rest % 10)]
    ensures Digits(rest, 2) == [Digit(rest / 10), Digit(rest % 10)]
  {
    var n := 100 * hundreds + rest;
    assert n / 10 == 10 * hundreds + rest / 10 && n % 10 == rest % 10 && n / 10 / 10 == hundreds;
    assert n / 10 % 10 == rest / 10;
    assert Digits(n, 4) == Digits(n / 10, 3) + [Digit(n % 10)];
    assert Digits(n / 10, 3) == Digits(hundreds, 2) + [Digit(n / 10 % 10)];
  }
}
