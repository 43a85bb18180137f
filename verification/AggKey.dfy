/** The composite key `hour|endpoint_type|client|model` of an hourly aggregate cell,
    and which keys a range scan over whole hours visits. */
module AggKey {
  import opened Wrappers
  import Clock
  import opened Text
  import opened ByteOrder
  import opened HourKey

  /** The dimensions of a cell; `hour` counts from the zero time. */
  datatype Cell = Cell(hour: nat, endpointType: string, client: string, model: string)

  predicate NoBar(s: string) { '|' !in s }

  function OrUnknown(s: string): string { if s == "" then "unknown" else s }

  /** The cell an event is counted in. */
  function CellOf(t: nat, endpointType: string, client: string, model: string): Cell {
    Cell(Clock.HourOf(t), NormalName(endpointType), OrUnknown(Trim(client)), OrUnknown(NormalName(model)))
  }

  function Encode(c: Cell): string {
    FormatHour(c.hour) + "|" + c.endpointType + "|" + c.client + "|" + c.model
  }

  /** `aggKey`. */
  function AggKeyOf(t: nat, endpointType: string, client: string, model: string): string {
    Encode(CellOf(t, endpointType, client, model))
  }

  /** Text before the first bar, and after it; None without a bar. */
  function Cut(s: string): Option<(string, string)> {
    if s == "" then None
    else if s[0] == '|' then Some(("", s[1..]))
    else
      match Cut(s[1..])
      case Some((head, tail)) => Some(([s[0]] + head, tail))
      case None => None
  }

  /** `parseAggKey`: split at the first three bars; the model keeps any further ones. */
  function ParseKey(key: string): Option<Cell> {
    match Cut(key)
    case None => None
    case Some((hourText, rest)) =>
      match Cut(rest)
      case None => None
      case Some((endpointType, rest2)) =>
        match Cut(rest2)
        case None => None
        case Some((client, model)) =>
          match ParseHour(hourText)
          case None => None
          case Some(hour) => Some(Cell(hour, endpointType, client, model))
  }

  lemma {:induction false} CutAtFirstBar(head: string, tail: string)
    requires NoBar(head)
    ensures Cut(head + "|" + tail) == Some((head, tail))
  {
    var s := head + "|" + tail;
    if head == "" {
      assert s == "|" + tail && s[1..] == tail;
    } else {
      CutAtFirstBar(head[1..], tail);
      assert s[1..] == head[1..] + "|" + tail;
      assert head == [head[0]] + head[1..];
    }
  }

  lemma {:induction false} CutSplits(s: string)
    requires Cut(s).Some?
    ensures var (head, tail) := Cut(s).value; NoBar(head) && s == head + "|" + tail
  {
    if s[0] != '|' {
      CutSplits(s[1..]);
    }
  }

  lemma {:induction false} DigitsNoBar(s: string)
    requires AllDigits(s)
    ensures NoBar(s)
  {
  }

  lemma FormatHourNoBar(h: nat)
    ensures NoBar(FormatHour(h))
  {
    DigitsNoBar(Digits(YearOf(h), 4));
    DigitsNoBar(Digits(MonthNumber(h), 2));
    DigitsNoBar(Digits(DayNumber(h), 2));
    DigitsNoBar(Digits(h % 24, 2));
  }

  lemma ParseEncode(c: Cell)
    requires FourDigitYear(c.hour) && NoBar(c.endpointType) && NoBar(c.client)
    ensures ParseKey(Encode(c)) == Some(c)
  {
    hide FormatHour, ParseHour, FourDigitYear;
    FormatHourNoBar(c.hour);
    ParseFormat(c.hour);
    var rest2 := c.client + "|" + c.model;
    var rest := c.endpointType + "|" + rest2;
    assert Encode(c) == FormatHour(c.hour) + "|" + rest;
    CutAtFirstBar(FormatHour(c.hour), rest);
    CutAtFirstBar(c.endpointType, rest2);
    CutAtFirstBar(c.client, c.model);
  }

  lemma ParsedHasNoBar(key: string)
    requires ParseKey(key).Some?
    ensures NoBar(ParseKey(key).value.endpointType) && NoBar(ParseKey(key).value.client)
  {
    hide ParseHour;
    CutSplits(key);
    var rest := Cut(key).value.1;
    CutSplits(rest);
    CutSplits(Cut(rest).value.1);
  }

  /** Keys are a round trip on the normalised dimensions exactly when neither the
      endpoint type nor the client contains a bar; the model may contain any. */
  lemma KeyRoundTrip(t: nat, endpointType: string, client: string, model: string)
    requires FourDigitYear(Clock.HourOf(t))
    ensures ParseKey(AggKeyOf(t, endpointType, client, model)) == Some(CellOf(t, endpointType, client, model))
       <==> NoBar(NormalName(endpointType)) && NoBar(OrUnknown(Trim(client)))
  {
    hide Clock.HourOf, FourDigitYear, NormalName, Trim;
    var c := CellOf(t, endpointType, client, model);
    if NoBar(c.endpointType) && NoBar(c.client) {
      ParseEncode(c);
    } else if ParseKey(Encode(c)).Some? {
      ParsedHasNoBar(Encode(c));
    }
  }

  /** Different cells have different keys, bars in the last dimension included. */
  lemma EncodeInjective(c: Cell, d: Cell)
    requires FourDigitYear(c.hour) && NoBar(c.endpointType) && NoBar(c.client)
    requires FourDigitYear(d.hour) && NoBar(d.endpointType) && NoBar(d.client)
    requires Encode(c) == Encode(d)
    ensures c == d
  {
    ParseEncode(c);
    ParseEncode(d);
  }

  // ---------------------------------------------------------------------------
  // The range scan

  /** Between the seek to the first hour and the stop past the last hour plus `}`. */
  predicate InScan(key: string, from: nat, to: nat) {
    !Less(key, FormatHour(from)) && !Less(FormatHour(to) + "}", key)
  }

  /** The hour text of a key is in the form `aggKey` writes. */
  predicate Canonical(key: string) { Cut(key).Some? && |Cut(key).value.0| == 13 }

  lemma KeyText(key: string)
    requires ParseKey(key).Some?
    ensures Cut(key).Some? && ParseHour(Cut(key).value.0) == Some(ParseKey(key).value.hour)
    ensures key == Cut(key).value.0 + ("|" + Cut(key).value.1)
  {
    hide ParseHour, Cut, NoBar;
    CutSplits(key);
  }

  lemma ScanBounds(h: nat, x: string, from: nat, to: nat)
    requires FourDigitYear(h) && FourDigitYear(from) && FourDigitYear(to)
    ensures InScan(FormatHour(h) + ("|" + x), from, to) <==> from <= h <= to
  {
    hide FormatHour, FourDigitYear;
    var key := FormatHour(h) + ("|" + x);
    LessByHead(FormatHour(h), FormatHour(from), "|" + x, "");
    assert FormatHour(from) + "" == FormatHour(from);
    LessByHead(FormatHour(to), FormatHour(h), "}", "|" + x);
    assert !Less("}", "|" + x);
    HourOrder(h, from);
    HourOrder(to, h);
  }

  /** Range scan exactness: a well-formed key in canonical form is visited exactly when
      its hour lies between the two hours. */
  lemma ScanExact(key: string, from: nat, to: nat)
    requires ParseKey(key).Some? && Canonical(key) && FourDigitYear(from) && FourDigitYear(to)
    ensures InScan(key, from, to) <==> from <= ParseKey(key).value.hour <= to
  {
    hide FormatHour, FourDigitYear, ParseHour;
    KeyText(key);
    FormatParse(Cut(key).value.0);
    ScanBounds(ParseKey(key).value.hour, Cut(key).value.1, from, to);
  }

  lemma OneDigitAfter(d: string, h: nat, x: string)
    requires AllDigits(d) && |d| == 1 && h < 10 && Number(d) == h
    ensures Less(Digits(h, 2) + "}", d + ("|" + x))
  {
    assert d[..0] == "";
    assert Number(d) == DigitValue(d[0]);
    assert Digits(h, 2) == Digits(h / 10, 1) + [Digit(h % 10)];
    assert Digits(h / 10, 1) == Digits(h / 100, 0) + [Digit(h / 10)];
    var a, b := Digits(h, 2) + "}", d + ("|" + x);
    assert a[0] == '0' && a[1] == Digit(h) && b[0] == Digit(h) && b[1] == '|';
  }

  /** A parseable key whose hour has a single digit is missed by the scan of its own
      hour, so the scan is exact on a well-formed key, for all bounds, exactly when the
      key is in canonical form. */
  lemma ScanExactIff(key: string)
    requires ParseKey(key).Some?
    ensures Canonical(key) <==>
      forall from: nat, to: nat :: FourDigitYear(from) && FourDigitYear(to) ==>
        (InScan(key, from, to) <==> from <= ParseKey(key).value.hour <= to)
  {
    var h := ParseKey(key).value.hour;
    KeyText(key);
    var (text, rest) := Cut(key).value;
    FormatParse(text);
    if Canonical(key) {
      forall from: nat, to: nat | FourDigitYear(from) && FourDigitYear(to)
        ensures InScan(key, from, to) <==> from <= h <= to
      {
        ScanExact(key, from, to);
      }
    } else {
      OneDigitMissed(key, h, text, rest);
    }
  }

  lemma OneDigitMissed(key: string, h: nat, text: string, rest: string)
    requires ParseHour(text) == Some(h) && |text| == 12 && key == text + ("|" + rest)
    ensures FourDigitYear(h) && !InScan(key, h, h)
  {
    hide DatePart, FourDigitYear, ParseHour, Digits;
    FormatParse(text);
    var d := text[11..];
    assert |d| == 1 && h % 24 == DigitValue(d[0]) by {
      assert d[..0] == "";
    }
    OneDigitAfter(d, h % 24, rest);
    LessByHead(DatePart(h), DatePart(h), Digits(h % 24, 2) + "}", d + ("|" + rest));
    assert FormatHour(h) + "}" == DatePart(h) + (Digits(h % 24, 2) + "}");
    assert key == text[..11] + (d + ("|" + rest));
  }

  /** The key of a cell of seven o'clock on 29 February 2024, spelled out. */
  lemma KeySpelledOut()
    ensures Encode(Cell((738_885 + 31 + 28) * 24 + 7, "openai", "web", "gpt-4")) == "2024-02-29T07|openai|web|gpt-4"
  {
    hide FormatHour;
    LeapDayFormats();
    var text := "2024-02-29T07";
    assert text + "|" == "2024-02-29T07|";
    assert text + "|" + "openai" + "|" == "2024-02-29T07|openai|";
    assert text + "|" + "openai" + "|" + "web" + "|" == "2024-02-29T07|openai|web|";
  }
}
