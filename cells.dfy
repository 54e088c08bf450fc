/** The per-cell type switch of `generateInsertStatements` (main.go): one
    scanned cell becomes one SQL literal. The driver's dynamic value is a
    closed variant here; `Other` carries the text Go's `%v` would print. */
module Cells {
  import opened Escaping
  import opened Wrappers

  /** A timestamp's components are taken as already converted to UTC. */
  datatype Cell =
    | Null
    | Bool(b: bool)
    | Bytes(s: string)
    | Time(year: int, month: nat, day: nat, hour: nat, minute: nat, second: nat)
    | Other(text: string)

  predicate IsDigit(ch: char) { '0' <= ch <= '9' }

  function DigitChar(d: nat): (ch: char)
    requires d < 10
    ensures IsDigit(ch)
  {
    ('0' as int + d) as char
  }

  function DigitValue(ch: char): nat
    requires IsDigit(ch)
  {
    ch as int - '0' as int
  }

  /** Plain decimal digits of `n`, most significant first. */
  function Decimal(n: nat): (r: string)
    ensures |r| > 0 && forall i :: 0 <= i < |r| ==> IsDigit(r[i])
    decreases n
  {
    if n < 10 then [DigitChar(n)] else Decimal(n / 10) + [DigitChar(n % 10)]
  }

  /** The number a run of decimal digits spells, most significant first. */
  function DecimalValue(t: string): nat
    requires forall i :: 0 <= i < |t| ==> IsDigit(t[i])
  {
    if t == [] then 0 else DecimalValue(t[..|t| - 1]) * 10 + DigitValue(t[|t| - 1])
  }

  /** The digits written for a number spell exactly that number. */
  lemma {:induction false} DecimalReadsBack(n: nat)
    ensures DecimalValue(Decimal(n)) == n
    decreases n
  {
    if n >= 10 {
      DecimalReadsBack(n / 10);
      assert Decimal(n)[..|Decimal(n)| - 1] == Decimal(n / 10);
    }
  }

  /** Go's time formatter writes a two-digit field as exactly two digits when
      the value is below 100, and as its plain decimal digits otherwise. */
  function Pad2(n: nat): (r: string)
  {
    if n < 100 then [DigitChar(n / 10), DigitChar(n % 10)] else Decimal(n)
  }

  /** The four-digit year field, likewise. */
  function Pad4(n: nat): (r: string)
  {
    if n < 10000 then [DigitChar(n / 1000), DigitChar(n / 100 % 10), DigitChar(n / 10 % 10), DigitChar(n % 10)]
    else Decimal(n)
  }

  /** Layout element "2006": a negative year is written with a leading '-'. */
  function YearText(y: int): (r: string)
  {
    if y < 0 then "-" + Pad4(-y) else Pad4(y)
  }

  /** Layout "2006-01-02T15:04:05Z"; "Z" is a literal letter in this layout. */
  function TimeText(year: int, month: nat, day: nat, hour: nat, minute: nat, second: nat): (r: string)
  {
    YearText(year) + "-" + Pad2(month) + "-" + Pad2(day) + "T"
      + Pad2(hour) + ":" + Pad2(minute) + ":" + Pad2(second) + "Z"
  }

  /** The SQL literal for one cell. */
  function FormatCell(c: Cell): (r: string)
    ensures (c.Null? || c.Bool?) <==> (|r| > 0 && r[0] != Quote)
    ensures !(c.Null? || c.Bool?) ==> |r| >= 2 && r[0] == Quote && r[|r| - 1] == Quote
    ensures c.Bytes? ==> QuotesDoubled(r[1..|r| - 1]) && Unescape(r[1..|r| - 1]) == c.s
    ensures c.Other? ==> r[1..|r| - 1] == c.text
  {
    match c
    case Null => "NULL"
    case Bool(b) => if b then "true" else "false"
    case Bytes(s) =>
      EscapeDoublesQuotes(s);
      UnescapeEscape(s);
      var r := [Quote] + Escape(s) + [Quote];
      assert r[1..|r| - 1] == Escape(s);
      r
    case Time(y, mo, d, h, mi, s) => [Quote] + TimeText(y, mo, d, h, mi, s) + [Quote]
    case Other(t) =>
      var r := [Quote] + t + [Quote];
      assert r[1..|r| - 1] == t;
      r
  }

  /** A timestamp whose components fit their fields: what a real `time.Time`
      in years 0 to 9999 always has. */
  predicate FitsLayout(c: Cell)
    requires c.Time?
  {
    0 <= c.year < 10000 && c.month < 100 && c.day < 100 && c.hour < 100 && c.minute < 100 && c.second < 100
  }

  function Value2(t: string): nat
    requires |t| == 2 && IsDigit(t[0]) && IsDigit(t[1])
  {
    DigitValue(t[0]) * 10 + DigitValue(t[1])
  }

  function Value4(t: string): nat
    requires |t| == 4 && IsDigit(t[0]) && IsDigit(t[1]) && IsDigit(t[2]) && IsDigit(t[3])
  {
    DigitValue(t[0]) * 1000 + DigitValue(t[1]) * 100 + DigitValue(t[2]) * 10 + DigitValue(t[3])
  }

  predicate DigitsAt(t: string, lo: nat, hi: nat)
    requires lo <= hi <= |t|
  {
    forall i :: lo <= i < hi ==> IsDigit(t[i])
  }

  /** Reads `YYYY-MM-DDTHH:MM:SSZ` back into a timestamp cell. */
  function ParseTimeText(t: string): (r: Option<Cell>)
  {
    if |t| == 20 && t[4] == '-' && t[7] == '-' && t[10] == 'T' && t[13] == ':' && t[16] == ':' && t[19] == 'Z'
       && DigitsAt(t, 0, 4) && DigitsAt(t, 5, 7) && DigitsAt(t, 8, 10) && DigitsAt(t, 11, 13)
       && DigitsAt(t, 14, 16) && DigitsAt(t, 17, 19)
    then Some(Time(Value4(t[0..4]), Value2(t[5..7]), Value2(t[8..10]), Value2(t[11..13]), Value2(t[14..16]), Value2(t[17..19])))
    else None
  }

  lemma Pad2RoundTrip(n: nat)
    requires n < 100
    ensures var p := Pad2(n); |p| == 2 && IsDigit(p[0]) && IsDigit(p[1]) && Value2(p) == n
  {
  }

  lemma Pad4RoundTrip(n: nat)
    requires n < 10000
    ensures var p := Pad4(n); |p| == 4 && IsDigit(p[0]) && IsDigit(p[1]) && IsDigit(p[2]) && IsDigit(p[3]) && Value4(p) == n
  {
    var p := Pad4(n);
    var q1 := n / 10;
    var q2 := q1 / 10;
    var q3 := q2 / 10;
    assert n / 100 == q2 && n / 1000 == q3;
    assert DigitValue(p[0]) == q3 && DigitValue(p[1]) == q2 % 10;
    assert DigitValue(p[2]) == q1 % 10 && DigitValue(p[3]) == n % 10;
    assert n == q1 * 10 + n % 10;
    assert q1 == q2 * 10 + q1 % 10;
    assert q2 == q3 * 10 + q2 % 10;
  }

  /** A timestamp that fits the layout formats to a 22-character literal: a
      quote, twenty characters with the separators `-`, `-`, `T`, `:`, `:`,
      `Z` at fixed places and zero-padded digits elsewhere, and a quote; and
      reading those twenty characters gives the timestamp back. */
  lemma TimeLiteralRoundTrip(c: Cell)
    requires c.Time? && FitsLayout(c)
    ensures var r := FormatCell(c);
      |r| == 22 && r[0] == Quote && r[21] == Quote && ParseTimeText(r[1..21]) == Some(c)
  {
    var t := TimeText(c.year, c.month, c.day, c.hour, c.minute, c.second);
    TimeTextRoundTrip(c.year, c.month, c.day, c.hour, c.minute, c.second);
    assert FormatCell(c) == [Quote] + t + [Quote];
    assert FormatCell(c)[1..21] == t;
  }

  lemma TimeTextRoundTrip(year: nat, month: nat, day: nat, hour: nat, minute: nat, second: nat)
    requires year < 10000 && month < 100 && day < 100 && hour < 100 && minute < 100 && second < 100
    ensures ParseTimeText(TimeText(year, month, day, hour, minute, second)) == Some(Time(year, month, day, hour, minute, second))
  {
    var t := TimeText(year, month, day, hour, minute, second);
    var date := YearText(year) + "-" + Pad2(month) + "-" + Pad2(day);
    var clock := Pad2(hour) + ":" + Pad2(minute) + ":" + Pad2(second);
    DateFields(year, month, day);
    ClockFields(hour, minute, second);
    assert t == date + "T" + clock + "Z";
    assert t[0..10] == date && t[11..19] == clock;
    assert t[0..4] == date[0..4] && t[5..7] == date[5..7] && t[8..10] == date[8..10];
    assert t[11..13] == clock[0..2] && t[14..16] == clock[3..5] && t[17..19] == clock[6..8];
  }

  lemma DateFields(year: nat, month: nat, day: nat)
    requires year < 10000 && month < 100 && day < 100
    ensures var date := YearText(year) + "-" + Pad2(month) + "-" + Pad2(day);
      |date| == 10 && date[4] == '-' && date[7] == '-'
      && DigitsAt(date, 0, 4) && DigitsAt(date, 5, 7) && DigitsAt(date, 8, 10)
      && date[0..4] == Pad4(year) && date[5..7] == Pad2(month) && date[8..10] == Pad2(day)
      && Value4(date[0..4]) == year && Value2(date[5..7]) == month && Value2(date[8..10]) == day
  {
    Pad4RoundTrip(year);
    Pad2RoundTrip(month);
    Pad2RoundTrip(day);
  }

  lemma ClockFields(hour: nat, minute: nat, second: nat)
    requires hour < 100 && minute < 100 && second < 100
    ensures var clock := Pad2(hour) + ":" + Pad2(minute) + ":" + Pad2(second);
      |clock| == 8 && clock[2] == ':' && clock[5] == ':'
      && DigitsAt(clock, 0, 2) && DigitsAt(clock, 3, 5) && DigitsAt(clock, 6, 8)
      && clock[0..2] == Pad2(hour) && clock[3..5] == Pad2(minute) && clock[6..8] == Pad2(second)
      && Value2(clock[0..2]) == hour && Value2(clock[3..5]) == minute && Value2(clock[6..8]) == second
  {
    Pad2RoundTrip(hour);
    Pad2RoundTrip(minute);
    Pad2RoundTrip(second);
  }

  /** Timestamp text never contains a quote, so quoting it needs no escaping. */
  lemma TimeTextHasNoQuote(year: int, month: nat, day: nat, hour: nat, minute: nat, second: nat)
    ensures Quote !in TimeText(year, month, day, hour, minute, second)
  {
    YearHasNoQuote(year);
    Pad2HasNoQuote(month);
    Pad2HasNoQuote(day);
    Pad2HasNoQuote(hour);
    Pad2HasNoQuote(minute);
    Pad2HasNoQuote(second);
    var date := YearText(year) + "-" + Pad2(month) + "-" + Pad2(day);
    var clock := Pad2(hour) + ":" + Pad2(minute) + ":" + Pad2(second);
    assert Quote !in date;
    assert Quote !in clock;
    assert TimeText(year, month, day, hour, minute, second) == date + "T" + clock + "Z";
  }

  lemma Pad2HasNoQuote(n: nat)
    ensures Quote !in Pad2(n)
  {
    if n >= 100 {
      var d := Decimal(n);
      assert forall i :: 0 <= i < |d| ==> d[i] != Quote;
    }
  }

  lemma YearHasNoQuote(y: int)
    ensures Quote !in YearText(y)
  {
    var n := if y < 0 then -y else y;
    if n >= 10000 {
      var d := Decimal(n);
      assert forall i :: 0 <= i < |d| ==> d[i] != Quote;
    }
    assert Quote !in Pad4(n);
  }
}
