/** How a SQL parser reads back the literals written by `FormatCell`: a bare
    word (`NULL`, `true`, `false`) or a quoted string in which `''` stands for
    one quote. This is the reference against which the formatter is checked. */
module SqlLiterals {
  import opened Wrappers
  import opened Escaping
  import opened Cells

  datatype SqlValue = SqlNull | SqlBool(b: bool) | SqlText(text: string)

  /** The value a cell is meant to denote once its literal is read back. */
  function CellValue(c: Cell): SqlValue
  {
    match c
    case Null => SqlNull
    case Bool(b) => SqlBool(b)
    case Bytes(s) => SqlText(s)
    case Time(y, mo, d, h, mi, s) => SqlText(TimeText(y, mo, d, h, mi, s))
    case Other(t) => SqlText(t)
  }

  /** Cells whose literal reads back as one token: all but `Other` texts that
      contain a quote, because `Other` is quoted without escaping. */
  predicate Readable(c: Cell)
  {
    !(c.Other? && Quote in c.text)
  }

  predicate Delimiter(ch: char) { ch == ',' || ch == ')' }

  /** `t` starts just after an opening quote; yields the unescaped content and
      what follows the closing quote. */
  function LexQuoted(t: string): (r: Option<(string, string)>)
    ensures r.Some? ==> |r.value.1| < |t|
    decreases |t|
  {
    if t == [] then None
    else if t[0] == Quote && (|t| < 2 || t[1] != Quote) then Some(([], t[1..]))
    else
      var width := if t[0] == Quote then 2 else 1;
      var inner := LexQuoted(t[width..]);
      if inner.None? then None else Some(([t[0]] + inner.value.0, inner.value.1))
  }

  /** The longest prefix of `t` that holds no delimiter, and the rest. */
  function BareWord(t: string): (r: (string, string))
    ensures r.0 + r.1 == t
  {
    if t == [] || Delimiter(t[0]) then ([], t)
    else
      var (w, rest) := BareWord(t[1..]);
      assert t == [t[0]] + t[1..];
      ([t[0]] + w, rest)
  }

  /** Reads one literal from the front of `t`. */
  function LexValue(t: string): (r: Option<(SqlValue, string)>)
    ensures r.Some? ==> |r.value.1| < |t|
  {
    if |t| > 0 && t[0] == Quote then
      match LexQuoted(t[1..])
      case None => None
      case Some((s, rest)) => Some((SqlText(s), rest))
    else
      var (w, rest) := BareWord(t);
      if w == "NULL" then Some((SqlNull, rest))
      else if w == "true" then Some((SqlBool(true), rest))
      else if w == "false" then Some((SqlBool(false), rest))
      else None
  }

  /** Reads `v1, v2, ..., vn)` (or just `)`): the values and what follows the
      closing parenthesis. */
  function LexValueList(t: string): Option<(seq<SqlValue>, string)>
  {
    if |t| > 0 && t[0] == ')' then Some(([], t[1..])) else LexValues(t)
  }

  function LexValues(t: string): Option<(seq<SqlValue>, string)>
    decreases |t|
  {
    match LexValue(t)
    case None => None
    case Some((v, rest)) =>
      if |rest| >= 2 && rest[0] == ',' && rest[1] == ' ' then
        match LexValues(rest[2..])
        case None => None
        case Some((vs, tail)) => Some(([v] + vs, tail))
      else if |rest| >= 1 && rest[0] == ')' then Some(([v], rest[1..]))
      else None
  }

  lemma LexQuotedClose(rest: string)
    requires rest == [] || rest[0] != Quote
    ensures LexQuoted([Quote] + rest) == Some(([], rest))
  {
    assert ([Quote] + rest)[1..] == rest;
  }

  lemma LexQuotedPlain(ch: char, t: string)
    requires ch != Quote && LexQuoted(t).Some?
    ensures LexQuoted([ch] + t) == Some(([ch] + LexQuoted(t).value.0, LexQuoted(t).value.1))
  {
    assert ([ch] + t)[1..] == t;
  }

  lemma LexQuotedDoubled(t: string)
    requires LexQuoted(t).Some?
    ensures LexQuoted([Quote, Quote] + t) == Some(([Quote] + LexQuoted(t).value.0, LexQuoted(t).value.1))
  {
    assert ([Quote, Quote] + t)[2..] == t;
  }

  /** Reading an escaped string followed by its closing quote gives the
      original string back, and stops right after that quote. */
  lemma {:induction false} LexQuotedEscape(s: string, rest: string)
    requires rest == [] || rest[0] != Quote
    ensures LexQuoted(Escape(s) + [Quote] + rest) == Some((s, rest))
  {
    var t := [Quote] + rest;
    assert Escape(s) + [Quote] + rest == Escape(s) + t;
    LexQuotedEscapeThen(s, rest);
  }

  lemma {:induction false} LexQuotedEscapeThen(s: string, rest: string)
    requires rest == [] || rest[0] != Quote
    ensures LexQuoted(Escape(s) + ([Quote] + rest)) == Some((s, rest))
  {
    var t := [Quote] + rest;
    if s == [] {
      assert Escape(s) + t == t;
      LexQuotedClose(rest);
    } else {
      var tail := Escape(s[1..]) + t;
      LexQuotedEscapeThen(s[1..], rest);
      var head := if s[0] == Quote then [Quote, Quote] else [s[0]];
      assert Escape(s) == head + Escape(s[1..]);
      Reassociate(head, Escape(s[1..]), t);
      if s[0] == Quote {
        LexQuotedDoubled(tail);
      } else {
        LexQuotedPlain(s[0], tail);
      }
      assert [s[0]] + s[1..] == s;
    }
  }

  lemma Reassociate(a: string, b: string, c: string)
    ensures (a + b) + c == a + (b + c)
  {
  }

  lemma {:induction false} BareWordStops(w: string, rest: string)
    requires forall i :: 0 <= i < |w| ==> !Delimiter(w[i])
    requires rest == [] || Delimiter(rest[0])
    ensures BareWord(w + rest) == (w, rest)
  {
    if w != [] {
      BareWordStops(w[1..], rest);
      assert (w + rest)[1..] == w[1..] + rest;
      assert [w[0]] + w[1..] == w;
    } else {
      assert w + rest == rest;
    }
  }

  /** A quoted literal of escaped text reads back as that text. */
  lemma QuotedReadsBack(s: string, rest: string)
    requires rest == [] || Delimiter(rest[0])
    ensures LexValue([Quote] + Escape(s) + [Quote] + rest) == Some((SqlText(s), rest))
  {
    var body := Escape(s) + [Quote] + rest;
    LexQuotedEscape(s, rest);
    assert [Quote] + Escape(s) + [Quote] + rest == [Quote] + body;
    assert ([Quote] + body)[1..] == body;
  }

  lemma {:induction false} BareReadsBack(w: string, rest: string)
    requires w == "NULL" || w == "true" || w == "false"
    requires rest == [] || Delimiter(rest[0])
    ensures LexValue(w + rest).Some? && LexValue(w + rest).value.1 == rest
    ensures LexValue(w + rest).value.0 == if w == "NULL" then SqlNull else SqlBool(w == "true")
  {
    BareWordStops(w, rest);
  }

  /** Every readable cell's literal reads back as exactly the cell's value,
      and the reader stops at the following delimiter. */
  lemma FormatCellReadsBack(c: Cell, rest: string)
    requires Readable(c)
    requires rest == [] || Delimiter(rest[0])
    ensures LexValue(FormatCell(c) + rest) == Some((CellValue(c), rest))
  {
    match c
    case Null =>
      BareReadsBack("NULL", rest);
    case Bool(b) =>
      BareReadsBack(if b then "true" else "false", rest);
    case Bytes(s) =>
      QuotedReadsBack(s, rest);
    case Time(y, mo, d, h, mi, s) =>
      var text := TimeText(y, mo, d, h, mi, s);
      TimeTextHasNoQuote(y, mo, d, h, mi, s);
      EscapeWithoutQuotes(text);
      QuotedReadsBack(text, rest);
    case Other(text) =>
      EscapeWithoutQuotes(text);
      QuotedReadsBack(text, rest);
  }

  /** An `Other` text holding a quote breaks out of its literal: the reader
      ends the string at that quote and is left with the rest of the text. */
  lemma OtherTextWithQuoteIsCut()
    ensures var c := Other("O'Brien");
      !Readable(c) && LexValue(FormatCell(c) + ")") == Some((SqlText("O"), "Brien')"))
  {
    var t := FormatCell(Other("O'Brien")) + ")";
    assert t == "'O'Brien')";
    assert t[1..] == ['O'] + ([Quote] + "Brien')");
    var after: string := "Brien')";
    assert after[0] == 'B';
    LexQuotedClose(after);
    LexQuotedPlain('O', [Quote] + after);
    assert ['O'] + [] == ['O'];
    assert LexQuoted(['O'] + ([Quote] + after)) == Some((['O'], after));
    assert "O'Brien"[1] == Quote;
  }
}
