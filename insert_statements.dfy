/** `generateInsertStatements` (main.go): every row of one table's result set
    becomes one `INSERT` statement, and a failed scan discards the whole
    table. The database is input data here: the outcome of `db.Query` and
    `rows.Columns`, then the rows that `rows.Next` delivers, each either
    scanned into cells or failing to scan. */
module InsertStatements {
  import opened Wrappers
  import opened Cells
  import opened SqlLiterals

  /** A row as the driver delivers it: its cells, or the error that reading
      it produced. */
  datatype Scan = Scanned(cells: seq<Cell>) | ScanFailed(err: string)

  /** `QueryFailed` stands for an error from `db.Query` or `rows.Columns`. */
  datatype QueryOutcome = QueryFailed(err: string) | Opened(cols: seq<string>, rows: seq<Scan>)

  /** `rows.Scan` into one slot per column succeeds: the row was read and it
      is exactly as wide as the column list. */
  predicate RowFits(cols: seq<string>, row: Scan)
  {
    row.Scanned? && |row.cells| == |cols|
  }

  /** The error `rows.Scan` returns when the row holds `width` values but
      was given `slots` destinations. */
  function ScanWidthError(width: nat, slots: nat): (r: string)
  {
    "sql: expected " + Decimal(width) + " destination arguments in Scan, not " + Decimal(slots)
  }

  /** The error `rows.Scan` returns for a row that does not fit. */
  function RowError(cols: seq<string>, row: Scan): (r: string)
    requires !RowFits(cols, row)
  {
    match row
    case ScanFailed(e) => e
    case Scanned(cells) => ScanWidthError(|cells|, |cols|)
  }

  /** strings.Join(xs, ", ") */
  function Join(xs: seq<string>): (r: string)
  {
    if xs == [] then "" else if |xs| == 1 then xs[0] else xs[0] + ", " + Join(xs[1..])
  }

  function Concat(lines: seq<string>): (r: string)
  {
    if lines == [] then "" else lines[0] + Concat(lines[1..])
  }

  function Literals(cells: seq<Cell>): (r: seq<string>)
    ensures |r| == |cells|
  {
    seq(|cells|, i requires 0 <= i < |cells| => FormatCell(cells[i]))
  }

  /** Everything of a statement before its value list. */
  function InsertHead(table: string, cols: seq<string>): string
  {
    "INSERT INTO \"" + table + "\" (" + Join(cols) + ") VALUES ("
  }

  /** The `Sprintf` that writes one statement from the formatted values. */
  function InsertLine(table: string, cols: seq<string>, values: seq<string>): string
  {
    InsertHead(table, cols) + Join(values) + ");\n"
  }

  function RowStatement(table: string, cols: seq<string>, cells: seq<Cell>): string
  {
    InsertLine(table, cols, Literals(cells))
  }

  /** Adds `prefix` in front of a successful dump; a failure stays as it is. */
  function Prefixed(prefix: string, r: Result<string, string>): Result<string, string>
  {
    match r
    case Success(s) => Success(prefix + s)
    case Failure(e) => Failure(e)
  }

  /** What the row loop produces: the statements of all rows in order, or the
      error of the first row that fails to scan and no text at all. */
  function DumpRows(table: string, cols: seq<string>, rows: seq<Scan>): (r: Result<string, string>)
  {
    if rows == [] then Success("")
    else if !RowFits(cols, rows[0]) then Failure(RowError(cols, rows[0]))
    else Prefixed(RowStatement(table, cols, rows[0].cells), DumpRows(table, cols, rows[1..]))
  }

  function DumpTable(table: string, q: QueryOutcome): (r: Result<string, string>)
  {
    match q
    case QueryFailed(e) => Failure(e)
    case Opened(cols, rows) => DumpRows(table, cols, rows)
  }

  /** The `values` slice, filled in place one cell at a time. */
  method FormatValues(cells: seq<Cell>) returns (values: array<string>)
    ensures values[..] == Literals(cells)
  {
    values := new string[|cells|];
    for i := 0 to |cells|
      invariant forall k :: 0 <= k < i ==> values[k] == FormatCell(cells[k])
    {
      values[i] := FormatCell(cells[i]);
    }
    assert values[..] == Literals(cells);
  }

  method GenerateInsertStatements(table: string, q: QueryOutcome) returns (r: Result<string, string>)
    ensures r == DumpTable(table, q)
  {
    if q.QueryFailed? {
      return Failure(q.err);
    }
    var cols, rows := q.cols, q.rows;
    var out := "";
    var i := 0;
    assert rows[i..] == rows;
    match DumpRows(table, cols, rows) {
      case Success(s) => assert out + s == s;
      case Failure(_) =>
    }
    while i < |rows|
      invariant 0 <= i <= |rows|
      invariant DumpRows(table, cols, rows) == Prefixed(out, DumpRows(table, cols, rows[i..]))
    {
      assert rows[i..][0] == rows[i] && rows[i..][1..] == rows[i + 1..];
      match rows[i]
      case ScanFailed(e) =>
        return Failure(e);
      case Scanned(cells) =>
        if |cells| != |cols| {
          return Failure(ScanWidthError(|cells|, |cols|));
        }
        var values := FormatValues(cells);
        PrefixedTwice(out, InsertLine(table, cols, values[..]), DumpRows(table, cols, rows[i + 1..]));
        out := out + InsertLine(table, cols, values[..]);
      i := i + 1;
    }
    assert rows[i..] == [];
    assert out + "" == out;
    return Success(out);
  }

  lemma PrefixedTwice(a: string, b: string, r: Result<string, string>)
    ensures Prefixed(a, Prefixed(b, r)) == Prefixed(a + b, r)
  {
    if r.Success? {
      Reassociate(a, b, r.value);
    }
  }

  function ScannedCells(cols: seq<string>, rows: seq<Scan>): (r: seq<seq<Cell>>)
    requires forall i :: 0 <= i < |rows| ==> RowFits(cols, rows[i])
    ensures |r| == |rows|
  {
    seq(|rows|, i requires 0 <= i < |rows| => assert RowFits(cols, rows[i]); rows[i].cells)
  }

  function Statements(table: string, cols: seq<string>, rows: seq<seq<Cell>>): (r: seq<string>)
    ensures |r| == |rows|
  {
    seq(|rows|, i requires 0 <= i < |rows| => RowStatement(table, cols, rows[i]))
  }

  /** A table dump succeeds exactly when every row scans into one slot per
      column. */
  lemma {:induction false} DumpRowsSucceedsIff(table: string, cols: seq<string>, rows: seq<Scan>)
    ensures DumpRows(table, cols, rows).Success? <==> forall i :: 0 <= i < |rows| ==> RowFits(cols, rows[i])
  {
    if rows != [] {
      DumpRowsSucceedsIff(table, cols, rows[1..]);
      assert forall i :: 1 <= i < |rows| ==> rows[i] == rows[1..][i - 1];
    }
  }

  /** A failed dump reports the error of the first row that could not be
      scanned, either because reading it failed or because its width is not
      the number of columns. */
  lemma {:induction false} DumpRowsFailsAtFirstBadRow(table: string, cols: seq<string>, rows: seq<Scan>)
    requires DumpRows(table, cols, rows).Failure?
    ensures exists k :: (0 <= k < |rows| && !RowFits(cols, rows[k])
      && DumpRows(table, cols, rows).error == RowError(cols, rows[k])
      && forall j :: 0 <= j < k ==> RowFits(cols, rows[j]))
  {
    if RowFits(cols, rows[0]) {
      DumpRowsFailsAtFirstBadRow(table, cols, rows[1..]);
      var k :| 0 <= k < |rows[1..]| && !RowFits(cols, rows[1..][k])
        && DumpRows(table, cols, rows[1..]).error == RowError(cols, rows[1..][k])
        && forall j :: 0 <= j < k ==> RowFits(cols, rows[1..][j]);
      assert rows[k + 1] == rows[1..][k];
      assert forall j :: 1 <= j < k + 1 ==> rows[j] == rows[1..][j - 1];
    }
  }

  /** A dump whose rows all fit is one statement per row, in row order; no
      rows give the empty text. */
  lemma {:induction false} DumpRowsIsStatements(table: string, cols: seq<string>, rows: seq<Scan>)
    requires forall i :: 0 <= i < |rows| ==> RowFits(cols, rows[i])
    ensures DumpRows(table, cols, rows) == Success(Concat(Statements(table, cols, ScannedCells(cols, rows))))
  {
    if rows != [] {
      DumpRowsIsStatements(table, cols, rows[1..]);
      assert ScannedCells(cols, rows)[1..] == ScannedCells(cols, rows[1..]);
      assert Statements(table, cols, ScannedCells(cols, rows))[1..] == Statements(table, cols, ScannedCells(cols, rows[1..]));
    }
  }

  function Values(cells: seq<Cell>): seq<SqlValue>
  {
    seq(|cells|, i requires 0 <= i < |cells| => CellValue(cells[i]))
  }

  lemma {:induction false} ValuesReadBack(cells: seq<Cell>, tail: string)
    requires |cells| > 0
    requires forall i :: 0 <= i < |cells| ==> Readable(cells[i])
    ensures LexValues(Join(Literals(cells)) + ")" + tail) == Some((Values(cells), tail))
  {
    var lits := Literals(cells);
    var c := cells[0];
    if |cells| == 1 {
      SingleJoin(cells, tail);
      LastValueReadsBack(c, tail);
      ValuesCons(cells);
      assert Values(cells[1..]) == [];
      assert Values(cells) == [CellValue(c)];
    } else {
      var more := Join(Literals(cells[1..])) + ")" + tail;
      assert forall i :: 0 <= i < |cells[1..]| ==> Readable(cells[1..][i]) by {
        forall i | 0 <= i < |cells[1..]| ensures Readable(cells[1..][i]) {
          assert cells[1..][i] == cells[i + 1];
        }
      }
      ValuesReadBack(cells[1..], tail);
      ConsJoin(cells, tail);
      NextValueReadsBack(c, more);
      ValuesCons(cells);
    }
  }

  lemma ValuesCons(cells: seq<Cell>)
    requires |cells| > 0
    ensures Values(cells) == [CellValue(cells[0])] + Values(cells[1..])
  {
  }

  lemma SingleJoin(cells: seq<Cell>, tail: string)
    requires |cells| == 1
    ensures Join(Literals(cells)) + ")" + tail == FormatCell(cells[0]) + (")" + tail)
  {
    assert Join(Literals(cells)) == FormatCell(cells[0]);
  }

  lemma ConsJoin(cells: seq<Cell>, tail: string)
    requires |cells| >= 2
    ensures Join(Literals(cells)) + ")" + tail
      == FormatCell(cells[0]) + (", " + (Join(Literals(cells[1..])) + ")" + tail))
  {
    LiteralsCons(cells);
    var a, b := FormatCell(cells[0]), Join(Literals(cells[1..]));
    Reassociate(a + ", " + b, ")", tail);
    Reassociate(a + ", ", b, ")" + tail);
    Reassociate(a, ", ", b + (")" + tail));
    Reassociate(b, ")", tail);
  }

  lemma LiteralsCons(cells: seq<Cell>)
    requires |cells| >= 2
    ensures Join(Literals(cells)) == FormatCell(cells[0]) + ", " + Join(Literals(cells[1..]))
  {
    var lits := Literals(cells);
    assert lits[1..] == Literals(cells[1..]);
  }

  lemma LastValueReadsBack(c: Cell, tail: string)
    requires Readable(c)
    ensures LexValues(FormatCell(c) + (")" + tail)) == Some(([CellValue(c)], tail))
  {
    FormatCellReadsBack(c, ")" + tail);
    assert (")" + tail)[1..] == tail;
  }

  lemma NextValueReadsBack(c: Cell, more: string)
    requires Readable(c)
    requires LexValues(more).Some?
    ensures LexValues(FormatCell(c) + (", " + more))
      == Some(([CellValue(c)] + LexValues(more).value.0, LexValues(more).value.1))
  {
    FormatCellReadsBack(c, ", " + more);
    assert (", " + more)[2..] == more;
  }

  /** Every statement of a row of readable cells consists of the statement
      head and a value list that reads back as exactly one value per column,
      the values of the row's cells in column order. */
  lemma RowStatementReadsBack(table: string, cols: seq<string>, cells: seq<Cell>)
    requires |cells| == |cols|
    requires forall i :: 0 <= i < |cells| ==> Readable(cells[i])
    ensures var line, head := RowStatement(table, cols, cells), InsertHead(table, cols);
      |head| <= |line| && line[..|head|] == head
      && LexValueList(line[|head|..]) == Some((Values(cells), ";\n"))
      && |Values(cells)| == |cols|
  {
    var head := InsertHead(table, cols);
    var rest := Join(Literals(cells)) + ");\n";
    assert RowStatement(table, cols, cells) == head + rest;
    assert (head + rest)[|head|..] == rest;
    if cells == [] {
      assert rest == ");\n";
      assert rest[1..] == ";\n";
      assert Values(cells) == [];
    } else {
      assert rest == Join(Literals(cells)) + ")" + ";\n";
      ValuesReadBack(cells, ";\n");
      var first := FormatCell(cells[0]);
      assert Join(Literals(cells))[0] == first[0];
      assert first[0] != ')';
    }
  }

  /** Every cell of every scanned row reads back as one literal. */
  predicate AllReadable(rows: seq<Scan>)
  {
    forall i :: 0 <= i < |rows| && rows[i].Scanned? ==>
      forall j :: 0 <= j < |rows[i].cells| ==> Readable(rows[i].cells[j])
  }

  /** A table whose dump succeeds had every row fit its columns, and its
      dump is one statement per row, in row order, each being the statement
      head followed by a value list that reads back as that row's values,
      one per column. */
  lemma TableDumpReadsBack(table: string, q: QueryOutcome)
    requires q.Opened? && DumpTable(table, q).Success? && AllReadable(q.rows)
    ensures forall i :: 0 <= i < |q.rows| ==> RowFits(q.cols, q.rows[i])
    ensures var stmts := Statements(table, q.cols, ScannedCells(q.cols, q.rows));
      && |stmts| == |q.rows|
      && DumpTable(table, q) == Success(Concat(stmts))
      && forall i :: 0 <= i < |stmts| ==>
        var line, head := stmts[i], InsertHead(table, q.cols);
        && |head| <= |line| && line[..|head|] == head
        && LexValueList(line[|head|..]) == Some((Values(q.rows[i].cells), ";\n"))
        && |Values(q.rows[i].cells)| == |q.cols|
  {
    var cols, rows := q.cols, q.rows;
    DumpRowsSucceedsIff(table, cols, rows);
    DumpRowsIsStatements(table, cols, rows);
    var stmts := Statements(table, cols, ScannedCells(cols, rows));
    forall i | 0 <= i < |stmts|
      ensures var line, head := stmts[i], InsertHead(table, cols);
        && |head| <= |line| && line[..|head|] == head
        && LexValueList(line[|head|..]) == Some((Values(rows[i].cells), ";\n"))
        && |Values(rows[i].cells)| == |cols|
    {
      assert RowFits(cols, rows[i]);
      assert stmts[i] == RowStatement(table, cols, rows[i].cells);
      RowStatementReadsBack(table, cols, rows[i].cells);
    }
  }
}
