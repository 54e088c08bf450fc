# account-importer: a Dafny model of the SQL dump pipeline

account-importer is a one-file Go program (`main.go`). It exports everything
one user owns from a Postgres database as `INSERT` statements. It works in
four steps:

- It picks the user from `--user_id`, `--account_id` or a positional
  argument.
- It confirms that user id, or looks it up from the account id.
- It runs one fixed query per table, in sorted table order.
- For every row it writes one `INSERT INTO "<table>" (<cols>) VALUES
  (<literals>);` line. Each cell becomes a SQL literal, and single quotes
  inside text are doubled.

This project models that pipeline and proves what it promises.

- `escaping.dfy` (`Escaping`) models `escapeSingleQuotes` and its
  inverse. The inverse is the reading a SQL parser applies inside a quoted
  literal.
- `cells.dfy` (`Cells`) models the per-cell type switch. A cell is a closed
  variant `Null | Bool | Bytes | Time | Other`. Timestamps use Go's layout
  `2006-01-02T15:04:05Z`, and there is a parser that reads that text back.
- `sql_literals.dfy` (`SqlLiterals`) is a reference reader for SQL literals
  and value lists. It is the independent definition that the formatter's
  output is checked against.
- `insert_statements.dfy` (`InsertStatements`) models
  `generateInsertStatements` imperatively:
  - the `values` slice is an `array` filled by index;
  - the `strings.Builder` is a string that a `while` loop over the delivered
    rows appends to.

  Both methods are proved against specification functions (`Literals`,
  `DumpRows`), and lemmas about those functions state what the dump means.
- `identifiers.dfy` (`Identifiers`) models the conflict check and the
  `switch` that selects an identifier source in `main`, and its resolution
  through `userExists` and `getUserIDFromAccountID`. The database is given
  as data: the set of user ids and a map from account id to user id. A
  lookup error counts as not found.
- `table_order.dfy` (`TableOrder`) models `sort.Strings`: Go's string order
  and a sort proved to return the sorted permutation of its input, which is
  unique.
- `export.dfy` (`Export`) models the rest of `main`:
  - the fixed table-to-query map;
  - collecting its keys in any order, then sorting them;
  - the output loop that skips a table whose dump fails;
  - the whole run from flags to the output text.

  Running a table's query is an input function `run(query, userId)`. It
  returns the outcome `db.Query`/`rows.Columns` would give, then each row
  `rows.Next` delivers, scanned or failing to scan.

Three behaviours of the code are easy to miss:

- Text of the generic `Other` kind is quoted by `'%v'` without escaping
  (main.go:197). A value holding a quote is therefore not one literal.
  `OtherTextWithQuoteIsCut` shows the reader stopping at that quote.
  `FormatCellReadsBack` proves the read-back for every other cell.
- The account path (main.go:40-44) does not check that the user id it finds
  exists in the users table. `AccountPathSkipsUserCheck` exhibits this.
- No check of its own compares the number of values with the number of
  columns. The count agrees because `rows.Scan` is given one slot per column
  (main.go:175-183) and fails on a row of any other width; `values` then has
  one entry per slot (main.go:185). The model gives a scanned row its own
  width and lets the scan fail when that width is not the column count.

## Model

| member | source | states |
|---|---|---|
| Escaping.EscapeLength | main.go:208-210 | the escaped text is as long as the input plus one for every quote in it |
| Escaping.EscapeWithoutQuotes | main.go:208-210 | a string without a single quote is returned unchanged |
| Escaping.UnescapeEscape | main.go:208-210 | collapsing every `''` of the escaped text back to `'` gives the input again |
| Escaping.EscapeDoublesQuotes | main.go:208-210 | every quote in the escaped text belongs to a doubled pair `''` |
| Escaping.EscapeUnescape | main.go:208-210 | every text whose quotes are all doubled is the escape of its unescaping, so escaping is onto those texts |
| Cells.Decimal | main.go:195 | the fallback digits of a wide time field are a non-empty run of decimal digits |
| Cells.DecimalReadsBack | main.go:195 | the digits written for a wide field, such as a year of five or more digits, spell exactly its value |
| Cells.FormatCell | main.go:186-198 | a literal is bare exactly for null and boolean cells; every other literal starts and ends with a quote; for bytes the inside has all quotes doubled and unescapes to the bytes; for other values the inside is the text itself |
| Cells.Pad2RoundTrip | main.go:195 | a field below 100 is written as exactly two digits that read back as the field |
| Cells.Pad4RoundTrip | main.go:195 | a year below 10000 is written as exactly four digits that read back as the year |
| Cells.TimeLiteralRoundTrip | main.go:194-195 | a timestamp within the layout's widths becomes a 22-character literal, a quote, twenty characters and a quote; parsing those twenty gives the timestamp back |
| Cells.TimeTextRoundTrip | main.go:195 | parsing the `2006-01-02T15:04:05Z` text of a timestamp within the layout's widths gives its six fields back |
| Cells.DateFields | main.go:195 | the date part is ten characters: a four-digit year, `-`, two-digit month, `-`, two-digit day, each reading back as its field |
| Cells.ClockFields | main.go:195 | the clock part is eight characters: hour, `:`, minute, `:`, second, each two digits reading back as its field |
| Cells.TimeTextHasNoQuote | main.go:194-195 | timestamp text never contains a single quote, for any field values, so it is safe to quote without escaping |
| Cells.Pad2HasNoQuote | main.go:195 | a two-digit field's text holds no quote |
| Cells.YearHasNoQuote | main.go:195 | a year's text, negative years included, holds no quote |
| SqlLiterals.FormatCellReadsBack | main.go:186-198 | every cell except `Other` text with a quote formats to one literal that a SQL reader takes back as exactly the cell's value (NULL, the boolean, the bytes, the timestamp text, the other text) and the reader stops at the delimiter that follows |
| SqlLiterals.OtherTextWithQuoteIsCut | main.go:196-197 | an `Other` text `O'Brien` is quoted unescaped, and the reader ends the string after `O` |
| SqlLiterals.LexQuotedEscape | main.go:193 | reading an escaped text followed by its closing quote yields the text and stops right after that quote |
| SqlLiterals.LexQuotedEscapeThen | main.go:193 | the inductive step of the previous row, with the closing quote grouped with the rest |
| SqlLiterals.QuotedReadsBack | main.go:193 | a quoted escaped text followed by a delimiter reads back as that text |
| SqlLiterals.BareReadsBack | main.go:188-191 | `NULL`, `true` and `false` followed by a delimiter read back as null and the two booleans |
| SqlLiterals.BareWordStops | main.go:188-191 | a bare word ends exactly at the first delimiter |
| InsertStatements.FormatValues | main.go:185-199 | the `values` array holds, at every index, the literal of the cell at that index |
| InsertStatements.GenerateInsertStatements | main.go:161-205 | the result is a failed query's error, or else the row loop's dump: one statement per row in order, or the error of the first row that does not scan |
| InsertStatements.DumpRowsSucceedsIff | main.go:174-183 | a table's dump succeeds if and only if every row scans into one slot per column |
| InsertStatements.DumpRowsFailsAtFirstBadRow | main.go:181-183 | a failed dump carries the error of the first row that failed to scan (a read error, or a width other than the column count), and every row before it scanned; no text survives |
| InsertStatements.DumpRowsIsStatements | main.go:173-204 | when every row scans, the dump is the concatenation of one statement per row in row order, and no rows give the empty text |
| InsertStatements.TableDumpReadsBack | main.go:173-204 | a successful dump of readable cells is one statement per row, in row order, each the statement head and a value list that reads back as that row's values, exactly one per column |
| InsertStatements.RowStatementReadsBack | main.go:201 | a row's statement is the `INSERT INTO "<table>" (<cols>) VALUES (` head, then a value list that reads back as one value per column, the cells' values in column order, followed by `;` and a newline |
| InsertStatements.ValuesReadBack | main.go:201 | the joined literals of readable cells, closed by `)`, read back as the cells' values in order |
| Identifiers.SelectExactlyOne | main.go:27-52 | selection succeeds if and only if exactly one identifier source is given; the account flag selects an account id, and the user flag or a lone positional argument selects a user id |
| Identifiers.SelectErrors | main.go:27-51 | a conflict is reported exactly when a flag comes with another source; a usage error exactly when no flag is given and there is not exactly one positional argument |
| Identifiers.SelectionErrorsPrecedeLookups | main.go:27-52 | a rejected selection fails the same way whatever the database holds |
| Identifiers.ResolveUser | main.go:35-39 | a user id is returned unchanged if and only if the user exists; otherwise the error names it |
| Identifiers.ResolveAccount | main.go:40-44 | an account id resolves exactly when the account is known, to its user id; otherwise the error names the account |
| Identifiers.AccountPathSkipsUserCheck | main.go:40-44 | an account can resolve to a user id that the users table does not hold |
| Identifiers.ResolvedIdIsKnown | main.go:34-52 | a resolved id is either a known user or the user of some account |
| TableOrder.LessEqTotal | main.go:70 | any two strings are ordered one way or the other |
| TableOrder.LessEqTransitive | main.go:70 | the string order is transitive |
| TableOrder.LessEqAntisymmetric | main.go:70 | strings ordered both ways are equal |
| TableOrder.LessEqReflexive | main.go:70 | every string is ordered before itself |
| TableOrder.LessEqAt | main.go:70 | strings that agree up to a position and differ there are ordered by the characters at that position |
| TableOrder.InsertPermutes | main.go:70 | inserting a string adds exactly that string to the multiset |
| TableOrder.InsertSorted | main.go:70 | inserting into a sorted sequence keeps it sorted |
| TableOrder.SortStringsCorrect | main.go:70 | the sort returns a sorted permutation of its input |
| TableOrder.SortedUnique | main.go:70 | two sorted permutations of the same strings are equal |
| Export.TableSequenceSortsKeys | main.go:57-63 | the five table names in the order accounts, app_auth_tokens, user_identities, user_preferences, users are sorted and are exactly the keys of the query map |
| Export.SortedTableNames | main.go:66-70 | collecting the map's keys in whatever order the map yields them and sorting gives that fixed sequence |
| Export.SortingAnyEnumeration | main.go:67-70 | every enumeration of the map's keys sorts to the same sequence |
| Export.Skipped | main.go:72-77 | every skipped table is a queried table whose dump fails |
| Export.Kept | main.go:72-81 | every kept table is a queried table whose dump succeeds |
| Export.AssembleOutput | main.go:72-81 | the loop's output and warnings are those of the tables in order: sections of the succeeding tables, names of the failing ones |
| Export.AssembleStep | main.go:72-81 | each table extends the output by its section and the skipped list by its name exactly when its dump fails |
| Export.SectionWritten | main.go:78-80 | the three writes for a succeeding table append its section |
| Export.AssembledKeepsOnlySuccesses | main.go:73-77 | a failed table contributes nothing: the output equals that of the succeeding tables alone |
| Export.KeptAndSkippedPartition | main.go:72-77 | every table is either kept or skipped, exactly once |
| Export.SuccessfulTableSection | main.go:78-80 | a succeeding table adds exactly `-- Insert for T` and a newline, its dump and a newline after the previous output |
| Export.Run | main.go:24-83 | the run resolves the identifier and then dumps all tables in sorted order, or reports the selection or lookup error |
| Export.UnresolvedRunQueriesNothing | main.go:27-52 | when the identifier does not resolve, the outcome does not depend on any table's data |

## Left out

- `connectDB` (main.go:123-158): it reads environment variables, encodes a URL and calls `sql.Open`. This is library and I/O plumbing, and `defer db.Close()` goes with it.
- `flag.Parse` (main.go:25) is not modelled: an `Invocation` holds the flags and positional arguments after parsing. Go's flag package stops at the first positional argument, so a flag written after it counts as a positional argument.
- Executing queries. `db.Query`, `rows.Columns`, `rows.Next`, `rows.Scan` and `QueryRow` become input data: a user set, an account map and a per-query outcome function. Of `rows.Scan` only its width check is modelled, with the error text `database/sql` writes for it.
- `rows.Err()` is never called in the source. A row stream that ends early through an error is indistinguishable from its last row, and the model's row sequence is whatever `rows.Next` delivered.
- `log.Fatal` and process exit become `Failure` results. The warning of `log.Printf` (main.go:75) becomes the list of skipped tables. The exact wording of the messages is not modelled.
- `fmt.Print` of the output (main.go:83) and the `--output` file write (main.go:85-92) are I/O. The model ends at the output text.
- `userExists` prints its lookup error (main.go:115-117). That is I/O and is not modelled.
- `time.Time.UTC()` (main.go:195): the timestamp fields are taken as already in UTC, and sub-second precision as already dropped.
- Go's `%v` rendering (main.go:197) is not modelled. `Other` carries the rendered text.
- Bytes are read as characters: `string(val)` of non-UTF-8 bytes is not modelled.
- SortStrings: models what `sort.Strings` computes, a sorted permutation. It does not model the in-place sort of the slice. Go compares strings byte by byte, while the model compares characters; the two agree on the ASCII table names used.
- SortedTableNames: the map's iteration order is an arbitrary choice in the loop. The loop proves the same result for every order.
- Cells.TimeLiteralRoundTrip: stated for years 0 to 9999 and fields below 100. Other years are formatted as Go formats them (a `-` sign, or more than four digits) but are not read back.
- SqlLiterals.FormatCellReadsBack: not stated for `Other` text holding a quote, because the source does not escape it.
