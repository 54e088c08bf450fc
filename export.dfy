/** The rest of `main` (main.go): the fixed table-to-query mapping, its keys
    put in sorted order, and the output text built table by table, skipping
    any table whose dump fails. Running a query is input data: `run(query,
    param)` is the outcome the database gives for that query text and bound
    parameter. */
module Export {
  import opened Wrappers
  import opened InsertStatements
  import opened Identifiers
  import opened TableOrder

  const Queries: map<string, string> := map[
    "accounts" := "SELECT * FROM accounts WHERE user_id = $1",
    "users" := "SELECT * FROM users WHERE id = $1",
    "app_auth_tokens" := "SELECT * FROM app_auth_tokens WHERE user_id = $1",
    "user_identities" := "SELECT * FROM user_identities WHERE user_id = $1",
    "user_preferences" := "SELECT * FROM user_preferences WHERE user_id = $1"
  ]

  /** The table names in increasing order. */
  const TableSequence: seq<string> := ["accounts", "app_auth_tokens", "user_identities", "user_preferences", "users"]

  lemma TableSequenceSortsKeys()
    ensures Sorted(TableSequence)
    ensures multiset(TableSequence) == multiset(Queries.Keys)
  {
    TableSequenceSorted();
    TableSequenceCoversKeys();
  }

  lemma TableSequenceSorted()
    ensures Sorted(TableSequence)
  {
    AccountsFirst();
    TokensBeforeIdentities();
    IdentitiesBeforePreferences();
    PreferencesBeforeUsers();
    SortedFive("accounts", "app_auth_tokens", "user_identities", "user_preferences", "users");
  }

  lemma AccountsFirst()
    ensures LessEq("accounts", "app_auth_tokens")
  {
    LessEqAt("accounts", "app_auth_tokens", 1);
  }

  lemma TokensBeforeIdentities()
    ensures LessEq("app_auth_tokens", "user_identities")
  {
    LessEqAt("app_auth_tokens", "user_identities", 0);
  }

  lemma IdentitiesBeforePreferences()
    ensures LessEq("user_identities", "user_preferences")
  {
    var a, b := "user_identities", "user_preferences";
    assert a[..5] == "user_" == b[..5];
    LessEqAt(a, b, 5);
  }

  lemma PreferencesBeforeUsers()
    ensures LessEq("user_preferences", "users")
  {
    var a, b := "user_preferences", "users";
    assert a[..4] == "user" == b[..4];
    LessEqAt(a, b, 4);
  }

  lemma TableSequenceCoversKeys()
    ensures multiset(TableSequence) == multiset(Queries.Keys)
  {
    var s := TableSequence;
    assert |s[0]| == 8 && |s[1]| == 15 && |s[2]| == 15 && |s[3]| == 16 && |s[4]| == 5;
    assert s[1][0] != s[2][0];
    assert Queries.Keys == {s[0], s[1], s[2], s[3], s[4]};
  }

  /** Collects the keys of `Queries` in whatever order the map yields them,
      then sorts them; the result is the same for every such order. */
  method SortedTableNames() returns (keys: seq<string>)
    ensures keys == TableSequence
  {
    keys := [];
    var pending := Queries.Keys;
    while pending != {}
      invariant pending <= Queries.Keys
      invariant multiset(keys) + multiset(pending) == multiset(Queries.Keys)
      decreases pending
    {
      var k :| k in pending;
      assert multiset(pending) == multiset(pending - {k}) + multiset{k};
      keys := keys + [k];
      pending := pending - {k};
    }
    SortingAnyEnumeration(keys);
    keys := SortStrings(keys);
  }

  /** Whatever order the keys of `Queries` come in, sorting them gives
      `TableSequence`. */
  lemma SortingAnyEnumeration(keys: seq<string>)
    requires multiset(keys) == multiset(Queries.Keys)
    ensures SortStrings(keys) == TableSequence
  {
    SortStringsCorrect(keys);
    TableSequenceSortsKeys();
    SortedUnique(SortStrings(keys), TableSequence);
  }

  /** The dump of one table for one user id. */
  function TableDump(queries: map<string, string>, table: string, userId: string, run: (string, string) -> QueryOutcome): Result<string, string>
    requires table in queries
  {
    DumpTable(table, run(queries[table], userId))
  }

  /** What one table adds to the output: a comment header, its statements and
      a blank line, or nothing at all when its dump failed. */
  function Section(table: string, dump: Result<string, string>): string
  {
    match dump
    case Success(d) => "-- Insert for " + table + "\n" + d + "\n"
    case Failure(_) => ""
  }

  predicate AllQueried(queries: map<string, string>, tables: seq<string>)
  {
    forall i :: 0 <= i < |tables| ==> tables[i] in queries
  }

  function Assembled(queries: map<string, string>, tables: seq<string>, userId: string, run: (string, string) -> QueryOutcome): string
    requires AllQueried(queries, tables)
  {
    if tables == [] then ""
    else
      var last := tables[|tables| - 1];
      Assembled(queries, tables[..|tables| - 1], userId, run) + Section(last, TableDump(queries, last, userId, run))
  }

  /** The tables whose dump fails, in order: one warning is logged for each. */
  function Skipped(queries: map<string, string>, tables: seq<string>, userId: string, run: (string, string) -> QueryOutcome): (r: seq<string>)
    requires AllQueried(queries, tables)
    ensures forall i :: 0 <= i < |r| ==> r[i] in queries && TableDump(queries, r[i], userId, run).Failure?
  {
    if tables == [] then []
    else
      var last := tables[|tables| - 1];
      Skipped(queries, tables[..|tables| - 1], userId, run)
        + (if TableDump(queries, last, userId, run).Failure? then [last] else [])
  }

  /** The tables whose dump succeeds, in order. */
  function Kept(queries: map<string, string>, tables: seq<string>, userId: string, run: (string, string) -> QueryOutcome): (r: seq<string>)
    requires AllQueried(queries, tables)
    ensures forall i :: 0 <= i < |r| ==> r[i] in queries && TableDump(queries, r[i], userId, run).Success?
  {
    if tables == [] then []
    else
      var last := tables[|tables| - 1];
      Kept(queries, tables[..|tables| - 1], userId, run)
        + (if TableDump(queries, last, userId, run).Success? then [last] else [])
  }

  /** The loop over the sorted table names. */
  method AssembleOutput(queries: map<string, string>, tables: seq<string>, userId: string, run: (string, string) -> QueryOutcome)
    returns (output: string, skipped: seq<string>)
    requires AllQueried(queries, tables)
    ensures output == Assembled(queries, tables, userId, run)
    ensures skipped == Skipped(queries, tables, userId, run)
  {
    output, skipped := "", [];
    for i := 0 to |tables|
      invariant output == Assembled(queries, tables[..i], userId, run)
      invariant skipped == Skipped(queries, tables[..i], userId, run)
    {
      var table := tables[i];
      AssembleStep(queries, tables, i, userId, run);
      var dump := GenerateInsertStatements(table, run(queries[table], userId));
      if dump.Failure? {
        skipped := skipped + [table];
        continue;
      }
      ghost var before := output;
      output := output + "-- Insert for " + table + "\n";
      output := output + dump.value;
      output := output + "\n";
      SectionWritten(before, table, dump.value);
    }
    assert tables[..|tables|] == tables;
  }

  lemma AssembleStep(queries: map<string, string>, tables: seq<string>, i: nat, userId: string, run: (string, string) -> QueryOutcome)
    requires AllQueried(queries, tables) && i < |tables|
    ensures var t, dump := tables[i], TableDump(queries, tables[i], userId, run);
      && Assembled(queries, tables[..i + 1], userId, run) == Assembled(queries, tables[..i], userId, run) + Section(t, dump)
      && Skipped(queries, tables[..i + 1], userId, run)
        == Skipped(queries, tables[..i], userId, run) + (if dump.Failure? then [t] else [])
  {
    assert tables[..i + 1][..i] == tables[..i];
  }

  /** The three writes for a successful table append its section. */
  lemma SectionWritten(before: string, table: string, d: string)
    ensures before + "-- Insert for " + table + "\n" + d + "\n" == before + Section(table, Success(d))
  {
  }

  datatype Report = Report(userId: string, output: string, skipped: seq<string>)

  function Exported(inv: Invocation, dir: Directory, run: (string, string) -> QueryOutcome): Result<Report, CliError>
  {
    TableSequenceSortsKeys();
    match ResolveIdentifier(inv, dir)
    case Failure(e) => Failure(e)
    case Success(u) => Success(Report(u, Assembled(Queries, TableSequence, u, run), Skipped(Queries, TableSequence, u, run)))
  }

  /** `main` from flag handling to the text printed: resolve the user id, then
      dump every table in sorted order. */
  method Run(inv: Invocation, dir: Directory, run: (string, string) -> QueryOutcome)
    returns (r: Result<Report, CliError>)
    ensures r == Exported(inv, dir, run)
  {
    var resolved := ResolveIdentifier(inv, dir);
    if resolved.Failure? {
      return Failure(resolved.error);
    }
    var userId := resolved.value;
    var keys := SortedTableNames();
    TableSequenceSortsKeys();
    var output, skipped := AssembleOutput(Queries, keys, userId, run);
    return Success(Report(userId, output, skipped));
  }

  /** A failed table contributes nothing: the output is that of the tables
      whose dump succeeds, in their order. */
  lemma {:induction false} AssembledKeepsOnlySuccesses(queries: map<string, string>, tables: seq<string>, userId: string, run: (string, string) -> QueryOutcome)
    requires AllQueried(queries, tables)
    ensures Assembled(queries, tables, userId, run) == Assembled(queries, Kept(queries, tables, userId, run), userId, run)
  {
    if tables != [] {
      var init, last := tables[..|tables| - 1], tables[|tables| - 1];
      AssembledKeepsOnlySuccesses(queries, init, userId, run);
      var kept := Kept(queries, init, userId, run);
      var section := Section(last, TableDump(queries, last, userId, run));
      assert Assembled(queries, tables, userId, run) == Assembled(queries, kept, userId, run) + section;
      if TableDump(queries, last, userId, run).Success? {
        var k := kept + [last];
        assert k[..|k| - 1] == kept;
        assert Kept(queries, tables, userId, run) == k;
        assert Assembled(queries, k, userId, run) == Assembled(queries, kept, userId, run) + section;
      } else {
        assert Kept(queries, tables, userId, run) == kept;
        assert section == "";
        assert Assembled(queries, kept, userId, run) + section == Assembled(queries, kept, userId, run);
      }
    }
  }

  /** Every table is either kept or skipped, exactly once. */
  lemma {:induction false} KeptAndSkippedPartition(queries: map<string, string>, tables: seq<string>, userId: string, run: (string, string) -> QueryOutcome)
    requires AllQueried(queries, tables)
    ensures multiset(Kept(queries, tables, userId, run)) + multiset(Skipped(queries, tables, userId, run)) == multiset(tables)
  {
    if tables != [] {
      var init, last := tables[..|tables| - 1], tables[|tables| - 1];
      KeptAndSkippedPartition(queries, init, userId, run);
      assert tables == init + [last];
    }
  }

  /** The output of a table that succeeds is its header line, its
      statements and a blank line, after the output of the tables before it. */
  lemma SuccessfulTableSection(queries: map<string, string>, tables: seq<string>, table: string, userId: string, run: (string, string) -> QueryOutcome)
    requires AllQueried(queries, tables) && table in queries
    requires TableDump(queries, table, userId, run).Success?
    ensures AllQueried(queries, tables + [table])
    ensures Assembled(queries, tables + [table], userId, run)
      == Assembled(queries, tables, userId, run) + "-- Insert for " + table + "\n" + TableDump(queries, table, userId, run).value + "\n"
  {
    assert (tables + [table])[..|tables|] == tables;
  }

  /** A rejected or unresolved identifier ends the run before any table is
      queried: the outcome does not depend on the database's tables. */
  lemma UnresolvedRunQueriesNothing(inv: Invocation, dir: Directory, run1: (string, string) -> QueryOutcome, run2: (string, string) -> QueryOutcome)
    requires ResolveIdentifier(inv, dir).Failure?
    ensures Exported(inv, dir, run1) == Exported(inv, dir, run2) == Failure(ResolveIdentifier(inv, dir).error)
  {
  }
}
