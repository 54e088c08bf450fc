/** Choosing and resolving the user identifier in `main` (main.go): the two
    flags and the positional arguments select one identifier source, then
    the database confirms a user id or maps an account id to one. The
    database lookups are input data: the set of user ids `userExists` would
    find, and the accounts `getUserIDFromAccountID` would find, keyed by
    account id. A lookup error counts as not found in both. */
module Identifiers {
  import opened Wrappers

  /** `--user_id`, `--account_id` (empty when not given) and `flag.Args()`. */
  datatype Invocation = Invocation(userIdFlag: string, accountIdFlag: string, args: seq<string>)

  datatype Selection = ByUser(userId: string) | ByAccount(accountId: string)

  datatype CliError =
    | ConflictingIdentifiers
    | Usage
    | UserNotFound(userId: string)
    | AccountNotFound(accountId: string)

  datatype Directory = Directory(users: set<string>, accounts: map<string, string>)

  /** The conflict check, then the `switch` over the sources in order. */
  function Select(inv: Invocation): (r: Result<Selection, CliError>)
  {
    if (inv.userIdFlag != "" && inv.accountIdFlag != "")
       || (|inv.args| > 0 && (inv.userIdFlag != "" || inv.accountIdFlag != ""))
    then Failure(ConflictingIdentifiers)
    else if inv.userIdFlag != "" then Success(ByUser(inv.userIdFlag))
    else if inv.accountIdFlag != "" then Success(ByAccount(inv.accountIdFlag))
    else if |inv.args| == 1 then Success(ByUser(inv.args[0]))
    else Failure(Usage)
  }

  /** The user path checks that the user exists; the account path returns
      the mapped user id without checking it against the users table. */
  function Resolve(sel: Selection, dir: Directory): (r: Result<string, CliError>)
  {
    match sel
    case ByUser(u) => if u in dir.users then Success(u) else Failure(UserNotFound(u))
    case ByAccount(a) => if a in dir.accounts then Success(dir.accounts[a]) else Failure(AccountNotFound(a))
  }

  function ResolveIdentifier(inv: Invocation, dir: Directory): Result<string, CliError>
  {
    match Select(inv)
    case Failure(e) => Failure(e)
    case Success(sel) => Resolve(sel, dir)
  }

  /** How many identifier sources were given: each non-empty flag and each
      positional argument counts once. */
  function SourceCount(inv: Invocation): nat
  {
    (if inv.userIdFlag != "" then 1 else 0) + (if inv.accountIdFlag != "" then 1 else 0) + |inv.args|
  }

  /** Selection succeeds exactly when one identifier source is given, and it
      then picks that source: a flag as the kind it names, a positional
      argument as a user id. */
  lemma SelectExactlyOne(inv: Invocation)
    ensures Select(inv).Success? <==> SourceCount(inv) == 1
    ensures Select(inv) == Success(ByAccount(inv.accountIdFlag)) <==> inv.accountIdFlag != "" && SourceCount(inv) == 1
    ensures inv.userIdFlag != "" && SourceCount(inv) == 1 ==> Select(inv) == Success(ByUser(inv.userIdFlag))
    ensures inv.userIdFlag == "" && inv.accountIdFlag == "" && |inv.args| == 1 ==> Select(inv) == Success(ByUser(inv.args[0]))
  {
  }

  /** A conflict is reported exactly when a flag is given together with
      another source; a usage error exactly when no flag is given and the
      number of positional arguments is not one. */
  lemma SelectErrors(inv: Invocation)
    ensures Select(inv) == Failure(ConflictingIdentifiers)
      <==> (inv.userIdFlag != "" || inv.accountIdFlag != "") && SourceCount(inv) >= 2
    ensures Select(inv) == Failure(Usage)
      <==> inv.userIdFlag == "" && inv.accountIdFlag == "" && |inv.args| != 1
  {
  }

  /** A rejected selection is decided before any lookup: the outcome does not
      depend on the database. */
  lemma SelectionErrorsPrecedeLookups(inv: Invocation, dir1: Directory, dir2: Directory)
    requires Select(inv).Failure?
    ensures ResolveIdentifier(inv, dir1) == ResolveIdentifier(inv, dir2) == Failure(Select(inv).error)
  {
  }

  /** Resolving a user id returns it unchanged exactly when the user exists,
      and otherwise names it in the error. */
  lemma ResolveUser(u: string, dir: Directory)
    ensures Resolve(ByUser(u), dir) == Success(u) <==> u in dir.users
    ensures u !in dir.users ==> Resolve(ByUser(u), dir) == Failure(UserNotFound(u))
  {
  }

  /** Resolving an account id returns its user exactly when the account is
      known, and otherwise names the account in the error. */
  lemma ResolveAccount(a: string, dir: Directory)
    ensures Resolve(ByAccount(a), dir).Success? <==> a in dir.accounts
    ensures a in dir.accounts ==> Resolve(ByAccount(a), dir) == Success(dir.accounts[a])
    ensures a !in dir.accounts ==> Resolve(ByAccount(a), dir) == Failure(AccountNotFound(a))
  {
  }

  /** The account path does not check that the user it finds exists. */
  lemma AccountPathSkipsUserCheck()
    ensures var dir := Directory({}, map["A1" := "U1"]);
      ResolveIdentifier(Invocation("", "A1", []), dir) == Success("U1") && "U1" !in dir.users
  {
  }

  /** Whatever succeeds is a user id: one the users table holds, or one an
      account maps to. */
  lemma ResolvedIdIsKnown(inv: Invocation, dir: Directory)
    requires ResolveIdentifier(inv, dir).Success?
    ensures var u := ResolveIdentifier(inv, dir).value;
      u in dir.users || u in dir.accounts.Values
  {
    var sel := Select(inv).value;
    if sel.ByAccount? {
      assert dir.accounts[sel.accountId] in dir.accounts.Values;
    }
  }
}
