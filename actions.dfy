/** What each of the contract's four actions does to the table and what it prints, as
    functions of the table before the action. */
module Actions {
  import opened GreetingTable

  /** Why an action aborted: `require_auth` refused the caller, or an `eosio_assert` failed
      with the given message. */
  datatype Error = MissingAuthority(account: Name) | AssertFailed(message: string)

  /** An action either completes, having printed `printed`, or aborts. */
  datatype Outcome = Ok(printed: string) | Abort(error: Error)

  /** The table after an action, and the action's outcome. */
  datatype Result = Result(rows: Rows, outcome: Outcome)

  const AlreadyCreated := "Greeting has already been created for account. Use ugreeting instead."
  const NoGreetingToUpdate := "No greeting found for account. Use cgreeting instead."
  const NoGreetingToDelete := "No greeting found for account."

  /** `require_auth(account)`, with the transaction signed by `caller` alone. */
  predicate Authorized(caller: Name, account: Name)
    ensures Authorized(caller, account) <==> caller.value == account.value
  {
    caller == account
  }

  /** `cgreeting`: add the caller's greeting; refuse if one is already stored. */
  function CGreeting(rows: Rows, caller: Name, account: Name, greetingText: string): (r: Result)
    ensures r.outcome == Abort(MissingAuthority(account)) <==> !Authorized(caller, account)
    ensures r.outcome == Abort(AssertFailed(AlreadyCreated)) <==>
              Authorized(caller, account) && Lookup(rows, account).Some?
    ensures r.outcome.Ok? <==> Authorized(caller, account) && Lookup(rows, account).None?
    ensures r.outcome.Abort? ==> r.rows == rows
    ensures r.outcome.Ok? ==> r.outcome.printed == ""
    ensures r.outcome.Ok? ==> r.rows.Keys == rows.Keys + {account.value} && |r.rows| == |rows| + 1
    ensures r.outcome.Ok? ==> Lookup(r.rows, account) == Some(greetingText)
    ensures forall n :: n != account ==> Lookup(r.rows, n) == Lookup(rows, n)
    ensures Keyed(rows) ==> Keyed(r.rows)
  {
    if !Authorized(caller, account) then
      Result(rows, Abort(MissingAuthority(account)))
    else if Find(rows, account).Some? then
      Result(rows, Abort(AssertFailed(AlreadyCreated)))
    else
      Result(rows[account.value := Greeting(account, greetingText)], Ok(""))
  }

  /** `ugreeting`: replace the text of the caller's greeting; refuse if none is stored. */
  function UGreeting(rows: Rows, caller: Name, account: Name, greetingText: string): (r: Result)
    ensures r.outcome == Abort(MissingAuthority(account)) <==> !Authorized(caller, account)
    ensures r.outcome == Abort(AssertFailed(NoGreetingToUpdate)) <==>
              Authorized(caller, account) && Lookup(rows, account).None?
    ensures r.outcome.Ok? <==> Authorized(caller, account) && Lookup(rows, account).Some?
    ensures r.outcome.Abort? ==> r.rows == rows
    ensures r.outcome.Ok? ==> r.outcome.printed == ""
    ensures r.rows.Keys == rows.Keys
    ensures r.outcome.Ok? ==> Lookup(r.rows, account) == Some(greetingText)
    ensures forall n :: n != account ==> Lookup(r.rows, n) == Lookup(rows, n)
    ensures forall k :: k in rows ==> r.rows[k].account == rows[k].account
    ensures Keyed(rows) ==> Keyed(r.rows)
  {
    if !Authorized(caller, account) then
      Result(rows, Abort(MissingAuthority(account)))
    else
      match Find(rows, account)
      case None => Result(rows, Abort(AssertFailed(NoGreetingToUpdate)))
      case Some(g) => Result(rows[account.value := g.(greetingText := greetingText)], Ok(""))
  }

  /** `dgreeting`: erase the caller's greeting; refuse if none is stored. */
  function DGreeting(rows: Rows, caller: Name, account: Name): (r: Result)
    ensures r.outcome == Abort(MissingAuthority(account)) <==> !Authorized(caller, account)
    ensures r.outcome == Abort(AssertFailed(NoGreetingToDelete)) <==>
              Authorized(caller, account) && Lookup(rows, account).None?
    ensures r.outcome.Ok? <==> Authorized(caller, account) && Lookup(rows, account).Some?
    ensures r.outcome.Abort? ==> r.rows == rows
    ensures r.outcome.Ok? ==> r.outcome.printed == ""
    ensures r.outcome.Ok? ==> r.rows.Keys == rows.Keys - {account.value} && |r.rows| == |rows| - 1
    ensures Lookup(r.rows, account).None? <==> r.outcome.Ok? || Lookup(rows, account).None?
    ensures forall n :: n != account ==> Lookup(r.rows, n) == Lookup(rows, n)
    ensures Keyed(rows) ==> Keyed(r.rows)
  {
    if !Authorized(caller, account) then
      Result(rows, Abort(MissingAuthority(account)))
    else if Find(rows, account).None? then
      Result(rows, Abort(AssertFailed(NoGreetingToDelete)))
    else
      Result(rows - {account.value}, Ok(""))
  }

  /** `greet`: print the caller's stored greeting, or "Hello " and the account's name when
      none is stored. `nameText` is the host's spelling of a name, which `print` uses. */
  function Greet(rows: Rows, caller: Name, account: Name, nameText: Name -> string): (r: Result)
    ensures r.rows == rows
    ensures r.outcome.Abort? <==> !Authorized(caller, account)
    ensures r.outcome.Abort? ==> r.outcome.error == MissingAuthority(account)
    ensures r.outcome.Ok? && Lookup(rows, account) == None ==>
              r.outcome.printed == "Hello " + nameText(account)
    ensures forall t :: r.outcome.Ok? && Lookup(rows, account) == Some(t) ==> r.outcome.printed == t
  {
    if !Authorized(caller, account) then
      Result(rows, Abort(MissingAuthority(account)))
    else
      match Find(rows, account)
      case None => Result(rows, Ok("Hello " + nameText(account)))
      case Some(g) => Result(rows, Ok(g.greetingText))
  }

  /** An action with its arguments, as the dispatcher hands it to the contract. */
  datatype Action =
    | CreateAction(account: Name, greetingText: string)
    | UpdateAction(account: Name, greetingText: string)
    | DeleteAction(account: Name)
    | GreetAction(account: Name)

  /** An action pushed by `caller`. */
  datatype Call = Call(caller: Name, action: Action)

  /** Run one action against the table. */
  function Step(rows: Rows, call: Call, nameText: Name -> string): (r: Result)
    ensures r.outcome.Abort? ==> r.rows == rows
    ensures !Authorized(call.caller, call.action.account) ==>
              r == Result(rows, Abort(MissingAuthority(call.action.account)))
    ensures forall n :: n != call.action.account ==> Lookup(r.rows, n) == Lookup(rows, n)
    ensures Keyed(rows) ==> Keyed(r.rows)
  {
    var caller := call.caller;
    match call.action
    case CreateAction(account, text) => CGreeting(rows, caller, account, text)
    case UpdateAction(account, text) => UGreeting(rows, caller, account, text)
    case DeleteAction(account) => DGreeting(rows, caller, account)
    case GreetAction(account) => Greet(rows, caller, account, nameText)
  }

  /** The table after a sequence of calls, and the outcome of each call in turn. */
  datatype Trace = Trace(rows: Rows, outcomes: seq<Outcome>)

  /** Run `calls` in order, each against the table the previous ones left. */
  function Run(rows: Rows, calls: seq<Call>, nameText: Name -> string): (r: Trace)
    ensures |r.outcomes| == |calls|
    ensures Keyed(rows) ==> Keyed(r.rows)
    decreases |calls|
  {
    if calls == [] then
      Trace(rows, [])
    else
      var first := Step(rows, calls[0], nameText);
      var rest := Run(first.rows, calls[1..], nameText);
      Trace(rest.rows, [first.outcome] + rest.outcomes)
  }
}
