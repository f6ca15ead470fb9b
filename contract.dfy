/** The `multigreet` contract: one persistent `greetings` table, changed in place by the
    actions `cgreeting`, `ugreeting` and `dgreeting` and read by `greet`. */
module Contract {
  import opened GreetingTable
  import Actions

  class Multigreet {
    /** The `greetings` table, from primary key to row. */
    var greetings: Rows

    /** Every row sits under its own primary key, so no account has two rows. */
    ghost predicate Valid()
      reads this
    {
      Keyed(greetings)
    }

    /** The contract deployed over an existing table. */
    constructor (rows: Rows)
      requires Keyed(rows)
      ensures Valid() && greetings == rows
    {
      greetings := rows;
    }

    /** `cgreeting`: abort unless `caller` is `account` and `account` has no row; otherwise
        emplace the row `{account, greetingText}`. */
    method CGreeting(caller: Name, account: Name, greetingText: string) returns (r: Actions.Outcome)
      requires Valid()
      modifies this
      ensures Valid()
      ensures Actions.Result(greetings, r) == Actions.CGreeting(old(greetings), caller, account, greetingText)
      ensures r.Abort? ==> greetings == old(greetings)
      ensures r.Ok? ==> greetings == old(greetings)[account.value := Greeting(account, greetingText)]
    {
      if !Actions.Authorized(caller, account) {
        return Actions.Abort(Actions.MissingAuthority(account));
      }
      var found := Find(greetings, account);
      if found.Some? {
        return Actions.Abort(Actions.AssertFailed(Actions.AlreadyCreated));
      }
      greetings := greetings[account.value := Greeting(account, greetingText)];
      r := Actions.Ok("");
    }

    /** `ugreeting`: abort unless `caller` is `account` and `account` has a row; otherwise
        modify that row's text. */
    method UGreeting(caller: Name, account: Name, greetingText: string) returns (r: Actions.Outcome)
      requires Valid()
      modifies this
      ensures Valid()
      ensures Actions.Result(greetings, r) == Actions.UGreeting(old(greetings), caller, account, greetingText)
      ensures r.Abort? ==> greetings == old(greetings)
      ensures r.Ok? ==> account.value in old(greetings) &&
                        greetings == old(greetings)[account.value := Greeting(account, greetingText)]
    {
      if !Actions.Authorized(caller, account) {
        return Actions.Abort(Actions.MissingAuthority(account));
      }
      var found := Find(greetings, account);
      if found.None? {
        return Actions.Abort(Actions.AssertFailed(Actions.NoGreetingToUpdate));
      }
      var row := found.value;
      row := row.(greetingText := greetingText);
      greetings := greetings[account.value := row];
      r := Actions.Ok("");
    }

    /** `dgreeting`: abort unless `caller` is `account` and `account` has a row; otherwise
        erase it. */
    method DGreeting(caller: Name, account: Name) returns (r: Actions.Outcome)
      requires Valid()
      modifies this
      ensures Valid()
      ensures Actions.Result(greetings, r) == Actions.DGreeting(old(greetings), caller, account)
      ensures r.Abort? ==> greetings == old(greetings)
      ensures r.Ok? ==> account.value in old(greetings) && greetings == old(greetings) - {account.value}
    {
      if !Actions.Authorized(caller, account) {
        return Actions.Abort(Actions.MissingAuthority(account));
      }
      var found := Find(greetings, account);
      if found.None? {
        return Actions.Abort(Actions.AssertFailed(Actions.NoGreetingToDelete));
      }
      greetings := greetings - {account.value};
      r := Actions.Ok("");
    }

    /** `greet`: abort unless `caller` is `account`; print the stored text, or "Hello " and
        the account's name when there is none. The table is only read. */
    method Greet(caller: Name, account: Name, nameText: Name -> string) returns (r: Actions.Outcome)
      requires Valid()
      ensures r == Actions.Greet(greetings, caller, account, nameText).outcome
      ensures r.Ok? <==> caller == account
      ensures r.Ok? ==> r.printed == match Lookup(greetings, account)
                                     case Some(t) => t
                                     case None => "Hello " + nameText(account)
    {
      if !Actions.Authorized(caller, account) {
        return Actions.Abort(Actions.MissingAuthority(account));
      }
      var found := Find(greetings, account);
      if found.None? {
        r := Actions.Ok("Hello " + nameText(account));
      } else {
        r := Actions.Ok(found.value.greetingText);
      }
    }
  }

  /** A client of the contract: create a greeting, update it and read it back. */
  method CreateUpdateGreet(contract: Multigreet, o: Name, t1: string, t2: string,
                           nameText: Name -> string)
    returns (printed: string)
    requires contract.Valid() && Lookup(contract.greetings, o) == None
    modifies contract
    ensures contract.Valid()
    ensures Lookup(contract.greetings, o) == Some(t2)
    ensures forall n :: n != o ==> Lookup(contract.greetings, n) == Lookup(old(contract.greetings), n)
    ensures printed == t2
  {
    var r := contract.CGreeting(o, o, t1);
    assert r.Ok?;
    r := contract.UGreeting(o, o, t2);
    assert r.Ok?;
    r := contract.Greet(o, o, nameText);
    printed := r.printed;
  }

  /** A client of the contract: delete a greeting, read, and delete again. The read falls
      back to the default greeting, the second delete aborts, and the table loses exactly the
      one row. */
  method DeleteGreetDelete(contract: Multigreet, o: Name, nameText: Name -> string)
    returns (printed: string, second: Actions.Outcome)
    requires contract.Valid() && Lookup(contract.greetings, o).Some?
    modifies contract
    ensures contract.Valid()
    ensures contract.greetings == old(contract.greetings) - {o.value}
    ensures printed == "Hello " + nameText(o)
    ensures second == Actions.Abort(Actions.AssertFailed(Actions.NoGreetingToDelete))
  {
    var r := contract.DGreeting(o, o);
    assert r.Ok?;
    r := contract.Greet(o, o, nameText);
    printed := r.printed;
    second := contract.DGreeting(o, o);
  }
}
