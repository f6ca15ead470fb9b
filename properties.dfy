/** Properties of sequences of actions: the scenarios the contract is meant to support, and
    what holds of every trace of calls. */
module Properties {
  import opened GreetingTable
  import opened Actions

  /** A call, as the dispatcher would receive it from `account` acting for itself. */
  function Own(action: Action): Call {
    Call(action.account, action)
  }

  /** Creating a greeting and then reading it prints the created text. */
  lemma CreateThenGreet(rows: Rows, o: Name, t: string, nameText: Name -> string)
    requires Lookup(rows, o) == None
    ensures Run(rows, [Own(CreateAction(o, t)), Own(GreetAction(o))], nameText).outcomes
            == [Ok(""), Ok(t)]
  {
    var calls := [Own(CreateAction(o, t)), Own(GreetAction(o))];
    assert calls[1..] == [Own(GreetAction(o))];
  }

  /** A second create for the same account aborts and keeps the first text. */
  lemma CreateTwiceKeepsFirst(rows: Rows, o: Name, t1: string, t2: string, nameText: Name -> string)
    requires Lookup(rows, o) == None
    ensures var r := Run(rows, [Own(CreateAction(o, t1)), Own(CreateAction(o, t2))], nameText);
            r.outcomes == [Ok(""), Abort(AssertFailed(AlreadyCreated))] && Lookup(r.rows, o) == Some(t1)
  {
    var calls := [Own(CreateAction(o, t1)), Own(CreateAction(o, t2))];
    var s1 := Step(rows, calls[0], nameText);
    assert Lookup(s1.rows, o) == Some(t1);
    var s2 := Step(s1.rows, calls[1], nameText);
    assert s2 == Result(s1.rows, Abort(AssertFailed(AlreadyCreated)));
    assert calls[1..] == [calls[1]] && calls[1..][1..] == [];
    assert Run(s1.rows, calls[1..], nameText) == Trace(s1.rows, [s2.outcome]);
  }

  /** Updating an absent greeting aborts and creates nothing. */
  lemma UpdateAbsentCreatesNothing(rows: Rows, o: Name, t: string)
    requires Lookup(rows, o) == None
    ensures UGreeting(rows, o, o, t) == Result(rows, Abort(AssertFailed(NoGreetingToUpdate)))
  {
  }

  /** Create, update, read: the read prints the updated text. */
  lemma CreateUpdateGreet(rows: Rows, o: Name, t1: string, t2: string, nameText: Name -> string)
    requires Lookup(rows, o) == None
    ensures Run(rows, [Own(CreateAction(o, t1)), Own(UpdateAction(o, t2)), Own(GreetAction(o))],
                nameText).outcomes
            == [Ok(""), Ok(""), Ok(t2)]
  {
    var calls := [Own(CreateAction(o, t1)), Own(UpdateAction(o, t2)), Own(GreetAction(o))];
    var s1 := Step(rows, calls[0], nameText);
    assert s1.outcome == Ok("") && Lookup(s1.rows, o) == Some(t1);
    var s2 := Step(s1.rows, calls[1], nameText);
    assert s2.outcome == Ok("") && Lookup(s2.rows, o) == Some(t2);
    var s3 := Step(s2.rows, calls[2], nameText);
    assert s3 == Result(s2.rows, Ok(t2));
    assert calls[1..][1..] == [calls[2]] && calls[1..][1..][1..] == [];
    assert Run(s2.rows, calls[1..][1..], nameText) == Trace(s2.rows, [s3.outcome]);
    assert Run(s1.rows, calls[1..], nameText) == Trace(s2.rows, [s2.outcome, s3.outcome]);
  }

  /** Create, delete, read, delete: the read falls back to the default greeting and the second
      delete finds nothing to erase. */
  lemma CreateDeleteGreet(rows: Rows, o: Name, t: string, nameText: Name -> string)
    requires Lookup(rows, o) == None
    ensures Run(rows, [Own(CreateAction(o, t)), Own(DeleteAction(o)), Own(GreetAction(o)),
                       Own(DeleteAction(o))], nameText).outcomes
            == [Ok(""), Ok(""), Ok("Hello " + nameText(o)), Abort(AssertFailed(NoGreetingToDelete))]
  {
    var calls := [Own(CreateAction(o, t)), Own(DeleteAction(o)), Own(GreetAction(o)),
                  Own(DeleteAction(o))];
    var s1 := Step(rows, calls[0], nameText);
    assert s1.outcome == Ok("") && Lookup(s1.rows, o) == Some(t);
    var s2 := Step(s1.rows, calls[1], nameText);
    assert s2.outcome == Ok("") && Lookup(s2.rows, o) == None;
    var s3 := Step(s2.rows, calls[2], nameText);
    assert s3 == Result(s2.rows, Ok("Hello " + nameText(o)));
    var s4 := Step(s3.rows, calls[3], nameText);
    assert s4 == Result(s2.rows, Abort(AssertFailed(NoGreetingToDelete)));
    var tail := calls[1..][1..][1..];
    assert tail == [calls[3]] && tail[1..] == [];
    assert Run(s3.rows, tail, nameText) == Trace(s3.rows, [s4.outcome]);
    assert Run(s2.rows, calls[1..][1..], nameText) == Trace(s3.rows, [s3.outcome, s4.outcome]);
    assert Run(s1.rows, calls[1..], nameText).outcomes == [s2.outcome, s3.outcome, s4.outcome];
  }

  /** An account that never created a greeting is greeted by name: `alice` gets "Hello alice". */
  lemma GreetDefault(rows: Rows, alice: Name, nameText: Name -> string)
    requires Lookup(rows, alice) == None
    requires nameText(alice) == "alice"
    ensures Greet(rows, alice, alice, nameText).outcome == Ok("Hello alice")
  {
  }

  /** Atomicity over a trace: when every call aborts, the table is as it was. */
  lemma {:induction false} AllAbortedLeavesTable(rows: Rows, calls: seq<Call>, nameText: Name -> string)
    requires forall i :: 0 <= i < |calls| ==> Run(rows, calls, nameText).outcomes[i].Abort?
    ensures Run(rows, calls, nameText).rows == rows
    decreases |calls|
  {
    if calls != [] {
      var first := Step(rows, calls[0], nameText);
      var r := Run(rows, calls, nameText);
      assert r.outcomes[0] == first.outcome;
      forall i | 0 <= i < |calls[1..]|
        ensures Run(first.rows, calls[1..], nameText).outcomes[i].Abort?
      {
        assert Run(first.rows, calls[1..], nameText).outcomes[i] == r.outcomes[i + 1];
      }
      AllAbortedLeavesTable(first.rows, calls[1..], nameText);
    }
  }

  /** Only an account itself can change its greeting: a trace in which `n` never calls leaves
      `n`'s greeting as it was, whatever the other accounts do. */
  lemma {:induction false} OnlyOwnerChangesGreeting(rows: Rows, calls: seq<Call>, n: Name,
                                                    nameText: Name -> string)
    requires forall i :: 0 <= i < |calls| ==> calls[i].caller != n
    ensures Lookup(Run(rows, calls, nameText).rows, n) == Lookup(rows, n)
    decreases |calls|
  {
    if calls != [] {
      var first := Step(rows, calls[0], nameText);
      assert Lookup(first.rows, n) == Lookup(rows, n);
      OnlyOwnerChangesGreeting(first.rows, calls[1..], n, nameText);
    }
  }

  /** The calls of a trace that name `account`, in their order. */
  function CallsFor(calls: seq<Call>, account: Name): (r: seq<Call>)
    ensures |r| <= |calls|
    ensures forall c :: c in r <==> c in calls && c.action.account == account
    decreases |calls|
  {
    if calls == [] then []
    else if calls[0].action.account == account then [calls[0]] + CallsFor(calls[1..], account)
    else CallsFor(calls[1..], account)
  }

  /** One call's effect on its own account depends only on that account's greeting. */
  lemma StepIsLocal(rows1: Rows, rows2: Rows, call: Call, nameText: Name -> string)
    requires Lookup(rows1, call.action.account) == Lookup(rows2, call.action.account)
    ensures Step(rows1, call, nameText).outcome == Step(rows2, call, nameText).outcome
    ensures Lookup(Step(rows1, call, nameText).rows, call.action.account)
            == Lookup(Step(rows2, call, nameText).rows, call.action.account)
  {
  }

  /** Accounts do not interfere: an account's greeting after a trace is what it would be had
      only the calls naming that account been run. */
  lemma {:induction false} RunIsLocal(rows1: Rows, rows2: Rows, calls: seq<Call>, account: Name,
                                      nameText: Name -> string)
    requires Lookup(rows1, account) == Lookup(rows2, account)
    ensures Lookup(Run(rows1, calls, nameText).rows, account)
            == Lookup(Run(rows2, CallsFor(calls, account), nameText).rows, account)
    decreases |calls|
  {
    if calls != [] {
      var first := Step(rows1, calls[0], nameText);
      if calls[0].action.account == account {
        StepIsLocal(rows1, rows2, calls[0], nameText);
        var calls2 := [calls[0]] + CallsFor(calls[1..], account);
        assert calls2[0] == calls[0] && calls2[1..] == CallsFor(calls[1..], account);
        RunIsLocal(first.rows, Step(rows2, calls[0], nameText).rows, calls[1..], account, nameText);
      } else {
        RunIsLocal(first.rows, rows2, calls[1..], account, nameText);
      }
    }
  }
}
