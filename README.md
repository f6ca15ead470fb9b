# multigreet, modelled in Dafny

`multigreet` is an EOSIO smart contract that keeps one personal greeting per account in a
single `multi_index` table named `greetings`. Each row is a `greeting` struct
`{account, greeting_text}` whose primary key is `account.value`. The contract exposes four
actions:

- `cgreeting(account, text)` creates the account's greeting and aborts if one exists.
- `ugreeting(account, text)` replaces the text and aborts if there is no greeting.
- `dgreeting(account)` erases the greeting and aborts if there is none.
- `greet(account)` prints the stored text, or `Hello ` followed by the account's name when
  nothing is stored.

Every action first calls `require_auth(account)`.

The model has four modules:

- `GreetingTable` (`greeting_table.dfy`): the account name (a 64-bit value), the row, the
  table as a `map` from primary key to row, and the invariant `Keyed` that every row sits
  under its own key. It also has the `find` lookup and the abstract view
  `Lookup(rows, account)`, which gives the text stored for an account.
- `Actions` (`actions.dfy`): each action as a function from the table before the call to the
  table after it and the action's `Outcome`. An outcome is either `Ok(printed)` or an `Abort`
  carrying the `require_auth` failure or the `eosio_assert` message. `Step` dispatches one
  call. `Run` runs a sequence of calls.
- `Properties` (`properties.dfy`): lemmas about sequences of calls. They cover the intended
  scenarios (create then read, create twice, update of an absent greeting,
  create/update/read, create/delete/read/delete). They also cover three facts that hold for
  every trace:
  - a trace of aborted calls changes nothing;
  - only an account itself can change its greeting;
  - accounts do not interfere.
- `Contract` (`contract.dfy`): the class `Multigreet`. Its field `greetings` is changed in
  place by the three mutating actions. Each method is proved to have exactly the effect and
  outcome that the matching `Actions` function gives. `Greet` only reads the table.
  `CreateUpdateGreet` and `DeleteGreetDelete` are clients that use the class.

One might expect an update to write a fresh `{account, text}` row, and both missing-row errors
to be a single "not found" error. The code differs on both counts:

- An update keeps the stored row and changes only its text (`modify` on the found row). It
  does not write a fresh `{account, text}` row.
- Delete and update report different messages when no greeting exists.

The model follows the code in both cases.

## Model

| member | source | states |
|---|---|---|
| GreetingTable.PrimaryKey | multigreet.cpp:84 | a row's primary key identifies its account: a name has that key exactly when it is the row's account |
| GreetingTable.Keyed | multigreet.cpp:80-89 | the `multi_index` primary-key rule: every row sits under its own account's value, so two rows of the same account are the same row |
| GreetingTable.Find | multigreet.cpp:22 | `find(account.value)` returns a row exactly when the account's key is in the table, and in a keyed table that row belongs to the account |
| GreetingTable.Lookup | multigreet.cpp:80-84 | in a keyed table an account has a greeting exactly when some row belongs to it, and the greeting is that row's text |
| GreetingTable.AtMostOneRowPerAccount | multigreet.cpp:82-84 | unique key: in a keyed table two rows of the same account are the same row |
| Actions.Authorized | multigreet.cpp:18 | `require_auth(account)` with a single signer passes exactly when the caller's name value is the account's |
| Actions.CGreeting | multigreet.cpp:16-33 | aborts with missing authority exactly when the caller is not the account; aborts with "already created" exactly when an authorized account already has a greeting; succeeds exactly when the caller is the account and it has no greeting; an abort leaves the table as it was; success adds exactly one row, after which the account reads the new text and every other account reads what it read before; keyed tables stay keyed |
| Actions.UGreeting | multigreet.cpp:36-48 | aborts with missing authority exactly when the caller is not the account; aborts with "No greeting found ... Use cgreeting" exactly when an authorized account has no greeting; succeeds exactly when the caller is the account and it has a greeting; never adds or removes a key; success makes the account read the new text and keeps every row's account and every other account's greeting |
| Actions.DGreeting | multigreet.cpp:51-58 | aborts with missing authority exactly when the caller is not the account; aborts with "No greeting found" exactly when an authorized account has no greeting; succeeds exactly when the caller is the account and it has a greeting; success removes exactly the account's key and one row; afterwards the account has no greeting, and other accounts keep theirs |
| Actions.Greet | multigreet.cpp:61-75 | never changes the table; aborts exactly when the caller is not the account; otherwise prints the stored text, or "Hello " followed by the account's name when none is stored |
| Actions.Step | multigreet.cpp:15-75 | every action first checks authority: an unauthorized call aborts with missing authority and changes nothing; any abort leaves the table as it was; a call changes no greeting except its own account's; keyed tables stay keyed |
| Actions.Run | multigreet.cpp:15-75 | a trace yields one outcome per call, and the one-row-per-account invariant holds after any trace |
| Properties.CreateThenGreet | multigreet.cpp:16-75 | creating a greeting and then reading it succeeds twice and prints the created text |
| Properties.CreateTwiceKeepsFirst | multigreet.cpp:22-32 | a second create aborts with "already created", and the account keeps the first text |
| Properties.UpdateAbsentCreatesNothing | multigreet.cpp:39-41 | an authorized update of an absent greeting aborts and leaves the table unchanged |
| Properties.CreateUpdateGreet | multigreet.cpp:16-75 | create, update, read: all three succeed and the read prints the updated text |
| Properties.CreateDeleteGreet | multigreet.cpp:16-75 | create, delete, read, delete: the read prints "Hello " and the account's name, and the second delete aborts with "No greeting found" |
| Properties.GreetDefault | multigreet.cpp:66-68 | an account without a greeting whose name is spelled `alice` is greeted with "Hello alice" |
| Properties.AllAbortedLeavesTable | multigreet.cpp:24 | abort atomicity over a trace: when every call aborts, the table is unchanged |
| Properties.OnlyOwnerChangesGreeting | multigreet.cpp:18 | an account's greeting is unchanged by any trace of calls in which that account is never the caller |
| Properties.StepIsLocal | multigreet.cpp:15-75 | a call's outcome, and its effect on its own account, depend only on that account's current greeting |
| Properties.RunIsLocal | multigreet.cpp:15-75 | after any trace, an account's greeting equals the result of running only the calls that name that account |
| Contract.Multigreet.constructor | multigreet.cpp:12 | the contract opens over an existing keyed table and does not change it |
| Contract.Multigreet.CGreeting | multigreet.cpp:16-33 | the table and outcome equal those of `Actions.CGreeting`; an abort changes nothing; success emplaces `{account, text}` under the account's key; the invariant is kept |
| Contract.Multigreet.UGreeting | multigreet.cpp:36-48 | the table and outcome equal those of `Actions.UGreeting`; an abort changes nothing; success requires an existing row and rewrites only that row's text |
| Contract.Multigreet.DGreeting | multigreet.cpp:51-58 | the table and outcome equal those of `Actions.DGreeting`; an abort changes nothing; success requires an existing row and erases exactly its key |
| Contract.Multigreet.Greet | multigreet.cpp:61-75 | the outcome equals that of `Actions.Greet`; it succeeds exactly when the caller is the account, and then prints the stored text or "Hello " followed by the name |
| Contract.CreateUpdateGreet | multigreet.cpp:16-75 | on an account with no greeting, create, update and read through the class succeed; the read prints the updated text, which the account keeps, and every other account's greeting is unchanged |
| Contract.DeleteGreetDelete | multigreet.cpp:51-75 | on an account with a greeting, delete then read prints "Hello " and the name; a second delete aborts with "No greeting found"; the table loses exactly that account's row |

## Left out

- Action dispatch by name (`EOSIO_DISPATCH`), the ABI attributes and the `EOSLIB_SERIALIZE`
  row encoding are platform macros. `Actions.Step` stands in for the dispatcher.
- `multi_index` internals are modelled as a plain `map` from primary key to row. These
  internals are the table's code and scope (`_self`), the RAM payer given to `emplace` and
  `modify`, and iterators. `emplace` and `modify` abort when the payer's RAM quota is
  exhausted; the model has no quota, so a create or update that passes its checks always
  succeeds.
- `require_auth` is modelled as the comparison `caller == account`. The model does not cover
  a transaction signed by several accounts, or permission levels.
- How an `eosio::name` is spelled as text is the host's base-32 decoding. It is not part of
  this model. `greet` takes that spelling as the parameter `nameText`.
- `print` is modelled as the `printed` string of an `Ok` outcome. The mutating actions print
  nothing.
- An aborted action in EOSIO reverts its whole transaction, including earlier actions in the
  same transaction. `Run` treats every call as its own transaction.
- The text of the `require_auth` failure message comes from the host. It is modelled only as
  `MissingAuthority(account)`.
- `greet` reads the row a second time with `get` after `find` has found it (line 71). The
  model reads it once, because both reads return the same row.
