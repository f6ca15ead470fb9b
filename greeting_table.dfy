/** The contract's one table: rows of `greeting`, keyed by the account's 64-bit name value. */
module GreetingTable {

  /** The width of an `eosio::name` value and of a `multi_index` primary key. */
  newtype uint64 = x: int | 0 <= x < 0x1_0000_0000_0000_0000

  /** An account name. On chain a name is nothing but its 64-bit value; how that value is
      spelled as text is the host's business (see `Actions.Greet`). */
  datatype Name = Name(value: uint64)

  datatype Option<T> = None | Some(value: T)

  /** One table row: the account it belongs to and the text `greet` prints for it. */
  datatype Greeting = Greeting(account: Name, greetingText: string)

  /** The row's primary key is the value of its account name. */
  function PrimaryKey(g: Greeting): (k: uint64)
    ensures forall n: Name :: n == g.account <==> n.value == k
  {
    g.account.value
  }

  /** The `greetings` table, from primary key to row. */
  type Rows = map<uint64, Greeting>

  /** Every row is stored under its own primary key (what `multi_index` maintains). */
  ghost predicate Keyed(rows: Rows)
    ensures Keyed(rows) ==>
              forall k1, k2 :: k1 in rows && k2 in rows && rows[k1].account == rows[k2].account ==> k1 == k2
  {
    forall k :: k in rows ==> PrimaryKey(rows[k]) == k
  }

  /** `greetings.find(account.value)`: the row stored under the account's key, if any. */
  function Find(rows: Rows, account: Name): (r: Option<Greeting>)
    ensures r.Some? <==> account.value in rows
    ensures r.Some? ==> r.value == rows[account.value]
    ensures Keyed(rows) && r.Some? ==> r.value.account == account
  {
    if account.value in rows then Some(rows[account.value]) else None
  }

  /** The abstract view of the table: the greeting text stored for an account, if any. */
  function Lookup(rows: Rows, account: Name): (r: Option<string>)
    ensures Keyed(rows) ==> (r.Some? <==> exists k :: k in rows && rows[k].account == account)
    ensures Keyed(rows) ==>
              forall k :: k in rows && rows[k].account == account ==> r == Some(rows[k].greetingText)
  {
    match Find(rows, account)
    case Some(g) => Some(g.greetingText)
    case None => None
  }

  /** Unique key: in a keyed table no two rows belong to the same account. */
  lemma AtMostOneRowPerAccount(rows: Rows, k1: uint64, k2: uint64)
    requires Keyed(rows)
    requires k1 in rows && k2 in rows
    requires rows[k1].account == rows[k2].account
    ensures k1 == k2
  {
  }
}
