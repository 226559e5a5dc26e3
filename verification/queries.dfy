/**
 * The sqlc-generated repository that the transfer engine runs against, as an
 * abstract relational store. Its SQL is not part of this model: each query
 * either fails or inserts, reads or overwrites exactly the row its arguments
 * name, and every query the caller issues is recorded in the transaction.
 */
module Queries {
  import opened Wrappers
  import opened GoInt

  datatype Account = Account(id: int64, owner: string, balance: int64, currency: string)
  datatype Entry = Entry(id: nat, accountId: int64, amount: int64)
  datatype Transfer = Transfer(id: nat, fromAccountId: int64, toAccountId: int64, amount: int64)

  /** Go zero values, which a result field keeps until its query succeeds. */
  const ZeroAccount: Account := Account(0, "", 0, "")
  const ZeroEntry: Entry := Entry(0, 0, 0)
  const ZeroTransfer: Transfer := Transfer(0, 0, 0, 0)

  /** The visible database: accounts by id, and the entry and transfer tables in insertion order. */
  datatype Db = Db(accounts: map<int64, Account>, entries: seq<Entry>, transfers: seq<Transfer>)

  /** Row identity of accounts: each is stored under its own id. */
  ghost predicate AccountsKeyed(db: Db) {
    forall id :: id in db.accounts ==> db.accounts[id].id == id
  }

  /** The serial ids of entries and transfers count up from 1, without gaps. */
  ghost predicate SerialIds(db: Db) {
    && (forall i :: 0 <= i < |db.entries| ==> db.entries[i].id == i + 1)
    && (forall i :: 0 <= i < |db.transfers| ==> db.transfers[i].id == i + 1)
  }

  ghost predicate Valid(db: Db) {
    AccountsKeyed(db) && SerialIds(db)
  }

  /** A statement sent to the database inside a transaction. */
  datatype Query =
    | CreateTransferQ(fromAccountId: int64, toAccountId: int64, amount: int64)
    | CreateEntryQ(accountId: int64, amount: int64)
    | GetAccountQ(id: int64)
    | UpdateAccountQ(id: int64, balance: int64)

  /** Errors the store reports: no matching row, a database failure, or a failed rollback after a failed unit of work. */
  datatype Error =
    | NoRows
    | DbFailure(message: string)
    | TxAndRollback(txErr: Error, rbErr: Error)

  /**
   * A transaction-bound view of the store: the uncommitted state, the queries
   * issued so far, and the fault oracle, which maps the position of a query
   * within the transaction to the database error it meets.
   */
  datatype Tx = Tx(db: Db, issued: seq<Query>, faults: map<nat, string>)

  /** What a query hands back: the transaction after it, and its row or error. */
  datatype Answer<T> = Answer(tx: Tx, out: Result<T, Error>)

  /** Records `q` as issued; the database error it meets, if the oracle injects one. */
  function Send(t: Tx, q: Query): (r: (Tx, Option<Error>))
    ensures r.0 == t.(issued := t.issued + [q])
    ensures r.1.Some? <==> |t.issued| in t.faults
  {
    var pos := |t.issued|;
    (t.(issued := t.issued + [q]), if pos in t.faults then Some(DbFailure(t.faults[pos])) else None)
  }

  /** INSERT INTO transfers ... RETURNING *. */
  function CreateTransfer(t: Tx, fromId: int64, toId: int64, amount: int64): (a: Answer<Transfer>)
    ensures a.tx.issued == t.issued + [CreateTransferQ(fromId, toId, amount)]
    ensures a.tx.faults == t.faults
    ensures a.out.Err? ==> a.tx.db == t.db
    ensures Valid(t.db) ==> Valid(a.tx.db)
    ensures a.out.Ok? ==> a.tx.db.accounts == t.db.accounts && a.tx.db.entries == t.db.entries
    ensures a.out.Ok? ==> a.tx.db.transfers == t.db.transfers + [a.out.value]
    ensures a.out.Ok? ==> a.out.value.fromAccountId == fromId && a.out.value.toAccountId == toId
                          && a.out.value.amount == amount
  {
    var (t', fault) := Send(t, CreateTransferQ(fromId, toId, amount));
    if fault.Some? then Answer(t', Err(fault.value))
    else
      var row := Transfer(|t.db.transfers| + 1, fromId, toId, amount);
      Answer(t'.(db := t.db.(transfers := t.db.transfers + [row])), Ok(row))
  }

  /** INSERT INTO entries ... RETURNING *. */
  function CreateEntry(t: Tx, accountId: int64, amount: int64): (a: Answer<Entry>)
    ensures a.tx.issued == t.issued + [CreateEntryQ(accountId, amount)]
    ensures a.tx.faults == t.faults
    ensures a.out.Err? ==> a.tx.db == t.db
    ensures Valid(t.db) ==> Valid(a.tx.db)
    ensures a.out.Ok? ==> a.tx.db.accounts == t.db.accounts && a.tx.db.transfers == t.db.transfers
    ensures a.out.Ok? ==> a.tx.db.entries == t.db.entries + [a.out.value]
    ensures a.out.Ok? ==> a.out.value.accountId == accountId && a.out.value.amount == amount
  {
    var (t', fault) := Send(t, CreateEntryQ(accountId, amount));
    if fault.Some? then Answer(t', Err(fault.value))
    else
      var row := Entry(|t.db.entries| + 1, accountId, amount);
      Answer(t'.(db := t.db.(entries := t.db.entries + [row])), Ok(row))
  }

  /** SELECT * FROM accounts WHERE id = $1: sql.ErrNoRows when the account does not exist. */
  function GetAccount(t: Tx, id: int64): (a: Answer<Account>)
    ensures a.tx.issued == t.issued + [GetAccountQ(id)]
    ensures a.tx.faults == t.faults
    ensures a.tx.db == t.db
    ensures a.out.Ok? <==> |t.issued| !in t.faults && id in t.db.accounts
    ensures a.out.Ok? ==> a.out.value == t.db.accounts[id]
  {
    var (t', fault) := Send(t, GetAccountQ(id));
    if fault.Some? then Answer(t', Err(fault.value))
    else if id !in t.db.accounts then Answer(t', Err(NoRows))
    else Answer(t', Ok(t.db.accounts[id]))
  }

  /** UPDATE accounts SET balance = $2 WHERE id = $1 RETURNING *. */
  function UpdateAccount(t: Tx, id: int64, balance: int64): (a: Answer<Account>)
    ensures a.tx.issued == t.issued + [UpdateAccountQ(id, balance)]
    ensures a.tx.faults == t.faults
    ensures a.out.Ok? <==> |t.issued| !in t.faults && id in t.db.accounts
    ensures a.out.Err? ==> a.tx.db == t.db
    ensures AccountsKeyed(t.db) ==> AccountsKeyed(a.tx.db)
    ensures Valid(t.db) ==> Valid(a.tx.db)
    ensures a.out.Ok? ==> a.tx.db.entries == t.db.entries && a.tx.db.transfers == t.db.transfers
    ensures a.out.Ok? ==> a.tx.db.accounts.Keys == t.db.accounts.Keys
    ensures a.out.Ok? ==> a.out.value == t.db.accounts[id].(balance := balance)
                          && a.tx.db.accounts[id] == a.out.value
    ensures a.out.Ok? ==> forall other :: other in t.db.accounts && other != id ==>
                            a.tx.db.accounts[other] == t.db.accounts[other]
  {
    var (t', fault) := Send(t, UpdateAccountQ(id, balance));
    if fault.Some? then Answer(t', Err(fault.value))
    else if id !in t.db.accounts then Answer(t', Err(NoRows))
    else
      var row := t.db.accounts[id].(balance := balance);
      Answer(t'.(db := t.db.(accounts := t.db.accounts[id := row])), Ok(row))
  }

  /** SELECT * FROM transfers WHERE id = $1, as a scan of the transfer table. */
  function GetTransfer(db: Db, id: nat): (r: Result<Transfer, Error>)
    ensures r.Ok? ==> r.value in db.transfers && r.value.id == id
    ensures r.Err? ==> r.error == NoRows && forall t :: t in db.transfers ==> t.id != id
  {
    FindTransfer(db.transfers, id)
  }

  function FindTransfer(rows: seq<Transfer>, id: nat): (r: Result<Transfer, Error>)
    ensures r.Ok? ==> r.value in rows && r.value.id == id
    ensures r.Err? ==> r.error == NoRows && forall t :: t in rows ==> t.id != id
  {
    if rows == [] then Err(NoRows)
    else if rows[0].id == id then Ok(rows[0])
    else FindTransfer(rows[1..], id)
  }

  /**
   * Read-back: a transfer created in a store with gap-free ids is found again by its id,
   * with the sender, receiver and amount it was created with.
   */
  lemma {:induction false} CreatedTransferReadsBack(t: Tx, fromId: int64, toId: int64, amount: int64)
    requires SerialIds(t.db)
    requires CreateTransfer(t, fromId, toId, amount).out.Ok?
    ensures var a := CreateTransfer(t, fromId, toId, amount);
            GetTransfer(a.tx.db, a.out.value.id) == Ok(Transfer(a.out.value.id, fromId, toId, amount))
  {
    var a := CreateTransfer(t, fromId, toId, amount);
    var rows := a.tx.db.transfers;
    UniqueIdFoundShifted(rows, |rows| - 1, 0);
  }

  lemma {:induction false} UniqueIdFoundShifted(rows: seq<Transfer>, k: nat, base: nat)
    requires k < |rows|
    requires forall i :: 0 <= i < |rows| ==> rows[i].id == i + 1 + base
    ensures FindTransfer(rows, k + 1 + base) == Ok(rows[k])
  {
    if k == 0 {
    } else {
      var tail := rows[1..];
      forall i | 0 <= i < |tail|
        ensures tail[i].id == i + 1 + (base + 1)
      {
        assert tail[i] == rows[i + 1];
      }
      UniqueIdFoundShifted(tail, k - 1, base + 1);
    }
  }
}
