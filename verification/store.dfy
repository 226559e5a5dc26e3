/**
 * The transaction coordinator (`execTx`) and the money-transfer unit of work
 * (`TransferTx`) of the store.
 */
module Store {
  import opened Wrappers
  import opened GoInt
  import opened Queries

  /**
   * What the database answers outside the queries themselves: whether
   * BeginTx, Rollback and Commit fail (with which message), and the faults
   * injected into the queries of the transaction.
   */
  datatype TxOracle = TxOracle(
    begin: Option<string>,
    rollback: Option<string>,
    commit: Option<string>,
    faults: map<nat, string>)

  /** One step of a transaction as the database sees it. */
  datatype Event = Begin | Issue(q: Query) | Commit | Rollback

  /** What a unit of work leaves behind: its transaction, the value it captured, and its error. */
  datatype Work<T> = Work(tx: Tx, value: T, err: Option<Error>)

  /**
   * The outcome of `execTx`: the visible database afterwards, the events sent
   * to the database, the value the unit of work captured (None when it never
   * ran), and the returned error.
   */
  datatype Run<T> = Run(db: Db, events: seq<Event>, captured: Option<T>, err: Option<Error>)

  /** The database events of a sequence of issued queries. */
  function Issued(qs: seq<Query>): (es: seq<Event>)
    ensures |es| == |qs|
    ensures forall i :: 0 <= i < |qs| ==> es[i] == Issue(qs[i])
  {
    if qs == [] then [] else [Issue(qs[0])] + Issued(qs[1..])
  }

  /** How many times a transaction was finished, by commit or by rollback. */
  function Resolutions(es: seq<Event>): nat {
    multiset(es)[Commit] + multiset(es)[Rollback]
  }

  /** The text of an error, with the format `execTx` uses when the rollback fails too. */
  function Message(e: Error): string {
    match e
    case NoRows => "sql: no rows in result set"
    case DbFailure(m) => m
    case TxAndRollback(txErr, rbErr) => "tx err: " + Message(txErr) + ", rb err: " + Message(rbErr)
  }

  /**
   * `execTx`: begins a transaction, runs the unit of work on a view bound to
   * it, rolls back on failure and otherwise returns the commit result.
   */
  function ExecTx<T>(db: Db, o: TxOracle, work: Tx -> Work<T>): (r: Run<T>)
    ensures |r.events| >= 1 && r.events[0] == Begin
    ensures r.captured.None? <==> o.begin.Some?
    ensures o.begin.Some? ==> r.events == [Begin] && r.err == Some(DbFailure(o.begin.value))
    ensures o.begin.None? ==> Resolutions(r.events) == 1
    ensures o.begin.None? ==>
              (Rollback in r.events <==> work(Tx(db, [], o.faults)).err.Some?)
    ensures r.err.Some? ==> r.db == db
    ensures r.err.None? ==> r.db == work(Tx(db, [], o.faults)).tx.db
  {
    if o.begin.Some? then
      Run(db, [Begin], None, Some(DbFailure(o.begin.value)))
    else
      var w := work(Tx(db, [], o.faults));
      var sent := [Begin] + Issued(w.tx.issued);
      assert Commit !in sent && Rollback !in sent;
      if w.err.Some? then
        var e := if o.rollback.Some? then TxAndRollback(w.err.value, DbFailure(o.rollback.value)) else w.err.value;
        Run(db, sent + [Rollback], Some(w.value), Some(e))
      else
        var e := if o.commit.Some? then Some(DbFailure(o.commit.value)) else None;
        Run(if e.Some? then db else w.tx.db, sent + [Commit], Some(w.value), e)
  }

  datatype TransferTxParams = TransferTxParams(fromAccountId: int64, toAccountId: int64, amount: int64)

  datatype TransferTxResult = TransferTxResult(
    transfer: Transfer,
    fromAccount: Account,
    toAccount: Account,
    fromEntry: Entry,
    toEntry: Entry)

  const ZeroResult: TransferTxResult :=
    TransferTxResult(ZeroTransfer, ZeroAccount, ZeroAccount, ZeroEntry, ZeroEntry)

  /**
   * The unit of work of `TransferTx`: record the transfer and its two entries,
   * then read both accounts and write both balances. The result keeps every
   * field filled before a failure.
   */
  function TransferWork(arg: TransferTxParams, t: Tx): Work<TransferTxResult> {
    var recorded := RecordTransfer(arg, t);
    if recorded.err.Some? then recorded
    else MoveMoney(arg, recorded.tx, recorded.value)
  }

  /** Steps 1-3: the transfer row, the debit entry on the sender, the credit entry on the receiver. */
  function RecordTransfer(arg: TransferTxParams, t: Tx): Work<TransferTxResult> {
    var ct := CreateTransfer(t, arg.fromAccountId, arg.toAccountId, arg.amount);
    if ct.out.Err? then Work(ct.tx, ZeroResult, Some(ct.out.error)) else
    var res1 := ZeroResult.(transfer := ct.out.value);
    var fe := CreateEntry(ct.tx, arg.fromAccountId, Neg(arg.amount));
    if fe.out.Err? then Work(fe.tx, res1, Some(fe.out.error)) else
    var res2 := res1.(fromEntry := fe.out.value);
    var te := CreateEntry(fe.tx, arg.toAccountId, arg.amount);
    if te.out.Err? then Work(te.tx, res2, Some(te.out.error)) else
    Work(te.tx, res2.(toEntry := te.out.value), None)
  }

  /** Steps 4-5: read both accounts inside the transaction, then write both balances. */
  function MoveMoney(arg: TransferTxParams, t: Tx, res: TransferTxResult): Work<TransferTxResult> {
    var ga := GetAccount(t, arg.fromAccountId);
    if ga.out.Err? then Work(ga.tx, res, Some(ga.out.error)) else
    var gb := GetAccount(ga.tx, arg.toAccountId);
    if gb.out.Err? then Work(gb.tx, res, Some(gb.out.error)) else
    UpdateBalances(gb.tx, arg, ga.out.value, gb.out.value, res)
  }

  /** The two balance writes, in ascending account-id order. */
  function UpdateBalances(t: Tx, arg: TransferTxParams, fromAccount: Account, toAccount: Account,
                          res: TransferTxResult): Work<TransferTxResult>
  {
    if arg.fromAccountId < arg.toAccountId then
      var u1 := UpdateAccount(t, fromAccount.id, Sub(fromAccount.balance, arg.amount));
      if u1.out.Err? then Work(u1.tx, res, Some(u1.out.error)) else
      var res1 := res.(fromAccount := u1.out.value);
      var u2 := UpdateAccount(u1.tx, toAccount.id, Add(toAccount.balance, arg.amount));
      if u2.out.Err? then Work(u2.tx, res1, Some(u2.out.error)) else
      Work(u2.tx, res1.(toAccount := u2.out.value), None)
    else
      var u1 := UpdateAccount(t, toAccount.id, Add(toAccount.balance, arg.amount));
      if u1.out.Err? then Work(u1.tx, res, Some(u1.out.error)) else
      var res1 := res.(toAccount := u1.out.value);
      var u2 := UpdateAccount(u1.tx, fromAccount.id, Sub(fromAccount.balance, arg.amount));
      if u2.out.Err? then Work(u2.tx, res1, Some(u2.out.error)) else
      Work(u2.tx, res1.(fromAccount := u2.out.value), None)
  }

  /** What `TransferTx` returns, together with the database and the events it caused. */
  datatype TransferRun = TransferRun(result: TransferTxResult, err: Option<Error>, db: Db, events: seq<Event>)

  /** `TransferTx`: the transfer unit of work run under `execTx`. */
  function TransferTx(db: Db, o: TxOracle, arg: TransferTxParams): (r: TransferRun)
    ensures r.err.Some? ==> r.db == db
    ensures o.begin.Some? ==> r.result == ZeroResult && r.events == [Begin]
  {
    var run := ExecTx(db, o, t => TransferWork(arg, t));
    TransferRun(run.captured.GetOr(ZeroResult), run.err, run.db, run.events)
  }
}
