/**
 * Properties of the coordinator and of the money transfer: atomicity, the
 * order of the writes, the balances written, and when a transfer commits.
 */
module TransferProps {
  import opened Wrappers
  import opened GoInt
  import opened Queries
  import opened Store

  /** The account the transfer updates first: the lower of the two ids. */
  function Lo(arg: TransferTxParams): int64 {
    if arg.fromAccountId < arg.toAccountId then arg.fromAccountId else arg.toAccountId
  }

  /** The account the transfer updates second. */
  function Hi(arg: TransferTxParams): int64 {
    if arg.fromAccountId < arg.toAccountId then arg.toAccountId else arg.fromAccountId
  }

  function BalanceOr0(db: Db, id: int64): int64 {
    if id in db.accounts then db.accounts[id].balance else 0
  }

  /**
   * Every query a transfer can issue, in the order it issues them; the
   * balances written are the ones read inside the transaction.
   */
  function Plan(arg: TransferTxParams, db: Db): seq<Query> {
    var f := arg.fromAccountId;
    var t := arg.toAccountId;
    var debit := UpdateAccountQ(f, Sub(BalanceOr0(db, f), arg.amount));
    var credit := UpdateAccountQ(t, Add(BalanceOr0(db, t), arg.amount));
    [CreateTransferQ(f, t, arg.amount), CreateEntryQ(f, Neg(arg.amount)), CreateEntryQ(t, arg.amount),
     GetAccountQ(f), GetAccountQ(t)]
    + (if f < t then [debit, credit] else [credit, debit])
  }

  /** The account ids of the balance writes in a sequence of events, in order. */
  function UpdatedIds(es: seq<Event>): seq<int64> {
    if es == [] then []
    else (if es[0].Issue? && es[0].q.UpdateAccountQ? then [es[0].q.id] else []) + UpdatedIds(es[1..])
  }

  /** No statement at position 0 .. n-1 of the transaction meets an injected fault. */
  predicate FaultFreeBelow(faults: map<nat, string>, n: nat) {
    forall k: nat :: k < n ==> k !in faults
  }

  /** The conditions under which a transfer commits. */
  predicate Commits(db: Db, o: TxOracle, arg: TransferTxParams) {
    && o.begin.None?
    && o.commit.None?
    && FaultFreeBelow(o.faults, 7)
    && arg.fromAccountId in db.accounts
    && arg.toAccountId in db.accounts
  }

  // ---------------------------------------------------------------------
  // The coordinator

  /** A failed BeginTx is returned as is, and the unit of work never runs. */
  lemma BeginFailureSkipsWork<T>(db: Db, o: TxOracle, work: Tx -> Work<T>)
    requires o.begin.Some?
    ensures var r := ExecTx(db, o, work);
            r.err == Some(DbFailure(o.begin.value)) && r.captured.None? && r.db == db
            && Resolutions(r.events) == 0
  {
  }

  /**
   * Once begun, a transaction ends in exactly one commit or one rollback, as
   * its last event; it rolls back exactly when the unit of work fails.
   */
  lemma ExactlyOneResolution<T>(db: Db, o: TxOracle, work: Tx -> Work<T>)
    requires o.begin.None?
    ensures var r := ExecTx(db, o, work);
            var w := work(Tx(db, [], o.faults));
            && Resolutions(r.events) == 1
            && r.events[|r.events| - 1] == (if w.err.Some? then Rollback else Commit)
            && r.events[1..|r.events| - 1] == Issued(w.tx.issued)
  {
  }

  /**
   * A failed unit of work's error is returned unchanged when the rollback
   * succeeds, and combined with the rollback error when it does not; the
   * message then reports both.
   */
  lemma RollbackErrorReport<T>(db: Db, o: TxOracle, work: Tx -> Work<T>)
    requires o.begin.None?
    requires work(Tx(db, [], o.faults)).err.Some?
    ensures var r := ExecTx(db, o, work);
            var txErr := work(Tx(db, [], o.faults)).err.value;
            && (o.rollback.None? ==> r.err == Some(txErr))
            && (o.rollback.Some? ==>
                  && r.err == Some(TxAndRollback(txErr, DbFailure(o.rollback.value)))
                  && Message(r.err.value) == "tx err: " + Message(txErr) + ", rb err: " + o.rollback.value)
  {
  }

  /** A successful unit of work returns the commit's own result, and only a clean commit publishes its writes. */
  lemma CommitResultReturned<T>(db: Db, o: TxOracle, work: Tx -> Work<T>)
    requires o.begin.None?
    requires work(Tx(db, [], o.faults)).err.None?
    ensures var r := ExecTx(db, o, work);
            && (o.commit.Some? ==> r.err == Some(DbFailure(o.commit.value)) && r.db == db)
            && (o.commit.None? ==> r.err.None? && r.db == work(Tx(db, [], o.faults)).tx.db)
  {
  }

  // ---------------------------------------------------------------------
  // Order of the statements

  lemma {:induction false} UpdatedIdsAppend(a: seq<Event>, b: seq<Event>)
    ensures UpdatedIds(a + b) == UpdatedIds(a) + UpdatedIds(b)
  {
    if a == [] {
      assert a + b == b;
    } else {
      assert (a + b)[1..] == a[1..] + b;
      UpdatedIdsAppend(a[1..], b);
    }
  }

  lemma {:induction false} NoUpdates(es: seq<Event>)
    requires forall i :: 0 <= i < |es| ==> !(es[i].Issue? && es[i].q.UpdateAccountQ?)
    ensures UpdatedIds(es) == []
  {
    if es != [] {
      NoUpdates(es[1..]);
    }
  }

  lemma UpdatedIdsPrefix(a: seq<Event>, b: seq<Event>)
    requires a <= b
    ensures UpdatedIds(a) <= UpdatedIds(b)
  {
    assert b == a + b[|a|..];
    UpdatedIdsAppend(a, b[|a|..]);
  }

  lemma IssuedPrefix(a: seq<Query>, b: seq<Query>)
    requires a <= b
    ensures Issued(a) <= Issued(b)
  {
  }

  /** The queries a transfer issues, whatever fails, are a prefix of its plan. */
  lemma WorkFollowsPlan(arg: TransferTxParams, db: Db, faults: map<nat, string>)
    requires AccountsKeyed(db)
    ensures TransferWork(arg, Tx(db, [], faults)).tx.issued <= Plan(arg, db)
  {
    var plan := Plan(arg, db);
    var recorded := RecordTransfer(arg, Tx(db, [], faults));
    RecordOutcome(arg, db, faults);
    if recorded.err.None? {
      var t := recorded.tx;
      var ga := GetAccount(t, arg.fromAccountId);
      assert ga.tx.issued == plan[..4];
      if ga.out.Ok? {
        var gb := GetAccount(ga.tx, arg.toAccountId);
        assert gb.tx.issued == plan[..5];
        if gb.out.Ok? {
          UpdatesFollowPlan(gb.tx, arg, db, recorded.value);
        }
      }
    }
  }

  lemma UpdatesFollowPlan(t: Tx, arg: TransferTxParams, db: Db, res: TransferTxResult)
    requires AccountsKeyed(db)
    requires t.issued == Plan(arg, db)[..5]
    requires t.db.accounts == db.accounts
    requires arg.fromAccountId in db.accounts && arg.toAccountId in db.accounts
    ensures UpdateBalances(t, arg, db.accounts[arg.fromAccountId], db.accounts[arg.toAccountId], res).tx.issued
            <= Plan(arg, db)
  {
    var plan := Plan(arg, db);
    var fromAccount, toAccount := db.accounts[arg.fromAccountId], db.accounts[arg.toAccountId];
    var first := if arg.fromAccountId < arg.toAccountId then fromAccount else toAccount;
    var u1 := UpdateAccount(t, first.id, if arg.fromAccountId < arg.toAccountId
                                         then Sub(fromAccount.balance, arg.amount)
                                         else Add(toAccount.balance, arg.amount));
    assert u1.tx.issued == plan[..6];
  }

  /** A transfer that gets past BeginTx: what it returns, in terms of its unit of work. */
  lemma TransferRunsWork(db: Db, o: TxOracle, arg: TransferTxParams)
    requires o.begin.None?
    ensures var r := TransferTx(db, o, arg);
            var w := TransferWork(arg, Tx(db, [], o.faults));
            && r.result == w.value
            && r.events == [Begin] + Issued(w.tx.issued) + [if w.err.Some? then Rollback else Commit]
            && (w.err.None? && o.commit.None? ==> r.err.None? && r.db == w.tx.db)
            && (w.err.Some? || o.commit.Some? ==> r.err.Some? && r.db == db)
  {
  }

  lemma PlanUpdateOrder(arg: TransferTxParams, db: Db)
    ensures UpdatedIds([Begin] + Issued(Plan(arg, db))) == [Lo(arg), Hi(arg)]
  {
    var plan := Plan(arg, db);
    var head := [Begin, Issue(plan[0]), Issue(plan[1]), Issue(plan[2]), Issue(plan[3]), Issue(plan[4])];
    var tail := [Issue(plan[5]), Issue(plan[6])];
    assert [Begin] + Issued(plan) == head + tail;
    NoUpdates(head);
    UpdatedIdsAppend([tail[0]], [tail[1]]);
    assert tail == [tail[0]] + [tail[1]];
    UpdatedIdsAppend(head, tail);
  }

  lemma PrefixUpdateOrder(qs: seq<Query>, plan: seq<Query>, last: Event)
    requires qs <= plan
    requires last == Commit || last == Rollback
    ensures UpdatedIds([Begin] + Issued(qs) + [last]) <= UpdatedIds([Begin] + Issued(plan))
  {
    IssuedPrefix(qs, plan);
    UpdatedIdsAppend([Begin] + Issued(qs), [last]);
    assert UpdatedIds([last]) == [];
    UpdatedIdsPrefix([Begin] + Issued(qs), [Begin] + Issued(plan));
  }

  /**
   * Lock order: whichever way the money moves and wherever the transfer
   * stops, its balance writes go to the lower account id first and to the
   * other id second, and there are no others.
   */
  lemma LockOrder(db: Db, o: TxOracle, arg: TransferTxParams)
    requires AccountsKeyed(db)
    ensures UpdatedIds(TransferTx(db, o, arg).events) <= [Lo(arg), Hi(arg)]
  {
    if o.begin.None? {
      var w := TransferWork(arg, Tx(db, [], o.faults));
      TransferRunsWork(db, o, arg);
      WorkFollowsPlan(arg, db, o.faults);
      PrefixUpdateOrder(w.tx.issued, Plan(arg, db), if w.err.Some? then Rollback else Commit);
      PlanUpdateOrder(arg, db);
    }
  }

  // ---------------------------------------------------------------------
  // What a committed transfer writes

  /**
   * The accounts after a committed transfer: the credit written to the
   * receiver, then the debit written to the sender. For two distinct ids the
   * two writes commute; for a self transfer the debit is written last.
   */
  function Posted(accounts: map<int64, Account>, arg: TransferTxParams): map<int64, Account>
    requires arg.fromAccountId in accounts && arg.toAccountId in accounts
  {
    var sender := accounts[arg.fromAccountId];
    var receiver := accounts[arg.toAccountId];
    accounts[arg.toAccountId := receiver.(balance := Add(receiver.balance, arg.amount))]
            [arg.fromAccountId := sender.(balance := Sub(sender.balance, arg.amount))]
  }

  /** Posting changes only the two named accounts, and only their balances. */
  lemma PostedFacts(accounts: map<int64, Account>, arg: TransferTxParams)
    requires arg.fromAccountId in accounts && arg.toAccountId in accounts
    ensures var p := Posted(accounts, arg);
            var f, t, amount := arg.fromAccountId, arg.toAccountId, arg.amount;
            && p.Keys == accounts.Keys
            && p[f] == accounts[f].(balance := Sub(accounts[f].balance, amount))
            && (f != t ==> p[t] == accounts[t].(balance := Add(accounts[t].balance, amount)))
            && (forall id :: id in accounts && id != f && id != t ==> p[id] == accounts[id])
  {
  }

  /** Steps 1-3 succeed exactly when none of their statements meets a fault, and then append the three rows. */
  lemma RecordOutcome(arg: TransferTxParams, db: Db, faults: map<nat, string>)
    requires AccountsKeyed(db)
    ensures var w := RecordTransfer(arg, Tx(db, [], faults));
            var f, t, amount := arg.fromAccountId, arg.toAccountId, arg.amount;
            var n, m := |db.transfers|, |db.entries|;
            && w.tx.issued <= Plan(arg, db)[..3]
            && w.tx.faults == faults
            && (w.err.None? <==> FaultFreeBelow(faults, 3))
            && (w.err.None? ==>
                  && w.tx.issued == Plan(arg, db)[..3]
                  && w.tx.db.accounts == db.accounts
                  && w.tx.db.transfers == db.transfers + [Transfer(n + 1, f, t, amount)]
                  && w.tx.db.entries == db.entries + [Entry(m + 1, f, Neg(amount)), Entry(m + 2, t, amount)]
                  && (Valid(db) ==> Valid(w.tx.db))
                  && w.value == ZeroResult.(transfer := Transfer(n + 1, f, t, amount),
                                            fromEntry := Entry(m + 1, f, Neg(amount)),
                                            toEntry := Entry(m + 2, t, amount)))
  {
  }

  /** The unit of work runs to the end exactly when no statement fails and both accounts exist. */
  lemma WorkOutcome(arg: TransferTxParams, db: Db, faults: map<nat, string>)
    requires AccountsKeyed(db)
    ensures var w := TransferWork(arg, Tx(db, [], faults));
            w.err.None? <==>
              FaultFreeBelow(faults, 7) && arg.fromAccountId in db.accounts && arg.toAccountId in db.accounts
    ensures var w := TransferWork(arg, Tx(db, [], faults));
            w.err.None? ==>
              var f, t, amount := arg.fromAccountId, arg.toAccountId, arg.amount;
              var n, m := |db.transfers|, |db.entries|;
              && (Valid(db) ==> Valid(w.tx.db))
              && w.tx.issued == Plan(arg, db)
              && w.tx.db.transfers == db.transfers + [Transfer(n + 1, f, t, amount)]
              && w.tx.db.entries == db.entries + [Entry(m + 1, f, Neg(amount)), Entry(m + 2, t, amount)]
              && w.tx.db.accounts == Posted(db.accounts, arg)
              && w.value == TransferTxResult(
                   Transfer(n + 1, f, t, amount),
                   db.accounts[f].(balance := Sub(db.accounts[f].balance, amount)),
                   db.accounts[t].(balance := Add(db.accounts[t].balance, amount)),
                   Entry(m + 1, f, Neg(amount)),
                   Entry(m + 2, t, amount))
  {
    WorkSucceedsIff(arg, db, faults);
    WorkPostState(arg, db, faults);
    WorkKeepsValid(arg, db, faults);
  }

  lemma WorkSucceedsIff(arg: TransferTxParams, db: Db, faults: map<nat, string>)
    requires AccountsKeyed(db)
    ensures var w := TransferWork(arg, Tx(db, [], faults));
            w.err.None? <==>
              FaultFreeBelow(faults, 7) && arg.fromAccountId in db.accounts && arg.toAccountId in db.accounts
  {
    var recorded := RecordTransfer(arg, Tx(db, [], faults));
    RecordOutcome(arg, db, faults);
    FaultFreeSplit(faults);
    if recorded.err.None? {
      MoveMoneyOutcome(recorded.tx, arg, db, recorded.value);
    }
  }

  lemma FaultFreeSplit(faults: map<nat, string>)
    ensures FaultFreeBelow(faults, 7) <==>
              FaultFreeBelow(faults, 3) && 3 !in faults && 4 !in faults && 5 !in faults && 6 !in faults
  {
  }

  lemma WorkPostState(arg: TransferTxParams, db: Db, faults: map<nat, string>)
    requires AccountsKeyed(db)
    ensures var w := TransferWork(arg, Tx(db, [], faults));
            w.err.None? ==>
              var f, t, amount := arg.fromAccountId, arg.toAccountId, arg.amount;
              var n, m := |db.transfers|, |db.entries|;
              && w.tx.issued == Plan(arg, db)
              && w.tx.db.transfers == db.transfers + [Transfer(n + 1, f, t, amount)]
              && w.tx.db.entries == db.entries + [Entry(m + 1, f, Neg(amount)), Entry(m + 2, t, amount)]
              && w.tx.db.accounts == Posted(db.accounts, arg)
              && w.value == TransferTxResult(
                   Transfer(n + 1, f, t, amount),
                   db.accounts[f].(balance := Sub(db.accounts[f].balance, amount)),
                   db.accounts[t].(balance := Add(db.accounts[t].balance, amount)),
                   Entry(m + 1, f, Neg(amount)),
                   Entry(m + 2, t, amount))
  {
    var recorded := RecordTransfer(arg, Tx(db, [], faults));
    RecordOutcome(arg, db, faults);
    if recorded.err.None? {
      MoveMoneyOutcome(recorded.tx, arg, db, recorded.value);
    }
  }

  lemma WorkKeepsValid(arg: TransferTxParams, db: Db, faults: map<nat, string>)
    ensures Valid(db) ==> Valid(TransferWork(arg, Tx(db, [], faults)).tx.db)
  {
  }

  /** Steps 4-5 run to the end exactly when their four statements succeed and both accounts exist. */
  lemma MoveMoneyOutcome(t: Tx, arg: TransferTxParams, db: Db, res: TransferTxResult)
    requires AccountsKeyed(db)
    requires t.issued == Plan(arg, db)[..3]
    requires t.db.accounts == db.accounts
    ensures var w := MoveMoney(arg, t, res);
            && (w.err.None? <==>
                  && 3 !in t.faults && 4 !in t.faults && 5 !in t.faults && 6 !in t.faults
                  && arg.fromAccountId in db.accounts && arg.toAccountId in db.accounts)
            && (w.err.None? ==>
                  var sender, receiver := db.accounts[arg.fromAccountId], db.accounts[arg.toAccountId];
                  && (Valid(t.db) ==> Valid(w.tx.db))
                  && w.tx.issued == Plan(arg, db)
                  && w.tx.db.accounts == Posted(db.accounts, arg)
                  && w.tx.db.entries == t.db.entries
                  && w.tx.db.transfers == t.db.transfers
                  && w.value == res.(fromAccount := sender.(balance := Sub(sender.balance, arg.amount)),
                                     toAccount := receiver.(balance := Add(receiver.balance, arg.amount))))
  {
    var ga := GetAccount(t, arg.fromAccountId);
    if ga.out.Ok? {
      var gb := GetAccount(ga.tx, arg.toAccountId);
      if gb.out.Ok? {
        assert gb.tx.issued == Plan(arg, db)[..5];
        UpdatesOutcome(gb.tx, arg, db, res);
        assert Plan(arg, db) == Plan(arg, db)[..5] + Plan(arg, db)[5..];
      }
    }
  }

  lemma {:induction false} UpdatesOutcome(t: Tx, arg: TransferTxParams, db: Db, res: TransferTxResult)
    requires AccountsKeyed(db)
    requires |t.issued| == 5
    requires t.db.accounts == db.accounts
    requires arg.fromAccountId in db.accounts && arg.toAccountId in db.accounts
    ensures var sender, receiver := db.accounts[arg.fromAccountId], db.accounts[arg.toAccountId];
            var w := UpdateBalances(t, arg, sender, receiver, res);
            && (w.err.None? <==> 5 !in t.faults && 6 !in t.faults)
            && (w.err.None? ==>
                  && (Valid(t.db) ==> Valid(w.tx.db))
                  && w.tx.db.accounts == Posted(db.accounts, arg)
                  && w.tx.db.entries == t.db.entries
                  && w.tx.db.transfers == t.db.transfers
                  && w.tx.issued == t.issued + Plan(arg, db)[5..]
                  && w.value == res.(fromAccount := sender.(balance := Sub(sender.balance, arg.amount)),
                                     toAccount := receiver.(balance := Add(receiver.balance, arg.amount))))
  {
    var f, to := arg.fromAccountId, arg.toAccountId;
    var sender, receiver := db.accounts[f], db.accounts[to];
    var debit := sender.(balance := Sub(sender.balance, arg.amount));
    var credit := receiver.(balance := Add(receiver.balance, arg.amount));
    if f < to {
      assert db.accounts[f := debit][to := credit] == Posted(db.accounts, arg);
    }
  }

  // ---------------------------------------------------------------------
  // The transfer as a whole

  /** A transfer commits exactly when BeginTx, its seven statements and Commit succeed and both accounts exist. */
  lemma CommitsIff(db: Db, o: TxOracle, arg: TransferTxParams)
    requires AccountsKeyed(db)
    ensures TransferTx(db, o, arg).err.None? <==> Commits(db, o, arg)
  {
    if o.begin.None? {
      WorkOutcome(arg, db, o.faults);
      TransferRunsWork(db, o, arg);
    }
  }

  /**
   * A committed transfer adds exactly one transfer row and two entries, the
   * debit on the sender first, issues exactly the planned statements between
   * Begin and Commit, and writes the balances read inside the transaction.
   */
  lemma CommittedTransfer(db: Db, o: TxOracle, arg: TransferTxParams)
    requires AccountsKeyed(db)
    requires Commits(db, o, arg)
    ensures var r := TransferTx(db, o, arg);
            var f, t, amount := arg.fromAccountId, arg.toAccountId, arg.amount;
            var n, m := |db.transfers|, |db.entries|;
            && r.err.None?
            && (Valid(db) ==> Valid(r.db))
            && r.events == [Begin] + Issued(Plan(arg, db)) + [Commit]
            && r.db.transfers == db.transfers + [Transfer(n + 1, f, t, amount)]
            && r.db.entries == db.entries + [Entry(m + 1, f, Neg(amount)), Entry(m + 2, t, amount)]
            && r.db.accounts == Posted(db.accounts, arg)
            && r.result.transfer == r.db.transfers[n]
            && r.result.fromEntry == r.db.entries[m]
            && r.result.toEntry == r.db.entries[m + 1]
            && r.result.fromAccount == db.accounts[f].(balance := Sub(db.accounts[f].balance, amount))
            && r.result.toAccount == db.accounts[t].(balance := Add(db.accounts[t].balance, amount))
  {
    WorkOutcome(arg, db, o.faults);
    TransferRunsWork(db, o, arg);
  }

  /** The first statement of a committed transfer, and so its first write, creates the transfer row. */
  lemma TransferRowWrittenFirst(db: Db, o: TxOracle, arg: TransferTxParams)
    requires AccountsKeyed(db)
    requires Commits(db, o, arg)
    ensures TransferTx(db, o, arg).events[1] == Issue(CreateTransferQ(arg.fromAccountId, arg.toAccountId, arg.amount))
  {
    CommittedTransfer(db, o, arg);
  }

  /**
   * Between two distinct accounts, the sender is debited and the receiver
   * credited by the amount (in wrapping int64 arithmetic), the result reports
   * both accounts as stored, and no other account changes.
   */
  lemma DistinctAccountBalances(db: Db, o: TxOracle, arg: TransferTxParams)
    requires AccountsKeyed(db)
    requires Commits(db, o, arg)
    requires arg.fromAccountId != arg.toAccountId
    ensures var r := TransferTx(db, o, arg);
            var f, t, amount := arg.fromAccountId, arg.toAccountId, arg.amount;
            && r.db.accounts.Keys == db.accounts.Keys
            && r.db.accounts[f] == db.accounts[f].(balance := Sub(db.accounts[f].balance, amount))
            && r.db.accounts[t] == db.accounts[t].(balance := Add(db.accounts[t].balance, amount))
            && r.result.fromAccount == r.db.accounts[f]
            && r.result.toAccount == r.db.accounts[t]
            && forall id :: id in db.accounts && id != f && id != t ==> r.db.accounts[id] == db.accounts[id]
  {
    CommittedTransfer(db, o, arg);
    PostedFacts(db.accounts, arg);
  }

  /**
   * Conservation: between two distinct accounts the sum of their balances is
   * unchanged when neither new balance overflows, and unchanged modulo 2^64
   * always.
   */
  lemma Conservation(db: Db, o: TxOracle, arg: TransferTxParams)
    requires AccountsKeyed(db)
    requires Commits(db, o, arg)
    requires arg.fromAccountId != arg.toAccountId
    ensures var r := TransferTx(db, o, arg);
            var before, after := db.accounts, r.db.accounts;
            var f, t := arg.fromAccountId, arg.toAccountId;
            && f in after && t in after
            && Add(after[f].balance, after[t].balance) == Add(before[f].balance, before[t].balance)
            && (InRange(before[f].balance - arg.amount) && InRange(before[t].balance + arg.amount) ==>
                  after[f].balance + after[t].balance == before[f].balance + before[t].balance)
  {
    var r := TransferTx(db, o, arg);
    var f, t := arg.fromAccountId, arg.toAccountId;
    var bf, bt := db.accounts[f].balance, db.accounts[t].balance;
    assert r.db.accounts[f].balance == Sub(bf, arg.amount) && r.db.accounts[t].balance == Add(bt, arg.amount) by {
      DistinctAccountBalances(db, o, arg);
    }
    MoveConserves(bf, bt, arg.amount);
  }

  /**
   * A transfer from an account to itself, as the code runs it: both new
   * balances are computed from reads made before either write, the credit is
   * written first and the debit last, so the account ends `amount` lower
   * instead of unchanged.
   */
  lemma SelfTransferBalance(db: Db, o: TxOracle, arg: TransferTxParams)
    requires AccountsKeyed(db)
    requires Commits(db, o, arg)
    requires arg.fromAccountId == arg.toAccountId
    ensures var r := TransferTx(db, o, arg);
            var id, before := arg.fromAccountId, db.accounts[arg.fromAccountId].balance;
            && |r.db.entries| == |db.entries| + 2
            && id in r.db.accounts
            && r.db.accounts[id].balance == Sub(before, arg.amount)
            && (arg.amount != 0 ==> r.db.accounts[id].balance != before)
            && r.result.toAccount.balance == Add(before, arg.amount)
            && r.result.fromAccount == r.db.accounts[id]
  {
    CommittedTransfer(db, o, arg);
    PostedFacts(db.accounts, arg);
    if arg.amount != 0 {
      SubChanges(db.accounts[arg.fromAccountId].balance, arg.amount);
    }
  }

  /**
   * The two entries of a committed transfer cancel in int64 arithmetic; as
   * integers they cancel unless the amount is the least int64, whose negation
   * wraps to itself.
   */
  lemma EntriesCancel(db: Db, o: TxOracle, arg: TransferTxParams)
    requires AccountsKeyed(db)
    requires Commits(db, o, arg)
    ensures var r := TransferTx(db, o, arg);
            && r.result.fromEntry.accountId == arg.fromAccountId
            && r.result.toEntry.accountId == arg.toAccountId
            && Add(r.result.fromEntry.amount, r.result.toEntry.amount) == 0
            && (arg.amount != MIN ==> r.result.fromEntry.amount + r.result.toEntry.amount == 0)
            && (arg.amount == MIN ==> r.result.fromEntry.amount == r.result.toEntry.amount == MIN)
  {
    CommittedTransfer(db, o, arg);
    NegCancels(arg.amount);
  }

  /**
   * No sufficient-funds check: a committed transfer of more than the sender
   * holds leaves the sender with a negative balance.
   */
  lemma OverdraftCommits(db: Db, o: TxOracle, arg: TransferTxParams)
    requires AccountsKeyed(db)
    requires Commits(db, o, arg)
    requires arg.fromAccountId != arg.toAccountId
    requires 0 <= db.accounts[arg.fromAccountId].balance < arg.amount
    ensures var r := TransferTx(db, o, arg);
            r.err.None? && arg.fromAccountId in r.db.accounts && r.db.accounts[arg.fromAccountId].balance < 0
  {
    var r := TransferTx(db, o, arg);
    var before := db.accounts[arg.fromAccountId].balance;
    assert r.err.None? by {
      CommitsIff(db, o, arg);
    }
    assert r.db.accounts[arg.fromAccountId].balance == Sub(before, arg.amount) by {
      DistinctAccountBalances(db, o, arg);
    }
    assert InRange(before - arg.amount);
  }

  /**
   * A transfer naming a missing account aborts: nothing it wrote stays, and
   * when BeginTx, the first five statements and the rollback all succeed the
   * error is sql.ErrNoRows.
   */
  lemma MissingAccountAborts(db: Db, o: TxOracle, arg: TransferTxParams)
    requires AccountsKeyed(db)
    requires arg.fromAccountId !in db.accounts || arg.toAccountId !in db.accounts
    ensures var r := TransferTx(db, o, arg);
            && r.err.Some? && r.db == db
            && (o.begin.None? && o.rollback.None? && FaultFreeBelow(o.faults, 5) ==> r.err == Some(NoRows))
  {
    CommitsIff(db, o, arg);
    if o.begin.None? && o.rollback.None? && FaultFreeBelow(o.faults, 5) {
      RecordOutcome(arg, db, o.faults);
    }
  }

  /**
   * Accounts 1 (balance 100) and 2 (balance 50); transferring 30 from 1 to 2
   * leaves 70 and 80 and records the entries -30 and +30.
   */
  lemma WorkedExample(db: Db, o: TxOracle, arg: TransferTxParams)
    requires db == Db(map[1 := Account(1, "alice", 100, "USD"), 2 := Account(2, "bob", 50, "USD")], [], [])
    requires o == TxOracle(None, None, None, map[])
    requires arg == TransferTxParams(1, 2, 30)
    ensures var r := TransferTx(db, o, arg);
            && r.err.None?
            && r.result.transfer == Transfer(1, 1, 2, 30)
            && r.result.fromEntry == Entry(1, 1, -30)
            && r.result.toEntry == Entry(2, 2, 30)
            && r.result.fromAccount == Account(1, "alice", 70, "USD")
            && r.result.toAccount == Account(2, "bob", 80, "USD")
            && r.db.accounts.Keys == {1, 2}
            && r.db.accounts[1].balance == 70 && r.db.accounts[2].balance == 80
  {
    ExampleStore(db, o, arg);
    CommittedTransfer(db, o, arg);
    DistinctAccountBalances(db, o, arg);
  }

  lemma ExampleStore(db: Db, o: TxOracle, arg: TransferTxParams)
    requires db == Db(map[1 := Account(1, "alice", 100, "USD"), 2 := Account(2, "bob", 50, "USD")], [], [])
    requires o == TxOracle(None, None, None, map[])
    requires arg == TransferTxParams(1, 2, 30)
    ensures Valid(db) && Commits(db, o, arg)
    ensures db.accounts.Keys == {1, 2}
    ensures Sub(100, 30) == 70 && Add(50, 30) == 80 && Neg(30) == -30
  {
    assert db.accounts.Keys == {1, 2};
  }


}
