# simple_bank_go: transfer engine, bearer-header check and currencies in Dafny

This project models three parts of the simple_bank_go service and proves properties about them:

- **The transfer engine** (`db/sqlc/store.go`). `execTx` is the all-or-nothing transaction coordinator. `TransferTx` is the unit of work it runs. That unit records one transfer and two entries, reads both accounts, and writes both balances in ascending account-id order.
- **The bearer-header decision** in `authMiddleware` (`api/middleware.go`). It checks for an empty header, splits the header with `strings.Fields`, and compares the scheme with "Bearer" ignoring case. It then passes the second field to the token verifier, and either aborts with 401 or stores the payload and calls the next handler.
- **The supported-currency predicate** (`utils/currency.go`) and the `RandomCurrency` test-data generator (`utils/random.go`).

Modules:

- `Wrappers`: `Option` and `Result`.
- `GoInt`: Go's `int64` with its wrap-around `+`, `-` and unary `-`.
- `Queries`: the sqlc repository, modelled as an immutable store.
  - The store is a `Db` value: a map of accounts plus the entry and transfer tables.
  - A transaction is a `Tx`. It holds the uncommitted state, the queries issued so far, and a fault oracle. The oracle maps a statement's position in the transaction to the database error that statement meets.
- `Store`: `ExecTx` and `TransferTx`. Their outcome includes the trace of events sent to the database: `Begin`, each issued query, then `Commit` or `Rollback`.
- `TransferProps`: the lemmas about the coordinator and the transfer.
- `Middleware`: `strings.Fields`, `strings.EqualFold` against "Bearer", the header decision `ParseAuthorization`, and `AuthMiddleware`.
- `Currency`: the currency constants, `IsSupportedCurrency` and `RandomCurrency`.

Several behaviours of the code are worth stating on their own:

- **Self-transfer.** Both new balances are computed from reads made before either write (db/sqlc/store.go:91 and :95). The credit is written first and the debit last, so the account ends `amount` lower rather than unchanged (`TransferProps.SelfTransferBalance`).
- **Amount check.** `TransferTx` never checks the sign of the amount, so the model accepts every `int64` amount.
- **Funds check.** No sufficient-funds check exists, so balances can go negative. `TransferProps.OverdraftCommits` states this.
- **Wrap-around.** `-arg.Amount` and the balance arithmetic are Go `int64` operations and wrap around. For the least `int64` amount, the two entries are equal rather than opposite; they cancel only modulo 2^64 (`TransferProps.EntriesCancel`).

## Model

Functions that only compute are listed under the lemmas that state what they do: `Store.TransferWork`, `Store.RecordTransfer`, `Store.MoveMoney`, `Store.UpdateBalances`, `Store.Message`, `Middleware.Fields`, `Middleware.EqualFold` and `Middleware.ErrorMessage` each appear in the third column of the rows about them.

| member | source | states |
|---|---|---|
| GoInt.Add | db/sqlc/store.go:109 | `+` on int64: the exact sum when it fits, and otherwise the value congruent to it modulo 2^64 |
| GoInt.Sub | db/sqlc/store.go:102 | `-` on int64: the exact difference when it fits, and otherwise the value congruent to it modulo 2^64 |
| GoInt.Neg | db/sqlc/store.go:75 | unary `-` on int64: `-a` for every value but the least, which negates to itself |
| GoInt.NegCancels | db/sqlc/store.go:73-84 | an amount and its negation always add (wrapping) to zero |
| GoInt.MoveConserves | db/sqlc/store.go:99-129 | debiting one balance and crediting another by the same amount keeps their wrapped sum, and their exact sum when neither overflows |
| GoInt.SubChanges | db/sqlc/store.go:122-125 | subtracting a nonzero amount always changes a balance, even across wrap-around |
| Queries.CreateTransfer | db/sqlc/store.go:64-71 | the statement is recorded; on success exactly one transfer row with the given sender, receiver and amount is appended and nothing else changes; on failure the state is untouched; row identity is preserved |
| Queries.CreateEntry | db/sqlc/store.go:73-87 | the statement is recorded; on success exactly one entry with the given account and amount is appended and nothing else changes; on failure the state is untouched |
| Queries.GetAccount | db/sqlc/store.go:91-98 | succeeds exactly when the statement meets no fault and the account exists; it returns the stored row and changes nothing |
| Queries.UpdateAccount | db/sqlc/store.go:99-129 | succeeds exactly when the statement meets no fault and the account exists; it then changes only that account's balance, returns the updated row, and leaves every other account and table as it was |
| Queries.GetTransfer | db/sqlc/transfer_test.go:45 | a transfer found by id is a stored row with that id; "no rows" exactly when no stored row has the id |
| Queries.CreatedTransferReadsBack | db/sqlc/transfer_test.go:42-56 | a transfer just created is read back by its id with the sender, receiver and amount it was created with |
| Store.ExecTx | db/sqlc/store.go:22-39 | the trace starts with Begin; the unit of work runs exactly when BeginTx succeeds; once begun, there is exactly one commit or rollback, and a rollback exactly when the unit of work fails; an error leaves the store as it was, and success publishes the unit's writes |
| Store.TransferTx | db/sqlc/store.go:58-135 | any error leaves the store in its pre-state; a failed BeginTx returns the zero result after a trace of Begin alone |
| TransferProps.BeginFailureSkipsWork | db/sqlc/store.go:23-26 | a failed BeginTx is returned unchanged, the unit of work never runs, the store is untouched, and nothing is committed or rolled back |
| TransferProps.ExactlyOneResolution | db/sqlc/store.go:28-38 | once begun: exactly one Commit or Rollback, as the last event, a Rollback exactly when the unit of work failed, and between Begin and it exactly the queries the unit issued |
| TransferProps.RollbackErrorReport | db/sqlc/store.go:31-35 | after a failed unit of work: its error unchanged when the rollback succeeds; otherwise an error carrying both, whose text (`Store.Message`) is "tx err: …, rb err: …" |
| TransferProps.CommitResultReturned | db/sqlc/store.go:38 | after a successful unit of work the commit's own result is returned, and only a clean commit makes its writes visible |
| TransferProps.WorkFollowsPlan | db/sqlc/store.go:61-132 | `Store.TransferWork`: the statements the transfer issues are always a prefix of the fixed seven-statement plan, whichever step fails |
| TransferProps.UpdatesFollowPlan | db/sqlc/store.go:99-129 | the balance writes follow the last two planned statements, whichever branch runs |
| TransferProps.TransferRunsWork | db/sqlc/store.go:58-61 | once begun, `TransferTx`'s trace is Begin, the unit of work's statements, and one resolution |
| TransferProps.PlanUpdateOrder | db/sqlc/store.go:99-129 | the plan's balance writes go to the lower id and then the higher |
| TransferProps.LockOrder | db/sqlc/store.go:99-129 | in every run, committed or aborted, the balance writes are a prefix of [lower id, higher id], whichever way the money moves |
| TransferProps.PostedFacts | db/sqlc/store.go:99-129 | the posted account map changes only the sender's and receiver's balances and keeps every id |
| TransferProps.RecordOutcome | db/sqlc/store.go:64-87 | `Store.RecordTransfer`, steps 1-3 of the transfer: the first three statements succeed exactly when none meets a fault; they then append the transfer and the debit and credit entries with the next ids, and fill those result fields |
| TransferProps.MoveMoneyOutcome | db/sqlc/store.go:91-129 | `Store.MoveMoney`, the reads of both accounts and the balance writes: the reads and writes of the balances succeed exactly when their four statements meet no fault and both accounts exist; the balances are then posted and the result holds both updated accounts |
| TransferProps.UpdatesOutcome | db/sqlc/store.go:99-129 | `Store.UpdateBalances`, the two balance writes in ascending id order: both branches of the balance writes succeed exactly when their two statements meet no fault, and post the same balances |
| TransferProps.WorkOutcome | db/sqlc/store.go:61-132 | `Store.TransferWork`, the closure `TransferTx` passes to `execTx`: it succeeds exactly when its seven statements meet no fault and both accounts exist; it then issues exactly the plan, appends one transfer and two entries, posts both balances and fills every result field |
| TransferProps.CommitsIff | db/sqlc/store.go:22-39 | a transfer returns no error exactly when BeginTx, its seven statements and Commit succeed and both accounts exist |
| TransferProps.CommittedTransfer | db/sqlc/store.go:61-134 | a committed transfer's trace is Begin, the seven planned statements and Commit; it appends exactly one transfer and two entries, posts both balances, and returns the stored rows |
| TransferProps.TransferRowWrittenFirst | db/sqlc/store.go:64-68 | the first statement of a committed transfer creates the transfer row with the given sender, receiver and amount |
| TransferProps.DistinctAccountBalances | db/sqlc/store.go:91-113 | between two distinct accounts, the sender loses and the receiver gains the amount, the result reports both stored accounts, and no other account changes |
| TransferProps.Conservation | db/sqlc/store.go:99-129 | between two distinct accounts the sum of their balances is unchanged modulo 2^64, and exactly unchanged when neither balance overflows |
| TransferProps.SelfTransferBalance | db/sqlc/store.go:91-128 | a self transfer still adds two entries, but the account ends `amount` lower, a change whenever the amount is nonzero; the result's receiver shows the overwritten credit |
| TransferProps.EntriesCancel | db/sqlc/store.go:73-84 | the debit entry is on the sender and the credit entry on the receiver; their amounts add (wrapping) to zero, and exactly to zero unless the amount is the least int64 |
| TransferProps.OverdraftCommits | db/sqlc/store.go:99-113 | a transfer of more than the sender holds commits and leaves the sender negative |
| TransferProps.MissingAccountAborts | db/sqlc/store.go:91-98 | a transfer naming a missing account returns an error and leaves the store untouched; the error is "no rows" when BeginTx, the first five statements and the rollback all succeed |
| TransferProps.WorkedExample | db/sqlc/store.go:58-135 | accounts 1 (100) and 2 (50) with 30 moved from 1 to 2 end at 70 and 80, with entries -30 and +30 |
| Middleware.SkipSpace | api/middleware.go:27 | drops exactly the leading white space of the header |
| Middleware.TakeWord | api/middleware.go:27 | takes the longest prefix free of white space |
| Middleware.FieldsAreWords | api/middleware.go:27 | `Middleware.Fields` (`strings.Fields`): every field of the header is non-empty and free of white space |
| Middleware.FieldsEmptyIff | api/middleware.go:27-28 | a header has no fields exactly when it is all white space |
| Middleware.FieldsKeepNonSpace | api/middleware.go:27 | `Middleware.Fields`: joining the fields gives back the header's non-space characters in order |
| Middleware.FieldsOfWordThenRest | api/middleware.go:27 | `Middleware.Fields`: leading space, one word, then a rest that starts with space: the word is the first field and the rest's fields follow |
| Middleware.FieldsOfSchemeAndToken | api/middleware.go:27 | a header made of a scheme, white space, a token and a rest splits into scheme, token and the rest's fields |
| Middleware.PointwiseEqualFold | api/middleware.go:35 | `Middleware.EqualFold` (`strings.EqualFold`): strings of equal length that fold to the same characters at every position are equal up to case |
| Middleware.EqualFoldPointwise | api/middleware.go:35 | `Middleware.EqualFold`: strings equal up to case have equal length and fold to the same character at every position |
| Middleware.FoldedBearerIsWord | api/middleware.go:34-35 | a scheme equal to "Bearer" up to case is a single field |
| Middleware.RejectionMessages | api/middleware.go:22-43 | `Middleware.ErrorMessage`: the three header rejections have the messages "authorization header is not provided", "invalid authorization header format" and "unsupported authorization type", no two alike; a verifier error keeps its own message |
| Middleware.ParseAuthorization | api/middleware.go:20-40 | a header is rejected only by its own checks, never with a verifier error |
| Middleware.NotProvidedIffEmpty | api/middleware.go:20-25 | "header is not provided" exactly when the header is empty |
| Middleware.BlankHeaderInvalid | api/middleware.go:27-32 | a non-empty header of white space only has an invalid format |
| Middleware.SingleFieldInvalid | api/middleware.go:27-32 | a header with one field, with any white space around it, has an invalid format |
| Middleware.DecideOnFields | api/middleware.go:34-40 | given at least two fields: the second goes to the verifier exactly when the first equals "Bearer" up to case; otherwise the type is unsupported |
| Middleware.BearerHeaderAccepted | api/middleware.go:34-41 | any case variant of "Bearer", white space and a token send exactly that token to the verifier, whatever fields follow |
| Middleware.OtherSchemeUnsupported | api/middleware.go:34-39 | any other first field is an unsupported authorization type |
| Middleware.VerifiedTokenIsWord | api/middleware.go:40 | the token handed to the verifier is one whole field |
| Middleware.BlankHeaderExamples | api/middleware.go:20-32 | "" is not provided; "   " has an invalid format |
| Middleware.SchemeOnlyExample | api/middleware.go:27-32 | "Bearer" alone has an invalid format |
| Middleware.BearerExample | api/middleware.go:34-40 | "Bearer t" and "bearer t" both send t to the verifier |
| Middleware.UpperCaseBearerExample | api/middleware.go:34-40 | "BEARER t extra" sends t to the verifier and ignores the third field |
| Middleware.BasicExample | api/middleware.go:34-39 | "Basic t" is an unsupported authorization type |
| Middleware.AuthMiddleware | api/middleware.go:19-48 | at most one token is verified; the next handler runs at most once; when it does not run, the request is aborted with 401 and the keys are unchanged; when it runs, the token was accepted and its payload is stored under "authorization_payload" |
| Middleware.NextIffVerified | api/middleware.go:40-48 | the next handler runs exactly when the header yields a token and the verifier accepts it; the payload is then stored and exactly that token was verified |
| Middleware.RejectedHeaderSkipsVerifier | api/middleware.go:20-39 | a rejected header aborts with 401 and that rejection's message, without consulting the verifier or running the next handler |
| Middleware.VerifierErrorAborts | api/middleware.go:41-45 | a verifier error aborts with 401 and the verifier's message, without storing a payload or running the next handler |
| Middleware.EmptyHeaderRejected | api/middleware.go:20-25 | an empty header aborts with 401 "authorization header is not provided" and the verifier is not consulted |
| Currency.IsSupportedCurrency | utils/currency.go:11-18 | a currency is supported exactly when it is one of USD, CAD, EUR, GBP and CHF |
| Currency.ConstantsDistinct | utils/currency.go:3-9 | each constant holds its own name, and the five are pairwise distinct |
| Currency.CaseSensitive | utils/currency.go:12-17 | matching is exact: "usd", "Usd", "" and "USD " are not supported |
| Currency.RandomCurrency | utils/random.go:40-43 | every currency the generator can return is supported |
| Currency.RandomCurrencyCoversSupported | utils/random.go:41-42 | every supported currency can be drawn by the generator |

## Left out

- Concurrency is not modelled: row locks, transaction isolation, deadlock freedom and `context` cancellation. Only the order of the balance writes in a sequential trace is modelled (`TransferProps.LockOrder`).
- The SQL of the sqlc queries is not part of this model. `CreateTransfer` and `CreateEntry` fail only through the fault oracle. Foreign-key checks on the account ids are not modelled.
- `CreatedAt` timestamps are left out. Transfer and entry ids are unbounded naturals, so exhausting `bigserial` is not modelled.
- Queries.CreateTransfer: assumes gap-free transfer ids, the row count plus one. In PostgreSQL a `bigserial` id comes from a sequence, and `nextval` is never rolled back. So a transfer that aborts after its `CreateTransfer` succeeded leaves a gap in the real ids. The model instead gives the id back when `Store.ExecTx` rolls back.
- Queries.CreateEntry: assumes gap-free entry ids in the same way, given back on rollback.
- Queries.SerialIds: the ids of entries and transfers equal their position plus one. Only `Queries.CreatedTransferReadsBack` requires it. The transfer lemmas require only `Queries.AccountsKeyed` (every account stored under its own id), so they also cover stores with gaps in their ids, and they conclude `Queries.Valid` afterwards only for a store that had it before. The exact ids n+1, m+1 and m+2 stated by `TransferProps.RecordOutcome`, `TransferProps.WorkOutcome` and `TransferProps.CommittedTransfer` are the model's row-count numbering, which matches PostgreSQL's only in a store without gaps.
- Store.ExecTx: when the rollback fails as well, the combined error `TxAndRollback` keeps both errors as values, and the model compares it by its parts. Go's `fmt.Errorf` with `%v` keeps only their text, so there `errors.Is(err, sql.ErrNoRows)` no longer holds for the combined error.
- The store after a failed rollback or a failed commit is taken to be the pre-transaction store. The database's behaviour in that case is outside the code.
- `NewStore` and the embedding of `Queries` in `Store` are plumbing, and are left out.
- The header value is a parameter of `AuthMiddleware`. Reading it with `ctx.GetHeader("Authorization")` is left out.
- `VerifyToken` is a parameter of `AuthMiddleware` (an oracle). The JWT maker in `token/jwt_maker_v2.go` is not part of this model, including its key-size check.
- The gin context is reduced to the payload keys, the abort status and message, and a count of calls to the next handler. The JSON rendering of `errorResponse` is left out.
- Middleware.EqualFold: uses ASCII case folding, not Go's full Unicode simple folding. The two agree whenever one side is "Bearer", which is the only comparison the middleware makes.
- Middleware.Fields: treats a header as a sequence of Unicode scalar values. Invalid UTF-8 bytes are not modelled.
- The other generators in `utils/random.go` are not modelled. `rand.Intn` is the `pick` parameter of `Currency.RandomCurrency`.
- `main.go` is not modelled: configuration, connection and server start-up.
- The tests against a live database are not modelled, except the read-back of a created transfer (`Queries.CreatedTransferReadsBack`).
