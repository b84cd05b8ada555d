# Account ledger model

A Dafny model of the account ledger at the heart of the banking service: the
`Account` entity (its constructor and its persistence timestamp callbacks) and
the four operations of the account service — create an account, look one up by
number, deposit, withdraw. The store of accounts is an immutable map from
account number to account record, together with the next auto-increment
identifier; every operation is a pure transition that returns either the new
store and the saved record, or the exception the service raises. A raised
exception leaves the caller's store as it was, as the transaction rollback does.

Modules:

- `Wrappers` (wrappers.dfy): `Option` for nullable values and `Optional`, `Result` for calls that throw.
- `Errors` (errors.dfy): one constructor per exception class, with the exact message texts.
- `Accounts` (account.dfy): the entity, its constructor, `onCreate` and `onUpdate`.
- `Ledger` (ledger.dfy): the store, its invariant and the four service operations.
- `LedgerFacts` (ledger.dfy): single-transition properties.
- `History` (history.dfy): sequences of calls; invariant preservation, conservation of money, and permanence of accounts over any run.
- `Scenarios` (history.dfy): worked examples with concrete amounts, including the values of the service's unit tests.

Amounts (`BigDecimal` in the source) are exact integers counted in units of
1/10000, the scale of the balance column; a null amount is `None`. Clock
readings are instants of an abstract clock passed to each operation.

The service raises `AccountOperationException` for a duplicate number, a
negative initial balance and a non-positive amount alike
(src/main/java/com/midou/ben/bankingapp/service/AccountServiceImpl.java lines
30, 33, 56 and 79). The model uses the one kind `AccountOperation` for all
three, told apart by message.

## Model

| member | source | states |
|---|---|---|
| Accounts.NewAccount | src/main/java/com/midou/ben/bankingapp/model/Account.java:36-44 | The constructor succeeds exactly when the defaulted initial balance is at least zero, and otherwise fails with the illegal-argument error; on success it keeps number and owner as given, holds the given balance or zero, and has no identifier or timestamps yet |
| Accounts.NullInitialBalanceIsZero | src/main/java/com/midou/ben/bankingapp/model/Account.java:39 | A null initial balance always constructs an account with balance zero |
| Accounts.ConstructedBalanceNonNegative | src/main/java/com/midou/ben/bankingapp/model/Account.java:39-43 | Construction fails if and only if a negative balance is given, and every constructed account has a balance of at least zero |
| Accounts.OnCreate | src/main/java/com/midou/ben/bankingapp/model/Account.java:46-50 | On first persist both timestamps become the current instant; identity and balance are untouched |
| Accounts.OnUpdate | src/main/java/com/midou/ben/bankingapp/model/Account.java:52-55 | On update only the last-updated instant moves; the creation instant, identity and balance are kept |
| Accounts.UpdateKeepsCreation | src/main/java/com/midou/ben/bankingapp/model/Account.java:46-55 | After persist then update with a clock that does not run backwards, the creation instant is the persist instant and is not after the update instant |
| Ledger.GetAccountByAccountNumber | src/main/java/com/midou/ben/bankingapp/service/AccountServiceImpl.java:44-47 | The lookup is present exactly when the number is stored, and then is the stored record |
| Ledger.CreateAccount | src/main/java/com/midou/ben/bankingapp/service/AccountServiceImpl.java:27-40 | A stored number fails with the duplicate error and its message even when the balance is also negative; otherwise a negative balance fails with its own message; success exactly when neither holds, adding one key whose record has the given owner and number, the given balance or zero, the next identifier and both timestamps at now, with every other record unchanged |
| Ledger.Deposit | src/main/java/com/midou/ben/bankingapp/service/AccountServiceImpl.java:53-70 | A missing or non-positive amount fails with the amount error whatever the store; then a missing account fails with not-found; success exactly otherwise, replacing only that record by one with the same identity and creation instant, balance old plus amount, and updated at now |
| Ledger.Withdraw | src/main/java/com/midou/ben/bankingapp/service/AccountServiceImpl.java:76-101 | Amount error first, then not-found, then insufficient funds when the amount exceeds the balance; success exactly otherwise, replacing only that record by one with balance old minus amount, never below zero, updated at now |
| LedgerFacts.CreatePreservesValid | src/main/java/com/midou/ben/bankingapp/service/AccountServiceImpl.java:29-39 | A successful create keeps the invariant: non-negative balances, records keyed by their own number and stamped in order, identifiers unique and below the next one |
| LedgerFacts.DepositPreservesValid | src/main/java/com/midou/ben/bankingapp/service/AccountServiceImpl.java:55-68 | A successful deposit keeps the invariant |
| LedgerFacts.WithdrawPreservesValid | src/main/java/com/midou/ben/bankingapp/service/AccountServiceImpl.java:78-99 | A successful withdrawal keeps the invariant, so the balance it leaves is never negative |
| LedgerFacts.DepositAmountCheckedFirst | src/main/java/com/midou/ben/bankingapp/service/AccountServiceImpl.java:55-61 | A missing, zero or negative deposit gives the same amount error whatever the store and account number, so it wins over not-found |
| LedgerFacts.WithdrawAmountCheckedFirst | src/main/java/com/midou/ben/bankingapp/service/AccountServiceImpl.java:78-91 | A missing, zero or negative withdrawal gives the same amount error whatever the store and account number, so it wins over not-found and insufficient funds |
| LedgerFacts.CreateThenGet | src/main/java/com/midou/ben/bankingapp/service/AccountServiceImpl.java:36-47 | After a successful create the lookup of that number returns the saved record and every other lookup answers as before |
| LedgerFacts.WithdrawWholeBalance | src/main/java/com/midou/ben/bankingapp/service/AccountServiceImpl.java:87-97 | Withdrawing exactly a positive balance succeeds and leaves zero |
| LedgerFacts.DepositThenWithdrawRestores | src/main/java/com/midou/ben/bankingapp/service/AccountServiceImpl.java:53-101 | On a store with non-negative balances, withdrawing what was just deposited succeeds and restores every record except that account's last-updated instant |
| History.Apply | src/main/java/com/midou/ben/bankingapp/service/AccountService.java:9-15 | A rejected call and every lookup leave the store unchanged; a saved record is in the new store and no account disappears |
| History.ApplyConserves | src/main/java/com/midou/ben/bankingapp/service/AccountServiceImpl.java:27-101 | One call changes an account's balance by exactly the applied initial balance, deposit or withdrawal named in its arguments |
| History.ApplyPreservesValid | src/main/java/com/midou/ben/bankingapp/service/AccountServiceImpl.java:27-101 | Every call keeps the invariant when the clock does not run backwards |
| History.RunPreservesNonNegative | src/main/java/com/midou/ben/bankingapp/service/AccountServiceImpl.java:87-97 | No sequence of calls leaves any balance below zero |
| History.RunPreservesValid | src/main/java/com/midou/ben/bankingapp/model/Account.java:16-32 | Any clock-ordered sequence of calls keeps the full invariant, including unique identifiers and creation not after last update |
| History.RunConserves | src/main/java/com/midou/ben/bankingapp/service/AccountServiceImpl.java:65-96 | After any sequence of calls an account's balance is its starting balance plus applied deposits and initial balance minus applied withdrawals |
| History.RunKeepsAccounts | src/main/java/com/midou/ben/bankingapp/model/Account.java:16-29 | No account is ever removed, and its identifier, number, owner and creation instant never change |
| Scenarios.AliceScenario | src/test/java/com/midou/ben/bankingapp/service/AccountServiceImplTest.java:91-263 | A chain combining the duplicate, deposit, withdrawal and insufficient-funds tests on one account (owner "Alice", chosen amounts): create with 1000.00, deposit 200.00 and withdraw 300.00 leave 900.00; withdrawing 5000.00 then fails with insufficient funds; a second create under the same number fails as a duplicate |
| Scenarios.ServiceTestCases | src/test/java/com/midou/ben/bankingapp/service/AccountServiceImplTest.java:52-291 | The unit tests' own values, each from a fresh account "ACC001" of "Midou Ben" holding 1000.00: a new account keeps owner, number and 500.00; duplicate and -100.00 creates fail with their messages; lookups find and miss; deposit 200.00 gives 1200.00; withdraw 300.00 gives 700.00; "ACC999" is not found; 2000.00 is insufficient; zero and -50.00 amounts fail with the amount messages |

## Left out

- Locking and transactions: the `synchronized` blocks and the `@Transactional` isolation and rollback settings serve concurrency. Each operation is one atomic transition. The window between withdraw's funds check and its lock is therefore not modelled. Neither is a race between two concurrent creates of one number: both can pass the existence check, and the second then fails at the database's unique constraint with a persistence exception rather than the duplicate error.
- HTTP layer: the controller, the exception-to-status handler, the response mapper and the request/response records only route and copy fields.
- Repository: `AccountRepository` is a framework interface. It is replaced by a map keyed by account number plus an identifier counter. In a sequential run the database's unique constraint on the number is never reached, because the service checks for duplicates first.
- Column limits are not modelled: the 50- and 100-character lengths of number and owner, and the 19-digit precision of the balance. These are enforced by the database at flush time.
- Money: amounts are exact integers in units of 1/10000. Inputs with more than four fractional digits, and rounding when the column is written, are not modelled.
- Null strings: account numbers and owner names are never null in the model. The controller refuses null and empty ones before the service sees them.
- Accounts.OnCreate: reads the clock once for both timestamps, whereas the source calls `now()` twice and the two readings may differ slightly.
- Clock order: `createdAt <= updatedAt` in the invariant, and the lemmas that carry it, assume a clock that never runs backwards. The source stamps with local wall-clock time, which can step back (for example when daylight saving time ends), so the program itself does not guarantee this ordering.
- Clock values and logging: the wall clock becomes an abstract instant passed in, and logging is dropped.
- The Cucumber suite: it is test glue that converts floating-point doubles to decimals.
