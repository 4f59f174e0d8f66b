# Money transfers between accounts — a Dafny model

This project models the money-transfer core of a small account service
written in Java:

- the `Account` entity (`domain/Account.java`): an immutable id, a mutable
  balance, and the balance primitives `withdraw` and `deposit`;
- `AccountsService` (`service/AccountsService.java`): `createAccount` and
  `getAccount`, which delegate to the accounts repository, and `transfer`.
  `transfer` runs a chain of early-exit checks, debits the source account
  object in place, looks up the destination, credits it in place, and sends
  two notifications.

Balances are Dafny `int`s, read as exact minor units. `BigDecimal` addition,
subtraction and comparison are exact, so this is faithful. The exceptions
become values (`Exceptions.TransferError`, `Exceptions.DuplicateAccountId`).
Calls to the notification service become entries
`Notification(accountId, Debit | Deposit, amount, counterpartId)` in a ghost
log.

Layout, one module per file:

- `results.dfy` (`Results`): Option, Result and Outcome.
- `exceptions.dfy` (`Exceptions`): the error kinds.
- `account.dfy` (`Domain`): the `Account` class, and `Withdrawal`, the value
  that `withdraw` computes.
- `repository.dfy` (`Repository`): the in-memory repository as a class over
  `map<string, Account>`. Its invariant says every account is stored under its
  own id, so two ids never share one object.
- `ledger.dfy` (`Ledger`): transfers as functions on the map from id to balance.
  It holds the validation order, the transfer as the code runs it
  (`TransferAsWritten`), the corrected transfer (`TransferChecked`), the
  store-wide sum `Total`, and runs of transfers.
- `accounts_service.dfy` (`Service`): the `AccountsService` class. Its
  `Transfer` updates the two `Account` objects in place and is proved equal to
  `Ledger.TransferAsWritten` on the store's balances.
- `scenarios.dfy` (`Scenarios`): client methods that replay the service's unit
  tests against the class contracts.

Behaviour of the code worth knowing before reading the model:

- A missing destination is not rejected before any write. The source is
  debited first, and then `synchronized (null)` throws a NullPointerException.
  This is the `NullDestination` outcome (see Findings).
- The funds check happens once, at the start of `transfer`, outside any
  `synchronized` block.
- `transfer` writes balances through the generated setter, not through
  `withdraw`/`deposit`.
- Neither `withdraw` nor `deposit` checks the sign of the amount.
- Neither constructor rejects a negative balance. The `@Min(0)` annotation is
  enforced only by bean validation at the web boundary. So non-negativity is
  proved as an invariant that transfers preserve (`NonNegative`), not as a
  property of every account.

## Model

| member | source | states |
|---|---|---|
| `Domain.Withdrawal` | src/main/java/com/db/awmd/challenge/domain/Account.java:29-35 | withdraw succeeds exactly when amount <= balance. On success the new balance is >= 0 and adding the amount back gives the old balance. Otherwise it is InsufficientFunds(accountId, amount). |
| `Domain.Account.constructor` | src/main/java/com/db/awmd/challenge/domain/Account.java:24-27 | `new Account(id)` keeps the id and starts at balance 0 |
| `Domain.Account.WithBalance` | src/main/java/com/db/awmd/challenge/domain/Account.java:41-46 | the two-argument constructor stores id and balance verbatim, with no check on the sign of the balance |
| `Domain.Account.Withdraw` | src/main/java/com/db/awmd/challenge/domain/Account.java:29-35 | on success the balance becomes old - amount. On failure it throws InsufficientFunds and the balance is unchanged. The id is a `const`, so it never changes. |
| `Domain.Account.Deposit` | src/main/java/com/db/awmd/challenge/domain/Account.java:37-39 | the balance becomes old + amount, whatever the sign of the amount |
| `Domain.WithdrawThenDeposit` | src/main/java/com/db/awmd/challenge/domain/Account.java:29-39 | a successful withdraw(a) followed by deposit(a) restores the starting balance. A failed withdraw reports InsufficientFunds and changes nothing. |
| `Repository.AccountsRepository.CreateAccount` | src/main/java/com/db/awmd/challenge/service/AccountsService.java:30-32 | inserts the account under its own id. A duplicate id fails with DuplicateAccountId and leaves the store unchanged. The invariant that ids never alias is kept. |
| `Repository.AccountsRepository.GetAccount` | src/main/java/com/db/awmd/challenge/service/AccountsService.java:34-36 | returns the very object stored under the id, or null exactly when there is none |
| `Service.AccountsService.constructor` | src/main/java/com/db/awmd/challenge/service/AccountsService.java:24-28 | the service is built over the given repository, and no notification has been sent yet |
| `Service.AccountsService.CreateAccount` | src/main/java/com/db/awmd/challenge/service/AccountsService.java:30-32 | delegates to the repository: insert-if-absent, DuplicateAccountId on an existing id with the store unchanged |
| `Service.AccountsService.GetAccount` | src/main/java/com/db/awmd/challenge/service/AccountsService.java:34-36 | delegates to the repository: the stored object for the id, or null |
| `Service.AccountsService.CheckTransfer` | src/main/java/com/db/awmd/challenge/service/AccountsService.java:41-56 | the imperative check chain gives exactly the error that `Ledger.Validate` gives on the store's balances. When all checks pass, it returns the stored source object. |
| `Service.AccountsService.SetBalance` | src/main/java/com/db/awmd/challenge/service/AccountsService.java:58-66 | `setBalance` on a stored account changes the store's balances at that account's id only, and keeps the store's accounts |
| `Service.AccountsService.Transfer` | src/main/java/com/db/awmd/challenge/service/AccountsService.java:38-70 | the outcome, the new balances and the notifications are exactly those of `Ledger.TransferAsWritten` on the old balances. The set of accounts is unchanged. |
| `Ledger.Validate` | src/main/java/com/db/awmd/challenge/service/AccountsService.java:41-56 | which error wins: a missing source, then the same id, then amount <= 0, then balance < amount. It gives no error exactly when the source exists, differs from the destination and holds at least the positive amount. |
| `Ledger.TransferAsWritten` | src/main/java/com/db/awmd/challenge/service/AccountsService.java:38-70 | a transfer is rejected exactly when validation fails, with that error, the balances unchanged and no notice. It completes exactly when validation passes and the destination exists, and then sends two notices in order: a debit to the source naming the destination, then a deposit to the destination naming the source. With the destination missing, only the source is debited and nothing is sent. |
| `Ledger.CompletedTransferMoves` | src/main/java/com/db/awmd/challenge/service/AccountsService.java:58-66 | a completed transfer moves exactly the amount from the source to the destination. The source ends >= 0, no other account changes, and the store's total is kept. |
| `Ledger.TransferKeepsAccounts` | src/main/java/com/db/awmd/challenge/service/AccountsService.java:38-70 | no transfer adds or removes an account, and a store with no negative balance keeps none |
| `Ledger.MovedIsUpdate` | src/main/java/com/db/awmd/challenge/service/AccountsService.java:58-66 | a move between two accounts is exactly the debit of the source followed by the credit of the destination |
| `Ledger.MovedConserves` | src/main/java/com/db/awmd/challenge/service/AccountsService.java:58-66 | moving an amount between two distinct accounts keeps the sum of all balances |
| `Ledger.TransferThenReverseRestores` | src/main/java/com/db/awmd/challenge/service/AccountsService.java:54-66 | after a completed transfer, the same amount sent back completes too and restores every balance, if the destination's balance was not negative |
| `Ledger.NullDestinationLosesAmount` | src/main/java/com/db/awmd/challenge/service/AccountsService.java:58-66 | when the destination is missing, the store's total falls by the (positive) amount |
| `Ledger.MissingDestinationDebitsSource` | src/main/java/com/db/awmd/challenge/service/AccountsService.java:58-66 | with only A at 1000, transferring 100 from A to the absent B leaves A at 900 and sends no notification |
| `Ledger.TransferChecked` | src/main/java/com/db/awmd/challenge/service/AccountsService.java:58-66 | a missing destination is rejected with NonexistentAccount(to) before any write, and no outcome is the null-destination one. On every other input it is the code's transfer, and every rejection changes nothing. The destination is checked after the four checks of `Validate`, so when the funds check also fails, InsufficientFunds wins over NonexistentAccount(to). |
| `Ledger.CheckedConserves` | src/main/java/com/db/awmd/challenge/service/AccountsService.java:38-70 | whatever its outcome, the corrected transfer keeps the set of accounts, the store's total, and non-negativity |
| `Ledger.CheckedIsAsWritten` | src/main/java/com/db/awmd/challenge/service/AccountsService.java:38-70 | with the destination present, the corrected transfer and the code's transfer give the same outcome, balances and notices |
| `Ledger.Run` | src/test/java/com/db/awmd/challenge/AccountsServiceTest.java:196-245 | runs of the corrected transfer, one after another, keep the set of accounts, the total and non-negativity |
| `Ledger.RunAsWritten` | src/test/java/com/db/awmd/challenge/AccountsServiceTest.java:196-245 | runs of the code's own transfer keep the set of accounts and non-negativity. They do not keep the total, because a missing destination loses the amount. |
| `Ledger.RunsAgree` | src/test/java/com/db/awmd/challenge/AccountsServiceTest.java:196-245 | when every request names an existing destination, the run of the code's transfers equals the run of the corrected ones, and so keeps the total |
| `Ledger.OpposingTransfers` | src/test/java/com/db/awmd/challenge/AccountsServiceTest.java:196-245 | in any order, transfers of one amount between x and y in both directions, under the corrected transfer, all complete if each side can cover its outgoing total. Only x and y change, by the net flow. |
| `Ledger.OpposingTransfersAsWritten` | src/test/java/com/db/awmd/challenge/AccountsServiceTest.java:196-245 | the same for the code's own transfer: every transfer completes, and only x and y change, by the net flow |
| `Ledger.FiveEachWayRestores` | src/test/java/com/db/awmd/challenge/AccountsServiceTest.java:196-245 | from 1000/1000, any order of five transfers of 10 each way completes every transfer and restores all balances, both under the code's own transfer and under the corrected one |
| `Scenarios.CreateThenGet` | src/test/java/com/db/awmd/challenge/AccountsServiceTest.java:35-42 | getting an account after creating it yields the very same object |
| `Scenarios.CreateDuplicate` | src/test/java/com/db/awmd/challenge/AccountsServiceTest.java:44-57 | a second create with the same id fails with DuplicateAccountId, and the id still leads to the first account with its balance |
| `Scenarios.TransferFromNonexistent` | src/test/java/com/db/awmd/challenge/AccountsServiceTest.java:60-69 | transferring from an unknown id to itself fails with NonexistentAccount, not SameAccountTransfer |
| `Scenarios.TransferToSameAccount` | src/test/java/com/db/awmd/challenge/AccountsServiceTest.java:71-84 | transferring from an existing account to itself fails with SameAccountTransfer and leaves its balance unchanged |
| `Scenarios.TransferNonPositive` | src/test/java/com/db/awmd/challenge/AccountsServiceTest.java:107-145 | a zero or negative amount fails with InvalidAmount and both balances stay at 1000 |
| `Scenarios.TransferOverdraft` | src/test/java/com/db/awmd/challenge/AccountsServiceTest.java:86-105 | 2000 from an account holding 1000 fails with InsufficientFunds(from, 2000) and both balances stay at 1000 |
| `Scenarios.TransferFiveHundred` | src/test/java/com/db/awmd/challenge/AccountsServiceTest.java:147-188 | 500 from 1000 to 1000 gives 500 and 1500, with one debit notice to the source and then one deposit notice to the destination |
| `Scenarios.TransferToMissing` | src/main/java/com/db/awmd/challenge/service/AccountsService.java:58-66 | a transfer of 100 from an account at 1000 to a missing id ends in the null-destination failure with the source at 900 |

## Left out

- Concurrency is not modelled: the `synchronized` blocks, lock ordering,
  deadlock freedom, and what concurrent readers can see. Each transfer is one
  sequential step. The deadlock test is kept only as its sequential content:
  any interleaving of the ten transfers, proved for the code's own transfer
  (`Ledger.FiveEachWayRestores`, through `Ledger.RunsAgree`).
- The notification service's internals are not modelled, because its source is
  not part of this model. Its calls are recorded in a ghost log.
- The accounts repository's internals are not modelled, because its source is
  not part of this model. It is an abstract map with insert-if-absent create and
  identity-preserving get.
- Exception and notification message texts, and `BigDecimal` rendering and
  scale, are not modelled. Errors and notices are datatype values carrying the
  ids and amounts the messages are built from.
- The web exception handler (all four exceptions map to HTTP 400), the
  `Transfer` request DTO, Spring wiring, Lombok, Jackson, bean validation and
  logging are not modelled. None of them holds transfer logic.
- The generated getters are not separate members. The service reads
  `balance` directly, which is what they do. The two `setBalance` calls in
  `transfer` go through `Service.AccountsService.SetBalance`.
- The calls to `notifyAboutTransfer` are assumed to return normally. If the
  first one threw, the Java `transfer` would end with both balance writes
  done and the second notice not sent; the model does not capture that.
- The NullPointerException on a missing destination is modelled as the outcome
  `NullDestination`. The actual unwinding of the exception is not modelled.

## Findings

| source | as written | input that shows it | evidently intended | confidence | as-written member | corrected member |
|---|---|---|---|---|---|---|
| src/main/java/com/db/awmd/challenge/service/AccountsService.java:58-66 | The destination is looked up only after the source has been debited, with no null check. `synchronized (accountTo)` then throws a NullPointerException, and the debit is never undone. | Only account A exists, with balance 1000. `transfer("A", "B", 100)` leaves A at 900, credits no one, sends no notification, and lowers the store's total by 100. | Reject the unknown destination with NonexistentAccount("B") before any write, so that nothing changes. | high; not executed | `Ledger.MissingDestinationDebitsSource` | `Ledger.TransferChecked` |

`Ledger.TransferAsWritten` and `Service.AccountsService.Transfer` keep the code
as written. `Ledger.NullDestinationLosesAmount` shows the loss for every such
input. `Ledger.TransferChecked` is the corrected transfer, and `Ledger.Run` is
built on it. `Ledger.RunAsWritten` runs the code's transfer, and
`Ledger.RunsAgree` shows the two runs are equal when every destination
exists.
