/**
 * Client code for the service, one method per behaviour the service's tests
 * pin down. Each builds a fresh service, so none of them modifies existing
 * state; their postconditions follow from the contracts of the service alone.
 */
module Scenarios {
  import opened Results
  import opened Exceptions
  import opened Domain
  import opened Repository
  import opened Ledger
  import opened Service

  /** A service over an empty repository. */
  method NewService() returns (s: AccountsService)
    ensures fresh(s) && fresh(s.repository)
    ensures s.Valid() && s.repository.accounts == map[] && s.notifications == []
  {
    var repository := new AccountsRepository();
    s := new AccountsService(repository);
  }

  /** A fresh service holding two accounts, `fromId` and `toId`, with the given balances. */
  method ServiceWithTwo(fromId: string, fromBalance: int, toId: string, toBalance: int)
    returns (s: AccountsService, from: Account, to: Account)
    requires fromId != toId
    ensures fresh(s) && fresh(s.repository) && fresh(from) && fresh(to)
    ensures s.Valid() && s.notifications == []
    ensures s.repository.accounts == map[fromId := from, toId := to]
    ensures from.accountId == fromId && from.balance == fromBalance
    ensures to.accountId == toId && to.balance == toBalance
  {
    s := NewService();
    from := new Account(fromId);
    from.balance := fromBalance;
    var created := s.CreateAccount(from);
    to := new Account(toId);
    to.balance := toBalance;
    created := s.CreateAccount(to);
  }

  /** Getting an account back after creating it yields the very same object. */
  method CreateThenGet(accountId: string, balance: int) returns (created: Account, got: Account?)
    ensures got == created && created.accountId == accountId && created.balance == balance
  {
    var s := NewService();
    created := new Account.WithBalance(accountId, balance);
    var r := s.CreateAccount(created);
    got := s.GetAccount(accountId);
  }

  /**
   * A second account with an existing id is refused with DuplicateAccountId,
   * and the id still leads to the first account, with its balance.
   */
  method CreateDuplicate(accountId: string, firstBalance: int, secondBalance: int)
    returns (first: Outcome<DuplicateAccountId>, second: Outcome<DuplicateAccountId>, kept: Account?, keptBalance: int)
    ensures first == Pass && second == Fail(DuplicateAccountId(accountId))
    ensures kept != null && kept.accountId == accountId && keptBalance == firstBalance
  {
    var s := NewService();
    var a := new Account.WithBalance(accountId, firstBalance);
    first := s.CreateAccount(a);
    var b := new Account.WithBalance(accountId, secondBalance);
    second := s.CreateAccount(b);
    kept := s.GetAccount(accountId);
    keptBalance := kept.balance;
  }

  /** Transferring from an unknown account to itself reports the unknown account, not the self-transfer. */
  method TransferFromNonexistent(accountId: string, amount: int) returns (r: TransferOutcome)
    ensures r == Rejected(NonexistentAccount(accountId))
  {
    var s := NewService();
    r := s.Transfer(accountId, accountId, amount);
  }

  /** Transferring from an existing account to itself is refused and changes nothing. */
  method TransferToSameAccount(accountId: string, balance: int, amount: int) returns (r: TransferOutcome, after: int)
    ensures r == Rejected(SameAccountTransfer) && after == balance
  {
    var s := NewService();
    var a := new Account.WithBalance(accountId, balance);
    var created := s.CreateAccount(a);
    r := s.Transfer(accountId, accountId, amount);
    after := a.balance;
  }

  /** A zero or negative amount is refused with InvalidAmount and changes nothing. */
  method TransferNonPositive(fromId: string, toId: string, amount: int)
    returns (r: TransferOutcome, fromAfter: int, toAfter: int)
    requires fromId != toId && amount <= 0
    ensures r == Rejected(InvalidAmount) && fromAfter == 1000 && toAfter == 1000
  {
    var s, from, to := ServiceWithTwo(fromId, 1000, toId, 1000);
    r := s.Transfer(fromId, toId, amount);
    fromAfter, toAfter := from.balance, to.balance;
  }

  /** 2000 from an account holding 1000 is refused with InsufficientFunds and changes nothing. */
  method TransferOverdraft(fromId: string, toId: string)
    returns (r: TransferOutcome, fromAfter: int, toAfter: int)
    requires fromId != toId
    ensures r == Rejected(InsufficientFunds(fromId, 2000)) && fromAfter == 1000 && toAfter == 1000
  {
    var s, from, to := ServiceWithTwo(fromId, 1000, toId, 1000);
    r := s.Transfer(fromId, toId, 2000);
    fromAfter, toAfter := from.balance, to.balance;
  }

  /**
   * 500 from 1000 to 1000 leaves 500 and 1500 and notifies the debit to the
   * source and then the deposit to the destination, each exactly once.
   */
  method TransferFiveHundred(fromId: string, toId: string)
    returns (r: TransferOutcome, fromAfter: int, toAfter: int, ghost notices: seq<Notification>)
    requires fromId != toId
    ensures r == Transferred && fromAfter == 500 && toAfter == 1500
    ensures notices == [Notification(fromId, Debit, 500, toId), Notification(toId, Deposit, 500, fromId)]
  {
    var s, from, to := ServiceWithTwo(fromId, 1000, toId, 1000);
    r := s.Transfer(fromId, toId, 500);
    fromAfter, toAfter := from.balance, to.balance;
    notices := s.notifications;
  }

  /** With the destination missing, the source is debited before the call fails. */
  method TransferToMissing(fromId: string, toId: string) returns (r: TransferOutcome, fromAfter: int)
    requires fromId != toId
    ensures r == NullDestination && fromAfter == 900
  {
    var s := NewService();
    var a := new Account.WithBalance(fromId, 1000);
    var created := s.CreateAccount(a);
    r := s.Transfer(fromId, toId, 100);
    fromAfter := a.balance;
  }
}
