/**
 * `AccountsService`: account creation and lookup delegated to the
 * repository, and `transfer`, which validates, then updates the two account
 * objects in place and notifies both owners. Transfers are modelled as one
 * sequential step; the service's `synchronized` blocks are not modelled.
 * Calls to the notification service are recorded in a ghost log.
 */
module Service {
  import opened Results
  import opened Exceptions
  import opened Domain
  import opened Repository
  import opened Ledger

  class AccountsService {
    const repository: AccountsRepository
    /** Every call made to the notification service so far, oldest first. */
    ghost var notifications: seq<Notification>

    ghost predicate Valid()
      reads this, repository
    {
      repository.Valid()
    }

    constructor (repository: AccountsRepository)
      requires repository.Valid()
      ensures Valid() && this.repository == repository && notifications == []
    {
      this.repository := repository;
      notifications := [];
    }

    method CreateAccount(account: Account) returns (r: Outcome<DuplicateAccountId>)
      requires Valid()
      modifies repository
      ensures Valid()
      ensures r.Fail? <==> account.accountId in old(repository.accounts)
      ensures r.Fail? ==> r.error == DuplicateAccountId(account.accountId) && repository.accounts == old(repository.accounts)
      ensures r.Pass? ==> repository.accounts == old(repository.accounts)[account.accountId := account]
    {
      r := repository.CreateAccount(account);
    }

    method GetAccount(accountId: string) returns (a: Account?)
      requires Valid()
      ensures a != null <==> accountId in repository.accounts
      ensures a != null ==> a == repository.accounts[accountId] && a.accountId == accountId
    {
      a := repository.GetAccount(accountId);
    }

    /**
     * The checks `transfer` makes before its first write, in order. When all
     * pass, the source account object is returned for the debit.
     */
    method CheckTransfer(fromId: string, toId: string, amount: int) returns (fromAccount: Account?, err: Option<TransferError>)
      requires Valid()
      ensures err == Validate(repository.Balances(), fromId, toId, amount)
      ensures err == None ==> fromId in repository.accounts && fromAccount == repository.accounts[fromId]
                              && fromAccount.accountId == fromId
    {
      fromAccount := GetAccount(fromId);
      if fromAccount == null {
        return null, Some(NonexistentAccount(fromId));
      }
      if fromId == toId {
        return fromAccount, Some(SameAccountTransfer);
      }
      if amount <= 0 {
        return fromAccount, Some(InvalidAmount);
      }
      if fromAccount.balance < amount {
        return fromAccount, Some(InsufficientFunds(fromId, amount));
      }
      err := None;
    }

    /**
     * `account.setBalance(v)` on a stored account: the store's balances change
     * at that account's id only.
     */
    method SetBalance(account: Account, v: int)
      requires Valid() && account.accountId in repository.accounts
      requires repository.accounts[account.accountId] == account
      modifies account
      ensures Valid() && repository.accounts == old(repository.accounts)
      ensures repository.Balances() == old(repository.Balances())[account.accountId := v]
    {
      account.balance := v;
      forall id | id in repository.accounts && id != account.accountId
        ensures repository.Balances()[id] == old(repository.Balances())[id]
      {
        assert repository.accounts[id].accountId == id;
      }
    }

    /**
     * `transfer(fromId, toId, amount)`: the balances, the outcome and the
     * notifications are exactly those of the code's transfer on the store's
     * balances; the set of accounts is untouched. The destination is looked up
     * only after the source has been debited, and a missing destination ends
     * the call there (`synchronized (null)`).
     */
    method Transfer(fromId: string, toId: string, amount: int) returns (r: TransferOutcome)
      requires Valid()
      modifies this, repository.accounts.Values
      ensures Valid() && repository.accounts == old(repository.accounts)
      ensures var e := TransferAsWritten(old(repository.Balances()), fromId, toId, amount);
              r == e.outcome && repository.Balances() == e.balances && notifications == old(notifications) + e.notices
    {
      ghost var before := repository.Balances();
      var fromAccount, err := CheckTransfer(fromId, toId, amount);
      if err.Some? {
        return Rejected(err.value);
      }
      ghost var debited := before[fromId := before[fromId] - amount];
      SetBalance(fromAccount, fromAccount.balance - amount);
      assert repository.Balances() == debited;
      var toAccount := GetAccount(toId);
      if toAccount == null {
        return NullDestination;
      }
      ghost var credited := debited[toId := debited[toId] + amount];
      SetBalance(toAccount, toAccount.balance + amount);
      CompletedTransferEffect(before, fromId, toId, amount);
      notifications := notifications + [Notification(fromAccount.accountId, Debit, amount, toId),
                                        Notification(toAccount.accountId, Deposit, amount, fromId)];
      assert repository.Balances() == credited;
      r := Transferred;
    }
  }
}
