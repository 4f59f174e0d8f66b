/**
 * The in-memory accounts repository the service delegates to. Its source is
 * not part of this model; it is modelled as a map from id to the account
 * object itself, with the behaviour the service's callers rely on: create
 * fails on a duplicate id without overwriting, and get returns the very
 * object that was created (or null).
 */
module Repository {
  import opened Results
  import opened Exceptions
  import opened Domain

  class AccountsRepository {
    var accounts: map<string, Account>

    /** Every account is stored under its own id, so two ids never share one object. */
    ghost predicate Valid()
      reads this
    {
      forall id :: id in accounts ==> accounts[id].accountId == id
    }

    /** The balance held by each stored account. */
    ghost function Balances(): (b: map<string, int>)
      reads this, accounts.Values
      ensures b.Keys == accounts.Keys
    {
      map id | id in accounts :: accounts[id].balance
    }

    constructor ()
      ensures Valid() && accounts == map[]
    {
      accounts := map[];
    }

    /** Insert-if-absent keyed by the account's own id. */
    method CreateAccount(account: Account) returns (r: Outcome<DuplicateAccountId>)
      requires Valid()
      modifies this
      ensures Valid()
      ensures r.Fail? <==> account.accountId in old(accounts)
      ensures r.Fail? ==> r.error == DuplicateAccountId(account.accountId) && accounts == old(accounts)
      ensures r.Pass? ==> accounts == old(accounts)[account.accountId := account]
    {
      if account.accountId in accounts {
        return Fail(DuplicateAccountId(account.accountId));
      }
      accounts := accounts[account.accountId := account];
      r := Pass;
    }

    /** The stored object for `id`, or null when there is none. */
    method GetAccount(id: string) returns (a: Account?)
      requires Valid()
      ensures a != null <==> id in accounts
      ensures a != null ==> a == accounts[id] && a.accountId == id
    {
      if id in accounts {
        a := accounts[id];
      } else {
        a := null;
      }
    }
  }
}
