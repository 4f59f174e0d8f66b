/**
 * The `Account` entity: an immutable id and a mutable balance with the two
 * balance primitives `withdraw` and `deposit`. Balances are exact integers
 * (minor units), which is faithful to `BigDecimal` add/subtract/compare.
 */
module Domain {
  import opened Results
  import opened Exceptions

  /**
   * What `withdraw(amount)` does to a balance: the new balance, or the
   * InsufficientFunds exception it throws instead. Nothing checks the sign of
   * `amount`, so a negative amount "withdraws" by raising the balance.
   */
  function Withdrawal(accountId: string, balance: int, amount: int): (r: Result<int, TransferError>)
    ensures r.Success? <==> amount <= balance
    ensures r.Success? ==> r.value >= 0 && r.value + amount == balance
    ensures r.Failure? ==> r.error == InsufficientFunds(accountId, amount)
  {
    if balance < amount then Failure(InsufficientFunds(accountId, amount)) else Success(balance - amount)
  }

  class Account {
    const accountId: string
    var balance: int

    /** `new Account(id)`: a fresh account with a zero balance. */
    constructor (accountId: string)
      ensures this.accountId == accountId && balance == 0
    {
      this.accountId := accountId;
      balance := 0;
    }

    /**
     * The two-argument (JSON) constructor stores both values verbatim; the
     * `@Min(0)` annotation on `balance` is not enforced here, so any balance is accepted.
     */
    constructor WithBalance(accountId: string, balance: int)
      ensures this.accountId == accountId && this.balance == balance
    {
      this.accountId := accountId;
      this.balance := balance;
    }

    /** Debit `amount`, or throw InsufficientFunds and leave the balance as it was. */
    method Withdraw(amount: int) returns (r: Outcome<TransferError>)
      modifies this
      ensures match Withdrawal(accountId, old(balance), amount)
              case Success(after) => r == Pass && balance == after
              case Failure(e) => r == Fail(e) && balance == old(balance)
    {
      if balance < amount {
        return Fail(InsufficientFunds(accountId, amount));
      }
      balance := balance - amount;
      r := Pass;
    }

    /** Credit `amount`; its sign is not checked. */
    method Deposit(amount: int)
      modifies this
      ensures balance == old(balance) + amount
    {
      balance := balance + amount;
    }
  }

  /**
   * A withdrawal followed, when it succeeds, by a deposit of the same amount
   * leaves the balance where it started; a failed withdrawal changes nothing.
   */
  method WithdrawThenDeposit(accountId: string, balance: int, amount: int)
    returns (withdrawn: Outcome<TransferError>, restored: int)
    ensures withdrawn == Pass <==> amount <= balance
    ensures withdrawn != Pass ==> withdrawn == Fail(InsufficientFunds(accountId, amount))
    ensures restored == balance
  {
    var account := new Account.WithBalance(accountId, balance);
    withdrawn := account.Withdraw(amount);
    if withdrawn == Pass {
      account.Deposit(amount);
    }
    restored := account.balance;
  }
}
