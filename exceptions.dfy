/**
 * The exceptions of the service, as values. Each carries the data its
 * message is built from; the message text itself is not modelled.
 */
module Exceptions {

  /** The four exceptions `AccountsService.transfer` declares. */
  datatype TransferError =
    | NonexistentAccount(accountId: string)             // NonexistentAccountException(accountId)
    | SameAccountTransfer                               // SameAccountTransferException()
    | InvalidAmount                                     // InvalidAmountTransferException()
    | InsufficientFunds(accountId: string, amount: int) // InsufficientFundsException(accountId, amount)

  /** DuplicateAccountIdException, thrown by the repository on a second create with the same id. */
  datatype DuplicateAccountId = DuplicateAccountId(accountId: string)
}
