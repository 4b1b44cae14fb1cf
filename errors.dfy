/** The failures the ledger reports to its callers. */
module DomainErrors {
  import opened DomainMoney

  datatype DomainError =
    | AccountNotFound
    | InvalidMoney(cause: MoneyError)
    | InsufficientFunds(requiredMinor: int, availableMinor: int)
}
