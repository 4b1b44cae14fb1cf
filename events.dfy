/**
 * Ledger events: the immutable records the ledger appends.  Identifiers stand
 * for v4 UUIDs and are drawn by the ledger from one counter, so that "newly
 * generated" becomes "not used before"; the timestamp is the clock reading the
 * caller passes in, and nothing inspects it.
 */
module DomainEvents {
  import opened DomainMoney

  type Uuid = nat
  type AccountId = Uuid
  type EventId = Uuid
  type Timestamp = int

  /** What happened: exactly three kinds, and only Deposit and Withdraw carry Money. */
  datatype LedgerEventPayload =
    | AccountOpened
    | Deposit(amount: Money)
    | Withdraw(amount: Money)

  datatype LedgerEvent = LedgerEvent(
    id: EventId,
    accountId: AccountId,
    createdAt: Timestamp,
    payload: LedgerEventPayload)

  /** LedgerEvent::account_opened, with its fresh id and clock reading as parameters. */
  function NewAccountOpened(id: EventId, accountId: AccountId, createdAt: Timestamp): (e: LedgerEvent)
    ensures e.id == id && e.accountId == accountId && e.createdAt == createdAt
    ensures e.payload == AccountOpened
  {
    LedgerEvent(id, accountId, createdAt, AccountOpened)
  }

  /** LedgerEvent::deposit: the amount is carried unchanged. */
  function NewDeposit(id: EventId, accountId: AccountId, createdAt: Timestamp, amount: Money): (e: LedgerEvent)
    ensures e.id == id && e.accountId == accountId && e.createdAt == createdAt
    ensures e.payload.Deposit? && e.payload.amount == amount
  {
    LedgerEvent(id, accountId, createdAt, Deposit(amount))
  }

  /** LedgerEvent::withdraw: the amount is carried unchanged. */
  function NewWithdraw(id: EventId, accountId: AccountId, createdAt: Timestamp, amount: Money): (e: LedgerEvent)
    ensures e.id == id && e.accountId == accountId && e.createdAt == createdAt
    ensures e.payload.Withdraw? && e.payload.amount == amount
  {
    LedgerEvent(id, accountId, createdAt, Withdraw(amount))
  }
}
