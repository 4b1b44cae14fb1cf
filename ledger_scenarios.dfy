/**
 * The ledger's own unit tests, as client code of the Ledger class: each method
 * runs the test's steps and its postcondition is the test's expectation. The
 * two lemmas first compute, on the log alone, the balance the steps lead to.
 */
module LedgerScenarios {
  import opened Results
  import opened DomainMoney
  import opened DomainEvents
  import opened DomainErrors
  import opened LedgerLog
  import opened DomainLedger

  /** Opening an account and depositing a GBP amount gives that amount as balance. */
  lemma OpenThenDeposit(log: seq<LedgerEvent>, next: Uuid, t: Timestamp, amount: Money)
    requires WellFormed(log, next) && amount.currency == GBP
    ensures Balance(log + [NewAccountOpened(next + 1, next, t)] + [NewDeposit(next + 2, next, t, amount)], next)
         == Ok(Money(amount.amount, GBP))
  {
    OpenedBalanceIsZero(log, next, t);
    DepositRaisesBalance(log + [NewAccountOpened(next + 1, next, t)], next + 2, next, t, amount);
  }

  /** The events of an account just opened and credited are exactly its opening and the deposit. */
  lemma OpenThenDepositEvents(log: seq<LedgerEvent>, next: Uuid, t: Timestamp, amount: Money)
    requires WellFormed(log, next)
    ensures EventsFor(log + [NewAccountOpened(next + 1, next, t)] + [NewDeposit(next + 2, next, t, amount)], next)
         == [NewAccountOpened(next + 1, next, t), NewDeposit(next + 2, next, t, amount)]
  {
    var e1, e2 := NewAccountOpened(next + 1, next, t), NewDeposit(next + 2, next, t, amount);
    FreshAccountId(log, next);
    ExistsIffEvents(log, next);
    EventsForSnoc(log, e1, next);
    EventsForSnoc(log + [e1], e2, next);
    assert [] + [e1] + [e2] == [e1, e2];
  }

  /** Opening an account and depositing £10 leaves two events, the last a £10 deposit. */
  method DepositIntoExistingAccountAppendsEvent() returns (count: nat, last: LedgerEventPayload)
    ensures count == 2 && last == Deposit(Money(1000, GBP))
  {
    var ledger := new Ledger();
    count, last := DepositIntoFreshAccount(ledger);
  }

  /** The same steps on any well-formed ledger: the new account's events are its opening and the deposit. */
  method DepositIntoFreshAccount(ledger: Ledger) returns (count: nat, last: LedgerEventPayload)
    requires ledger.Valid()
    modifies ledger
    ensures count == 2 && last == Deposit(Money(1000, GBP))
  {
    OpenThenDepositEvents(ledger.events, ledger.nextId, 0, Money(1000, GBP));
    var account := ledger.OpenAccount(0);
    var ten := NewMinor(1000, GBP);
    var deposited := ledger.Deposit(account, ten.value, 0);
    var found := EventsForAccount(ledger.events, account);
    count := |found.value|;
    last := found.value[count - 1].payload;
  }

  /**
   * The check of deposit_into_unknown_account_fails as written: the value of
   * its `matches!` is discarded, so only `unwrap_err` constrains the outcome.
   */
  predicate UnknownDepositCheckAsWritten(r: Result<EventId, DomainError>) {
    r.Err?
  }

  /** That check also passes for a deposit failing with an error other than AccountNotFound. */
  lemma UnknownDepositCheckAcceptsOtherErrors()
    ensures var r: Result<EventId, DomainError> := Err(InsufficientFunds(500, 0));
      UnknownDepositCheckAsWritten(r) && r != Err(AccountNotFound)
  {
  }

  /**
   * A deposit into an account that was never opened fails with AccountNotFound
   * (the variant the test means to check) and appends nothing.
   */
  method DepositIntoUnknownAccountFails(fake: AccountId) returns (r: Result<EventId, DomainError>, logSize: nat)
    ensures r == Err(AccountNotFound) && logSize == 0
  {
    var ledger := new Ledger();
    var five := NewMinor(500, GBP);
    r := ledger.Deposit(fake, five.value, 0);
    logSize := |ledger.events|;
  }

  /** Opens an account on a well-formed ledger and deposits a GBP amount into it. */
  method OpenWithDeposit(ledger: Ledger, amount: Money) returns (account: AccountId)
    requires ledger.Valid() && amount.currency == GBP
    modifies ledger
    ensures ledger.Valid()
    ensures Balance(ledger.events, account) == Ok(Money(amount.amount, GBP))
  {
    var log, next := ledger.events, ledger.nextId;
    var openEvent, credited := NewAccountOpened(next + 1, next, 0), NewDeposit(next + 2, next, 0, amount);
    OpenThenDeposit(log, next, 0, amount);
    account := ledger.OpenAccount(0);
    assert account == next && ledger.events == log + [openEvent] && AccountExists(ledger.events, account);
    var deposited := ledger.Deposit(account, amount, 0);
    assert ledger.events == log + [openEvent] + [credited];
  }

  /** Depositing £10 then withdrawing £4 leaves £6. */
  method WithdrawalReducesBalanceWhenSufficientFunds() returns (balance: Result<Money, DomainError>)
    ensures balance == Ok(Money(600, GBP))
  {
    var ledger := new Ledger();
    balance := DepositThenWithdraw(ledger);
  }

  /** The same steps on any well-formed ledger. */
  method DepositThenWithdraw(ledger: Ledger) returns (balance: Result<Money, DomainError>)
    requires ledger.Valid()
    modifies ledger
    ensures balance == Ok(Money(600, GBP))
  {
    var ten := NewMinor(1000, GBP);
    var four := NewMinor(400, GBP);
    var account := OpenWithDeposit(ledger, ten.value);
    WithdrawLowersBalance(ledger.events, ledger.nextId, account, 0, four.value);
    var withdrawn := ledger.Withdraw(account, four.value, 0);
    balance := ledger.BalanceForAccount(account);
  }

  /** Withdrawing £10 from £5 fails with the required and available amounts. */
  method WithdrawalFailsWhenInsufficientFunds() returns (r: Result<EventId, DomainError>)
    ensures r == Err(InsufficientFunds(1000, 500))
  {
    var ledger := new Ledger();
    r := OverdrawFreshAccount(ledger);
  }

  /** The same steps on any well-formed ledger. */
  method OverdrawFreshAccount(ledger: Ledger) returns (r: Result<EventId, DomainError>)
    requires ledger.Valid()
    modifies ledger
    ensures r == Err(InsufficientFunds(1000, 500))
  {
    var five := NewMinor(500, GBP);
    var ten := NewMinor(1000, GBP);
    var account := OpenWithDeposit(ledger, five.value);
    r := ledger.Withdraw(account, ten.value, 0);
  }

  /**
   * Two withdrawals of £6 against a balance of £10, one after the other, on
   * any well-formed ledger: the first succeeds, the second fails, and £4 remains.
   */
  method SecondWithdrawalIsRefused(ledger: Ledger) returns (first: Result<EventId, DomainError>,
                                                            second: Result<EventId, DomainError>,
                                                            balance: Result<Money, DomainError>)
    requires ledger.Valid()
    modifies ledger
    ensures first.Ok? && second == Err(InsufficientFunds(600, 400)) && balance == Ok(Money(400, GBP))
  {
    var account := OpenWithDeposit(ledger, Money(1000, GBP));
    WithdrawLowersBalance(ledger.events, ledger.nextId, account, 0, Money(600, GBP));
    first := ledger.Withdraw(account, Money(600, GBP), 0);
    second := ledger.Withdraw(account, Money(600, GBP), 0);
    balance := ledger.BalanceForAccount(account);
  }
}
