/**
 * The ledger: an append-only log of events shared by all accounts.  Accounts
 * and balances are never stored; they are read off the log (module LedgerLog).
 */
module DomainLedger {
  import opened Results
  import opened DomainMoney
  import opened DomainEvents
  import opened DomainErrors
  import opened LedgerLog

  class Ledger {
    /** Every event ever appended, oldest first. */
    var events: seq<LedgerEvent>
    /** The next identifier the UUID generator hands out; all earlier ones are taken. */
    var nextId: Uuid

    ghost predicate Valid()
      reads this
    {
      WellFormed(events, nextId)
    }

    /** Ledger::new: an empty log, in which no account exists. */
    constructor ()
      ensures Valid() && events == [] && nextId == 0
      ensures forall a: AccountId :: !AccountExists(events, a)
    {
      events := [];
      nextId := 0;
      forall a: AccountId ensures WellFormed([], 0) && !AccountExists([], a) {
        EmptyWellFormed(a);
      }
    }

    /**
     * open_account: draws a fresh account id (then a fresh event id) and
     * appends exactly one AccountOpened event for it.
     */
    method OpenAccount(now: Timestamp) returns (id: AccountId)
      requires Valid()
      modifies this
      ensures Valid()
      ensures id == old(nextId) && nextId == old(nextId) + 2
      ensures !AccountExists(old(events), id) && AccountExists(events, id)
      ensures events == old(events) + [NewAccountOpened(id + 1, id, now)]
    {
      var log, next := events, nextId;
      var event := NewAccountOpened(next + 1, next, now);
      OpenKeepsWellFormed(log, next, now);
      assert (log + [event])[|log|] == event;
      events, nextId := log + [event], next + 2;
      id := next;
    }

    /**
     * deposit: for an existing account appends one Deposit event carrying the
     * amount and returns its fresh id; for an unknown account changes nothing.
     */
    method Deposit(account: AccountId, amount: Money, now: Timestamp) returns (r: Result<EventId, DomainError>)
      requires Valid()
      modifies this
      ensures Valid()
      ensures !AccountExists(old(events), account) ==>
        r == Err(AccountNotFound) && events == old(events) && nextId == old(nextId)
      ensures AccountExists(old(events), account) ==>
        r == Ok(old(nextId)) && nextId == old(nextId) + 1 &&
        events == old(events) + [NewDeposit(r.value, account, now, amount)]
      ensures r.Ok? ==> forall k | 0 <= k < |old(events)| :: old(events)[k].id != r.value
    {
      if !AccountExists(events, account) {
        return Err(AccountNotFound);
      }
      var next, log := nextId, events;
      var event := NewDeposit(next, account, now, amount);
      DepositKeepsWellFormed(log, next, account, now, amount);
      FreshEventId(log, next);
      events, nextId := log + [event], next + 1;
      r := Ok(next);
    }

    /**
     * withdraw: for an existing account computes the balance first; a failed
     * balance is passed on, a balance below the amount is InsufficientFunds,
     * and only otherwise is one Withdraw event appended.
     */
    method Withdraw(account: AccountId, amount: Money, now: Timestamp) returns (r: Result<EventId, DomainError>)
      requires Valid()
      modifies this
      ensures Valid()
      ensures r.Err? ==> events == old(events) && nextId == old(nextId)
      ensures !AccountExists(old(events), account) ==> r == Err(AccountNotFound)
      ensures AccountExists(old(events), account) && old(Balance(events, account)).Err? ==>
        r == Err(old(Balance(events, account)).error)
      ensures old(Balance(events, account)).Ok? && old(Balance(events, account)).value.amount < amount.amount ==>
        r == Err(InsufficientFunds(amount.amount, old(Balance(events, account)).value.amount))
      ensures old(Balance(events, account)).Ok? && amount.amount <= old(Balance(events, account)).value.amount ==>
        r == Ok(old(nextId)) && nextId == old(nextId) + 1 &&
        events == old(events) + [NewWithdraw(r.value, account, now, amount)]
      ensures r.Ok? ==> forall k | 0 <= k < |old(events)| :: old(events)[k].id != r.value
    {
      var next, log := nextId, events;
      ghost var before := Balance(log, account);
      if !AccountExists(log, account) {
        return Err(AccountNotFound);
      }
      var balance := BalanceForAccount(account);
      assert balance == before;
      if balance.Err? {
        return Err(balance.error);
      }
      if balance.value.amount < amount.amount {
        return Err(InsufficientFunds(amount.amount, balance.value.amount));
      }
      var event := NewWithdraw(next, account, now, amount);
      WithdrawKeepsWellFormed(log, next, account, now, amount);
      FreshEventId(log, next);
      events, nextId := log + [event], next + 1;
      r := Ok(next);
    }

    /**
     * balance_for_account: the loop over the account's events from zero GBP,
     * adding deposits, subtracting withdrawals and returning the first failure.
     */
    method BalanceForAccount(account: AccountId) returns (r: Result<Money, DomainError>)
      ensures r == Balance(events, account)
    {
      var found := EventsForAccount(events, account);
      if found.Err? {
        return Err(found.error);
      }
      var evs := found.value;
      var balance := Zero(GBP);
      for k := 0 to |evs|
        invariant Replay(evs[..k]) == Ok(balance)
      {
        ReplayStep(evs, k, balance);
        match evs[k].payload {
          case Deposit(amount) =>
            var sum := CheckedAdd(balance, amount);
            if sum.Err? {
              ReplayFailureSticks(evs, k + 1);
              return Err(InvalidMoney(sum.error));
            }
            balance := sum.value;
          case Withdraw(amount) =>
            var difference := CheckedSub(balance, amount);
            if difference.Err? {
              ReplayFailureSticks(evs, k + 1);
              return Err(InvalidMoney(difference.error));
            }
            balance := difference.value;
          case AccountOpened =>
        }
      }
      assert evs[..|evs|] == evs;
      r := Ok(balance);
    }
  }
}
