/**
 * The ledger's log as a value: which accounts exist, each account's events,
 * and its balance by replay.  The Ledger class applies these to its field
 * `events`; the lemmas here are the invariants its operations keep.
 */
module LedgerLog {
  import opened Results
  import opened DomainMoney
  import opened DomainEvents
  import opened DomainErrors

  // ---------------------------------------------------------------- lookup

  /** account_exists: some event in the log carries the account's id. */
  predicate AccountExists(log: seq<LedgerEvent>, account: AccountId) {
    exists k | 0 <= k < |log| :: log[k].accountId == account
  }

  /** The `iter().any` reading: the account exists exactly when some event of the log names it. */
  lemma AccountExistsIffSomeEvent(log: seq<LedgerEvent>, account: AccountId)
    ensures AccountExists(log, account) <==> exists e | e in log :: e.accountId == account
  {
  }

  /** The filter of events_for_account: the account's events, in append order. */
  function EventsFor(log: seq<LedgerEvent>, account: AccountId): (r: seq<LedgerEvent>)
    ensures |r| <= |log|
    ensures forall k | 0 <= k < |r| :: r[k].accountId == account && r[k] in log
    decreases |log|
  {
    if log == [] then []
    else
      var last := log[|log| - 1];
      EventsFor(log[..|log| - 1], account) + (if last.accountId == account then [last] else [])
  }

  /** Appending one event extends exactly the filter of its own account. */
  lemma EventsForSnoc(log: seq<LedgerEvent>, e: LedgerEvent, account: AccountId)
    ensures EventsFor(log + [e], account)
         == EventsFor(log, account) + (if e.accountId == account then [e] else [])
  {
    assert (log + [e])[..|log|] == log;
  }

  /** The filter distributes over concatenation, so it keeps append order. */
  lemma {:induction false} EventsForConcat(s: seq<LedgerEvent>, t: seq<LedgerEvent>, account: AccountId)
    ensures EventsFor(s + t, account) == EventsFor(s, account) + EventsFor(t, account)
    decreases |t|
  {
    if t == [] {
      assert s + t == s;
    } else {
      var t', e := t[..|t| - 1], t[|t| - 1];
      assert s + t == (s + t') + [e];
      assert t == t' + [e];
      EventsForConcat(s, t', account);
      EventsForSnoc(s + t', e, account);
      EventsForSnoc(t', e, account);
    }
  }

  /** Every event of the account in the log is in its filter. */
  lemma {:induction false} EventsForComplete(log: seq<LedgerEvent>, account: AccountId, k: nat)
    requires k < |log| && log[k].accountId == account
    ensures log[k] in EventsFor(log, account)
    decreases |log|
  {
    if k < |log| - 1 {
      EventsForComplete(log[..|log| - 1], account, k);
    }
  }

  /** An account exists exactly when its filter is not empty. */
  lemma {:induction false} ExistsIffEvents(log: seq<LedgerEvent>, account: AccountId)
    ensures AccountExists(log, account) <==> EventsFor(log, account) != []
  {
    if AccountExists(log, account) {
      var k :| 0 <= k < |log| && log[k].accountId == account;
      EventsForComplete(log, account, k);
    }
    if EventsFor(log, account) != [] {
      var r := EventsFor(log, account);
      assert r[0] in log && r[0].accountId == account;
    }
  }

  /** events_for_account: not found for an unknown account, otherwise its non-empty filter. */
  function EventsForAccount(log: seq<LedgerEvent>, account: AccountId): (r: Result<seq<LedgerEvent>, DomainError>)
    ensures !AccountExists(log, account) <==> r == Err(AccountNotFound)
    ensures r.Ok? ==> r.value == EventsFor(log, account) && r.value != []
  {
    if !AccountExists(log, account) then Err(AccountNotFound)
    else
      ExistsIffEvents(log, account);
      Ok(EventsFor(log, account))
  }

  // ---------------------------------------------------------------- replay

  /** One turn of the balance loop: Deposit adds, Withdraw subtracts, AccountOpened is skipped. */
  function Apply(balance: Money, e: LedgerEvent): Result<Money, MoneyError> {
    match e.payload
    case AccountOpened => Ok(balance)
    case Deposit(amount) => CheckedAdd(balance, amount)
    case Withdraw(amount) => CheckedSub(balance, amount)
  }

  /**
   * What one turn does: AccountOpened leaves the balance alone; an amount in
   * another currency is a mismatch; otherwise only an overdraw fails, and a
   * success adds the deposit or subtracts the withdrawal.
   */
  lemma ApplyCases(balance: Money, e: LedgerEvent)
    ensures e.payload.AccountOpened? ==> Apply(balance, e) == Ok(balance)
    ensures !e.payload.AccountOpened? && e.payload.amount.currency != balance.currency ==>
      Apply(balance, e) == Err(CurrencyMismatch(balance.currency, e.payload.amount.currency))
    ensures Apply(balance, e).Err? <==>
      (!e.payload.AccountOpened? &&
       (e.payload.amount.currency != balance.currency || (e.payload.Withdraw? && balance.amount < e.payload.amount.amount)))
    ensures Apply(balance, e).Ok? && e.payload.Deposit? ==>
      Apply(balance, e).value.amount == balance.amount + e.payload.amount.amount
    ensures Apply(balance, e).Ok? && e.payload.Withdraw? ==>
      Apply(balance, e).value.amount + e.payload.amount.amount == balance.amount
  {
  }

  /** The left fold of the balance over events from zero GBP, stopping at the first failure. */
  function Replay(evs: seq<LedgerEvent>): (r: Result<Money, MoneyError>)
    ensures r.Ok? ==> r.value.currency == GBP
    decreases |evs|
  {
    if evs == [] then Ok(Zero(GBP))
    else
      match Replay(evs[..|evs| - 1])
      case Err(e) => Err(e)
      case Ok(b) => Apply(b, evs[|evs| - 1])
  }

  lemma ReplaySnoc(evs: seq<LedgerEvent>, e: LedgerEvent)
    ensures Replay(evs + [e]) == match Replay(evs) { case Err(x) => Err(x) case Ok(b) => Apply(b, e) }
  {
    assert (evs + [e])[..|evs|] == evs;
  }

  /** One more turn of the fold over a prefix of the events. */
  lemma ReplayStep(evs: seq<LedgerEvent>, k: nat, balance: Money)
    requires k < |evs| && Replay(evs[..k]) == Ok(balance)
    ensures Replay(evs[..k + 1]) == Apply(balance, evs[k])
  {
    assert evs[..k + 1][..k] == evs[..k];
  }

  /** Once the fold has failed on a prefix, the whole replay fails the same way. */
  lemma {:induction false} ReplayFailureSticks(evs: seq<LedgerEvent>, k: nat)
    requires k <= |evs| && Replay(evs[..k]).Err?
    ensures Replay(evs) == Replay(evs[..k])
    decreases |evs| - k
  {
    if k < |evs| {
      ReplaySnoc(evs[..k], evs[k]);
      assert evs[..k + 1] == evs[..k] + [evs[k]];
      ReplayFailureSticks(evs, k + 1);
    } else {
      assert evs[..k] == evs;
    }
  }

  /** balance_for_account: not found for an unknown account, otherwise the replay of its events. */
  function Balance(log: seq<LedgerEvent>, account: AccountId): (r: Result<Money, DomainError>)
    ensures !AccountExists(log, account) <==> r == Err(AccountNotFound)
    ensures r.Ok? ==> r.value.currency == GBP
  {
    if !AccountExists(log, account) then Err(AccountNotFound)
    else
      match Replay(EventsFor(log, account))
      case Ok(b) => Ok(b)
      case Err(e) => Err(InvalidMoney(e))
  }

  // ---------------------------------------------------------------- totals

  /** The sum of the deposited minor units, whatever their currency. */
  function Deposited(evs: seq<LedgerEvent>): nat
    decreases |evs|
  {
    if evs == [] then 0
    else
      var e := evs[|evs| - 1];
      Deposited(evs[..|evs| - 1]) + (if e.payload.Deposit? then e.payload.amount.amount else 0)
  }

  /** The sum of the withdrawn minor units, whatever their currency. */
  function Withdrawn(evs: seq<LedgerEvent>): nat
    decreases |evs|
  {
    if evs == [] then 0
    else
      var e := evs[|evs| - 1];
      Withdrawn(evs[..|evs| - 1]) + (if e.payload.Withdraw? then e.payload.amount.amount else 0)
  }

  /** Every amount the events carry is in GBP, the fold's working currency. */
  predicate GbpOnly(evs: seq<LedgerEvent>) {
    forall k | 0 <= k < |evs| :: !evs[k].payload.AccountOpened? ==> evs[k].payload.amount.currency == GBP
  }

  /** At no point in the history have withdrawals exceeded deposits. */
  predicate Covered(evs: seq<LedgerEvent>) {
    forall k | 0 <= k <= |evs| :: Withdrawn(evs[..k]) <= Deposited(evs[..k])
  }

  lemma CoveredEmpty()
    ensures Covered([])
  {
    var none: seq<LedgerEvent> := [];
    assert none[..0] == none;
  }

  lemma CoveredTotal(evs: seq<LedgerEvent>)
    requires Covered(evs)
    ensures Withdrawn(evs) <= Deposited(evs)
  {
    assert evs[..|evs|] == evs;
  }

  lemma GbpOnlySnoc(evs: seq<LedgerEvent>, e: LedgerEvent)
    ensures GbpOnly(evs + [e]) <==> GbpOnly(evs) && (!e.payload.AccountOpened? ==> e.payload.amount.currency == GBP)
  {
    var s := evs + [e];
    assert forall k | 0 <= k < |evs| :: s[k] == evs[k];
    assert s[|evs|] == e;
  }

  lemma CoveredSnoc(evs: seq<LedgerEvent>, e: LedgerEvent)
    ensures Covered(evs + [e]) <==> Covered(evs) && Withdrawn(evs + [e]) <= Deposited(evs + [e])
  {
    var s := evs + [e];
    assert forall k | 0 <= k <= |evs| :: s[..k] == evs[..k];
    assert s[..|s|] == s;
    assert evs[..|evs|] == evs;
  }

  lemma TotalsSnoc(evs: seq<LedgerEvent>, e: LedgerEvent)
    ensures Deposited(evs + [e]) == Deposited(evs) + (if e.payload.Deposit? then e.payload.amount.amount else 0)
    ensures Withdrawn(evs + [e]) == Withdrawn(evs) + (if e.payload.Withdraw? then e.payload.amount.amount else 0)
  {
    assert (evs + [e])[..|evs|] == evs;
  }

  /**
   * The fold against its reference: the replay succeeds exactly when every
   * amount is GBP and withdrawals never outran deposits, and then the balance
   * is deposits minus withdrawals.
   */
  lemma {:induction false} ReplayMatchesTotals(evs: seq<LedgerEvent>)
    ensures Replay(evs).Ok? <==> GbpOnly(evs) && Covered(evs)
    ensures Replay(evs).Ok? ==> Replay(evs).value.amount == Deposited(evs) - Withdrawn(evs)
    decreases |evs|
  {
    if evs == [] {
      assert evs[..0] == [];
    } else {
      var p, e := evs[..|evs| - 1], evs[|evs| - 1];
      assert evs == p + [e];
      ReplayMatchesTotals(p);
      ReplaySnoc(p, e);
      GbpOnlySnoc(p, e);
      CoveredSnoc(p, e);
      TotalsSnoc(p, e);
    }
  }

  // ---------------------------------------------------------------- effects of one append

  /** Isolation: an event for another account changes nothing about this one. */
  lemma OtherAccountUnaffected(log: seq<LedgerEvent>, e: LedgerEvent, account: AccountId)
    requires e.accountId != account
    ensures EventsFor(log + [e], account) == EventsFor(log, account)
    ensures AccountExists(log + [e], account) == AccountExists(log, account)
    ensures Balance(log + [e], account) == Balance(log, account)
  {
    EventsForSnoc(log, e, account);
    ExistsIffEvents(log, account);
    ExistsIffEvents(log + [e], account);
  }

  /** An account's balance depends on its own events and on nothing else in the log. */
  lemma BalanceDependsOnlyOnOwnEvents(log1: seq<LedgerEvent>, log2: seq<LedgerEvent>, account: AccountId)
    requires EventsFor(log1, account) == EventsFor(log2, account)
    ensures Balance(log1, account) == Balance(log2, account)
  {
    ExistsIffEvents(log1, account);
    ExistsIffEvents(log2, account);
  }

  /** An event appended to an account whose balance is known is one more turn of its fold. */
  lemma BalanceSnoc(log: seq<LedgerEvent>, e: LedgerEvent, balance: Money)
    requires Balance(log, e.accountId) == Ok(balance)
    ensures Balance(log + [e], e.accountId) ==
      match Apply(balance, e)
      case Ok(c) => Ok(c)
      case Err(x) => Err(InvalidMoney(x))
  {
    var a, evs := e.accountId, EventsFor(log, e.accountId);
    assert Replay(evs) == Ok(balance);
    EventsForSnoc(log, e, a);
    assert EventsFor(log + [e], a) == evs + [e];
    ExistsIffEvents(log + [e], a);
    ReplaySnoc(evs, e);
    assert Replay(evs + [e]) == Apply(balance, e);
  }

  /** A GBP deposit raises a known balance by its amount. */
  lemma DepositRaisesBalance(log: seq<LedgerEvent>, id: EventId, account: AccountId, t: Timestamp, amount: Money)
    requires Balance(log, account).Ok? && amount.currency == GBP
    ensures Balance(log + [NewDeposit(id, account, t, amount)], account)
         == Ok(Money(Balance(log, account).value.amount + amount.amount, GBP))
  {
    BalanceSnoc(log, NewDeposit(id, account, t, amount), Balance(log, account).value);
  }

  /** A covered GBP withdrawal lowers a known balance by its amount. */
  lemma WithdrawLowersBalance(log: seq<LedgerEvent>, id: EventId, account: AccountId, t: Timestamp, amount: Money)
    requires Balance(log, account).Ok? && amount.currency == GBP
    requires amount.amount <= Balance(log, account).value.amount
    ensures Balance(log + [NewWithdraw(id, account, t, amount)], account)
         == Ok(Money(Balance(log, account).value.amount - amount.amount, GBP))
  {
    BalanceSnoc(log, NewWithdraw(id, account, t, amount), Balance(log, account).value);
  }

  /**
   * Deposit does not check the currency: a deposit in any other currency makes
   * the next balance of the account fail with a mismatch (and, by
   * BalanceFailureSticks, every later one).
   */
  lemma ForeignDepositSpoilsBalance(log: seq<LedgerEvent>, id: EventId, account: AccountId, t: Timestamp, amount: Money)
    requires Balance(log, account).Ok? && amount.currency != GBP
    ensures Balance(log + [NewDeposit(id, account, t, amount)], account)
         == Err(InvalidMoney(CurrencyMismatch(GBP, amount.currency)))
  {
    var e, b := NewDeposit(id, account, t, amount), Balance(log, account).value;
    BalanceSnoc(log, e, b);
    assert Apply(b, e) == Err(CurrencyMismatch(GBP, amount.currency));
  }

  /** Withdraw does not check the currency either, with the same effect. */
  lemma ForeignWithdrawalSpoilsBalance(log: seq<LedgerEvent>, id: EventId, account: AccountId, t: Timestamp, amount: Money)
    requires Balance(log, account).Ok? && amount.currency != GBP
    ensures Balance(log + [NewWithdraw(id, account, t, amount)], account)
         == Err(InvalidMoney(CurrencyMismatch(GBP, amount.currency)))
  {
    BalanceSnoc(log, NewWithdraw(id, account, t, amount), Balance(log, account).value);
  }

  /** Once an existing account's balance has failed, no later events repair it. */
  lemma BalanceFailureSticks(log: seq<LedgerEvent>, more: seq<LedgerEvent>, account: AccountId)
    requires AccountExists(log, account) && Balance(log, account).Err?
    ensures Balance(log + more, account) == Balance(log, account)
  {
    var evs, rest := EventsFor(log, account), EventsFor(more, account);
    EventsForConcat(log, more, account);
    ExistsIffEvents(log, account);
    ExistsIffEvents(log + more, account);
    assert (evs + rest)[..|evs|] == evs;
    ReplayFailureSticks(evs + rest, |evs|);
  }

  // ---------------------------------------------------------------- invariant of a ledger's log

  /** Every identifier in the log was drawn before `next`. */
  ghost predicate IdsBelow(log: seq<LedgerEvent>, next: Uuid) {
    forall k | 0 <= k < |log| :: log[k].id < next && log[k].accountId < next
  }

  /** No two events share an id. */
  ghost predicate UniqueEventIds(log: seq<LedgerEvent>) {
    forall i, j | 0 <= i < j < |log| :: log[i].id != log[j].id
  }

  /** No event id is also an account id. */
  ghost predicate EventIdsNotAccountIds(log: seq<LedgerEvent>) {
    forall i, j | 0 <= i < |log| && 0 <= j < |log| :: log[i].id != log[j].accountId
  }

  /** The account's history is one AccountOpened followed by deposits and withdrawals. */
  ghost predicate OpenedFirstFor(log: seq<LedgerEvent>, account: AccountId) {
    var evs := EventsFor(log, account);
    forall k | 0 <= k < |evs| :: evs[k].payload.AccountOpened? <==> k == 0
  }

  ghost predicate OpenedFirst(log: seq<LedgerEvent>) {
    forall a: AccountId :: OpenedFirstFor(log, a)
  }

  /** The account's withdrawals have never outrun its deposits. */
  ghost predicate SolventFor(log: seq<LedgerEvent>, account: AccountId) {
    Covered(EventsFor(log, account))
  }

  ghost predicate Solvent(log: seq<LedgerEvent>) {
    forall a: AccountId :: SolventFor(log, a)
  }

  ghost predicate WellFormed(log: seq<LedgerEvent>, next: Uuid) {
    IdsBelow(log, next) && UniqueEventIds(log) && EventIdsNotAccountIds(log) && OpenedFirst(log) && Solvent(log)
  }

  lemma FreshIdKeepsIds(log: seq<LedgerEvent>, next: Uuid, e: LedgerEvent, next': Uuid)
    requires IdsBelow(log, next) && UniqueEventIds(log) && EventIdsNotAccountIds(log)
    requires next <= e.id < next' && e.accountId < next' && e.accountId != e.id
    requires forall k | 0 <= k < |log| :: log[k].id != e.accountId
    ensures IdsBelow(log + [e], next') && UniqueEventIds(log + [e]) && EventIdsNotAccountIds(log + [e])
  {
    var s := log + [e];
    assert forall k | 0 <= k < |log| :: s[k] == log[k];
  }

  /** An id drawn at `next` is not the id of any event already in the log. */
  lemma FreshEventId(log: seq<LedgerEvent>, next: Uuid)
    requires IdsBelow(log, next)
    ensures forall k | 0 <= k < |log| :: log[k].id != next
  {
  }

  /** An id drawn at `next` names no account of the log yet. */
  lemma FreshAccountId(log: seq<LedgerEvent>, next: Uuid)
    requires IdsBelow(log, next)
    ensures !AccountExists(log, next)
  {
  }

  /** The empty log of a new ledger is well formed, and no account exists in it. */
  lemma EmptyWellFormed(account: AccountId)
    ensures WellFormed([], 0) && !AccountExists([], account)
  {
    assert forall a: AccountId :: EventsFor([], a) == [];
    CoveredEmpty();
  }

  /** The first event of a new account opens it. */
  lemma OpenedFirstNewAccount(log: seq<LedgerEvent>, e: LedgerEvent)
    requires OpenedFirst(log) && !AccountExists(log, e.accountId) && e.payload.AccountOpened?
    ensures OpenedFirst(log + [e])
  {
    ExistsIffEvents(log, e.accountId);
    forall a: AccountId ensures OpenedFirstFor(log + [e], a) {
      EventsForSnoc(log, e, a);
      assert OpenedFirstFor(log, a);
    }
  }

  /** A later event of an existing account is no AccountOpened. */
  lemma OpenedFirstOldAccount(log: seq<LedgerEvent>, e: LedgerEvent)
    requires OpenedFirst(log) && AccountExists(log, e.accountId) && !e.payload.AccountOpened?
    ensures OpenedFirst(log + [e])
  {
    ExistsIffEvents(log, e.accountId);
    forall a: AccountId ensures OpenedFirstFor(log + [e], a) {
      EventsForSnoc(log, e, a);
      assert OpenedFirstFor(log, a);
      if a == e.accountId {
        var old_, new_ := EventsFor(log, a), EventsFor(log + [e], a);
        assert new_ == old_ + [e];
        forall k | 0 <= k < |new_| ensures new_[k].payload.AccountOpened? <==> k == 0 {
          if k < |old_| { assert new_[k] == old_[k]; }
        }
      }
    }
  }

  /** Solvency needs checking only for the account that gained an event. */
  lemma SolventAppend(log: seq<LedgerEvent>, e: LedgerEvent)
    requires Solvent(log) && Covered(EventsFor(log + [e], e.accountId))
    ensures Solvent(log + [e])
  {
    forall a: AccountId ensures SolventFor(log + [e], a) {
      EventsForSnoc(log, e, a);
      if a != e.accountId {
        assert EventsFor(log + [e], a) == EventsFor(log, a) + [] == EventsFor(log, a);
        assert SolventFor(log, a);
      }
    }
  }

  /** A history stays covered when the appended event keeps withdrawals within deposits. */
  lemma CoveredAppend(evs: seq<LedgerEvent>, e: LedgerEvent)
    requires Covered(evs)
    requires Withdrawn(evs) + (if e.payload.Withdraw? then e.payload.amount.amount else 0)
          <= Deposited(evs) + (if e.payload.Deposit? then e.payload.amount.amount else 0)
    ensures Covered(evs + [e])
  {
    CoveredSnoc(evs, e);
    TotalsSnoc(evs, e);
  }

  /** open_account: its fresh id names no account yet, and the log stays well formed. */
  lemma OpenKeepsWellFormed(log: seq<LedgerEvent>, next: Uuid, t: Timestamp)
    requires WellFormed(log, next)
    ensures !AccountExists(log, next)
    ensures WellFormed(log + [NewAccountOpened(next + 1, next, t)], next + 2)
  {
    var e := NewAccountOpened(next + 1, next, t);
    FreshIdKeepsIds(log, next, e, next + 2);
    OpenedFirstNewAccount(log, e);
    ExistsIffEvents(log, next);
    EventsForSnoc(log, e, next);
    CoveredEmpty();
    CoveredAppend([], e);
    assert EventsFor(log + [e], next) == [] + [e];
    SolventAppend(log, e);
  }

  /** A freshly opened account has balance zero GBP. */
  lemma OpenedBalanceIsZero(log: seq<LedgerEvent>, next: Uuid, t: Timestamp)
    requires WellFormed(log, next)
    ensures Balance(log + [NewAccountOpened(next + 1, next, t)], next) == Ok(Zero(GBP))
  {
    var e := NewAccountOpened(next + 1, next, t);
    FreshAccountId(log, next);
    ExistsIffEvents(log, next);
    EventsForSnoc(log, e, next);
    assert EventsFor(log + [e], next) == [e];
    ExistsIffEvents(log + [e], next);
    assert Replay([e]) == Ok(Zero(GBP)) by {
      ReplaySnoc([], e);
      assert [] + [e] == [e];
    }
  }

  /** deposit: the log stays well formed. */
  lemma DepositKeepsWellFormed(log: seq<LedgerEvent>, next: Uuid, account: AccountId, t: Timestamp, amount: Money)
    requires WellFormed(log, next) && AccountExists(log, account)
    ensures WellFormed(log + [NewDeposit(next, account, t, amount)], next + 1)
  {
    var e := NewDeposit(next, account, t, amount);
    var j :| 0 <= j < |log| && log[j].accountId == account;
    FreshIdKeepsIds(log, next, e, next + 1);
    OpenedFirstOldAccount(log, e);
    EventsForSnoc(log, e, account);
    assert SolventFor(log, account);
    CoveredTotal(EventsFor(log, account));
    CoveredAppend(EventsFor(log, account), e);
    SolventAppend(log, e);
  }

  /** withdraw: appending a withdrawal that the balance covers keeps the log well formed. */
  lemma WithdrawKeepsWellFormed(log: seq<LedgerEvent>, next: Uuid, account: AccountId, t: Timestamp, amount: Money)
    requires WellFormed(log, next) && Balance(log, account).Ok?
    requires amount.amount <= Balance(log, account).value.amount
    ensures WellFormed(log + [NewWithdraw(next, account, t, amount)], next + 1)
  {
    var e := NewWithdraw(next, account, t, amount);
    var j :| 0 <= j < |log| && log[j].accountId == account;
    FreshIdKeepsIds(log, next, e, next + 1);
    OpenedFirstOldAccount(log, e);
    ReplayMatchesTotals(EventsFor(log, account));
    EventsForSnoc(log, e, account);
    CoveredAppend(EventsFor(log, account), e);
    SolventAppend(log, e);
  }

  /**
   * The balance of an account whose amounts are all GBP is deposits minus
   * withdrawals, and never negative.
   */
  lemma BalanceIsNet(log: seq<LedgerEvent>, next: Uuid, account: AccountId)
    requires WellFormed(log, next) && AccountExists(log, account) && GbpOnly(EventsFor(log, account))
    ensures Withdrawn(EventsFor(log, account)) <= Deposited(EventsFor(log, account))
    ensures Balance(log, account).Ok?
    ensures Balance(log, account).value.amount
         == Deposited(EventsFor(log, account)) - Withdrawn(EventsFor(log, account))
  {
    var evs := EventsFor(log, account);
    assert SolventFor(log, account);
    ReplayMatchesTotals(evs);
  }
}
