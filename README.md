# Event-based ledger: a Dafny model of the domain core

This project models the domain core of a small event-sourced bank ledger
written in Rust, and proves properties of that model.

- **Money** is a non-negative count of minor units (pence, cents) tagged with
  a currency. It has checked construction, checked addition and subtraction,
  and a `£12.34`-style rendering.
- **Ledger events** are immutable records. Each one says that an account was
  opened, credited or debited.
- **The ledger** is an append-only log of such events shared by all accounts.
  An account exists exactly when some event carries its id. Its balance is
  never stored: it is recomputed by folding the account's events from zero
  GBP, using the checked money operations.

Layout, one module per file:

| file | module | models |
|---|---|---|
| `results.dfy` | `Results` | `Result<T, E>`, Rust's `Result` |
| `decimal.dfy` | `Decimal` | decimal rendering of naturals and `{:02}` zero padding |
| `money.dfy` | `DomainMoney` | `src/domain/money.rs` |
| `errors.dfy` | `DomainErrors` | `src/domain/errors.rs` (the datatype only) |
| `events.dfy` | `DomainEvents` | `src/domain/events.rs` |
| `ledger_log.dfy` | `LedgerLog` | the read-only half of `src/domain/ledger.rs` as functions on the log, plus the log invariant |
| `ledger.dfy` | `DomainLedger` | the `Ledger` struct as a class with fields `events` and `nextId` |
| `ledger_scenarios.dfy` | `LedgerScenarios` | the unit tests of `src/domain/ledger.rs`, plus one scenario of two sequential withdrawals, as client code of the class |

Modelling decisions:

- **Money amounts.** `Money.amount` is a `nat`. The source's invariant
  "amount >= 0" (money.rs:24) therefore holds by typing. The three checked
  operations that build a Money (`NewMinor`, `CheckedAdd`, `CheckedSub`) are
  proved to respect it. The source has a fourth, unchecked way to build one,
  the derived `Deserialize` (see "Left out").
- **Identifiers.** `AccountId` and `EventId` (v4 UUIDs in the source) are
  naturals drawn from one counter, the field `Ledger.nextId`. "Newly
  generated" becomes "not used before". `open_account` generates the account
  id before the event id (ledger.rs:34, then events.rs:28), so the account
  gets `n` and its AccountOpened event gets `n + 1`.
- **Timestamps.** The clock reading is a `Timestamp` (an `int`) that the
  caller passes in. Nothing inspects it.
- **The GBP variant.** `src/domain/ledger.rs:91` uses `Money::zero` and
  `Currency::Gbp`, which `money.rs` does not define (it declares
  `Currency::GBP`). The model uses `Zero(c) = Money(0, c)` and the one
  variant `GBP`.
- **The ledger as a class.** The methods mutate the class's fields, as the
  source mutates its `Vec`. What their results mean is given by pure
  functions on the log: `AccountExists`, `EventsFor`, `EventsForAccount`,
  `Replay` and `Balance`. The loop of `balance_for_account` is a method proved
  equal to `Balance`.
- **The class invariant `Valid()`.** It is `WellFormed(events, nextId)`:
  - every id is below the counter;
  - event ids are unique and never equal to an account id;
  - every account's history starts with exactly one AccountOpened;
  - no account's withdrawals have ever exceeded its deposits.

## Model

| member | source | states |
|---|---|---|
| DomainMoney.Symbol | src/domain/money.rs:13-19 | the symbol of a currency is one character |
| DomainMoney.SymbolsDistinct | src/domain/money.rs:13-19 | the symbols are "€" for EUR, "£" for GBP and "$" for USD, and two currencies have the same symbol only if they are the same currency |
| DomainMoney.NewMinor | src/domain/money.rs:40-45 | fails exactly when the amount is negative, and then with Negative(amount); otherwise returns that amount in that currency |
| DomainMoney.NewMinorRoundTrip | src/domain/money.rs:22-27 | every Money value of the model is what new_minor builds from its own amount and currency |
| DomainMoney.Zero | src/domain/ledger.rs:91 | zero minor units in the given currency |
| DomainMoney.CheckedAdd | src/domain/money.rs:55-63 | fails exactly on a currency mismatch, with CurrencyMismatch(self, other); otherwise gives the sum in self's currency |
| DomainMoney.CheckedSub | src/domain/money.rs:65-76 | a mismatch fails with CurrencyMismatch; a larger subtrahend fails with Negative(self - other); otherwise gives the non-negative difference in self's currency; it fails in exactly these two cases |
| DomainMoney.SubUndoesAdd | src/domain/money.rs:55-76 | for equal currencies, addition succeeds and subtracting the same amount again gives back the original value |
| DomainMoney.AddUndoesSub | src/domain/money.rs:55-76 | whenever subtraction succeeds, adding the subtrahend back gives back the original value |
| DomainMoney.ZeroIsIdentity | src/domain/money.rs:55-76 | zero of the same currency is a left and right identity of addition and a right identity of subtraction |
| DomainMoney.ArithmeticExamples | src/domain/money.rs:103-144 | new_minor(-1) is Negative(-1); new_minor(123, GBP) is 123 GBP; 100 + 50 GBP is 150 GBP; GBP + USD is CurrencyMismatch(GBP, USD); 100 - 150 GBP is a Negative error |
| DomainMoney.Display | src/domain/money.rs:79-94 | the rendering is at least five characters long and starts with the currency symbol |
| DomainMoney.DisplayLayout | src/domain/money.rs:79-94 | after the symbol come decimal digits with value amount / 100, a '.', and exactly two digits with value amount % 100; these digits recombine to the amount; the major digits have no leading zero, so the layout fixes the string |
| DomainMoney.DisplayInjective | src/domain/money.rs:79-94 | two Money values with the same rendering are equal, so the rendering loses nothing |
| DomainMoney.DisplayPounds | src/domain/money.rs:147-151 | 3400 GBP renders as "£34.00" |
| DomainMoney.DisplayPence | src/domain/money.rs:153-157 | 99 GBP renders as "£0.99" |
| DomainMoney.DisplayDollars | src/domain/money.rs:159-163 | 1250 USD renders as "$12.50" |
| DomainMoney.DisplayEuros | src/domain/money.rs:165-169 | 12345 EUR renders as "€123.45" |
| DomainMoney.DisplayZeroEuros | src/domain/money.rs:171-175 | 0 EUR renders as "€0.00" |
| Decimal.NatToString | src/domain/money.rs:88-92 | the `{}` rendering of a natural is at least one character, all decimal digits, and has no leading zero unless it is "0" |
| Decimal.ZeroPad | src/domain/money.rs:88-92 | the `{:02}` padding is exactly as long as the string or the width, whichever is larger |
| Decimal.NatToStringValue | src/domain/money.rs:88-92 | the decimal rendering of a natural (written by `{}`) consists of digits whose value is that natural |
| Decimal.NatToStringInjective | src/domain/money.rs:88-92 | distinct naturals render differently |
| Decimal.ZeroPadValue | src/domain/money.rs:88-92 | left-padding with '0' (written by `{:02}`) keeps the string all digits and keeps its value |
| Decimal.TwoDigitPad | src/domain/money.rs:88-92 | a natural below 100, padded to width 2, is exactly two digits with that value |
| DomainEvents.NewAccountOpened | src/domain/events.rs:26-33 | the event carries the given account id, event id and time, and payload AccountOpened |
| DomainEvents.NewDeposit | src/domain/events.rs:35-42 | the event carries the given account id, event id and time, and a Deposit payload with the amount unchanged |
| DomainEvents.NewWithdraw | src/domain/events.rs:44-51 | the event carries the given account id, event id and time, and a Withdraw payload with the amount unchanged |
| LedgerLog.AccountExists | src/domain/ledger.rs:45-49 | account_exists: some event of the log carries the account's id (a predicate; its meaning is stated by AccountExistsIffSomeEvent and ExistsIffEvents) |
| LedgerLog.AccountExistsIffSomeEvent | src/domain/ledger.rs:45-49 | the account exists exactly when some event in the log names it, as `iter().any` checks |
| LedgerLog.EventsFor | src/domain/ledger.rs:26-30 | the filter is no longer than the log, and every event in it belongs to the account and comes from the log |
| LedgerLog.EventsForSnoc | src/domain/ledger.rs:26-30 | appending an event extends exactly the filter of its own account |
| LedgerLog.EventsForConcat | src/domain/ledger.rs:26-30 | the filter distributes over concatenation, so it keeps append order |
| LedgerLog.EventsForComplete | src/domain/ledger.rs:26-30 | every event of the account in the log is in its filter |
| LedgerLog.ExistsIffEvents | src/domain/ledger.rs:45-49 | an account exists (some event carries its id) exactly when its filter is non-empty |
| LedgerLog.EventsForAccount | src/domain/ledger.rs:19-31 | AccountNotFound exactly when the account does not exist; otherwise the account's filtered events, which are never empty |
| LedgerLog.Apply | src/domain/ledger.rs:94-102 | one turn of the loop: AccountOpened is skipped, Deposit is checked_add, Withdraw is checked_sub (a function; what a turn does is stated by ApplyCases) |
| LedgerLog.ApplyCases | src/domain/ledger.rs:94-102 | AccountOpened leaves the balance as it is; a deposit or withdrawal in another currency fails with CurrencyMismatch(balance, amount); otherwise a turn fails exactly when a withdrawal exceeds the balance; a success adds the deposit or subtracts the withdrawal |
| LedgerLog.Replay | src/domain/ledger.rs:90-105 | a successful fold from zero GBP ends in GBP |
| LedgerLog.ReplaySnoc | src/domain/ledger.rs:93-103 | folding one more event is one turn of the loop, and a failure is passed on unchanged |
| LedgerLog.ReplayStep | src/domain/ledger.rs:93-103 | from a known balance on a prefix, the next prefix's fold is that event applied to that balance |
| LedgerLog.ReplayFailureSticks | src/domain/ledger.rs:96-99 | once the fold fails on a prefix, `?` makes the whole fold fail with that same error |
| LedgerLog.Balance | src/domain/ledger.rs:87-106 | AccountNotFound exactly when the account does not exist; a successful balance is in GBP |
| LedgerLog.ReplayMatchesTotals | src/domain/ledger.rs:87-106 | the fold succeeds exactly when every amount is GBP and no prefix withdraws more than it deposits, and then the balance is deposits minus withdrawals |
| LedgerLog.OtherAccountUnaffected | src/domain/ledger.rs:19-31 | an event for another account changes neither this account's events, nor its existence, nor its balance |
| LedgerLog.BalanceDependsOnlyOnOwnEvents | src/domain/ledger.rs:87-88 | two logs with the same events for an account give it the same balance |
| LedgerLog.BalanceSnoc | src/domain/ledger.rs:93-103 | from a known balance, appending an event of the account gives that event applied to it, with a money error wrapped as InvalidMoney |
| LedgerLog.DepositRaisesBalance | src/domain/ledger.rs:58-61 | a GBP deposit raises a known balance by exactly its amount |
| LedgerLog.WithdrawLowersBalance | src/domain/ledger.rs:79-82 | a GBP withdrawal covered by the balance lowers it by exactly its amount |
| LedgerLog.ForeignDepositSpoilsBalance | src/domain/ledger.rs:51-64 | deposit does not check the currency; a deposit in a currency other than GBP makes the next balance fail with InvalidMoney(CurrencyMismatch(GBP, that currency)) |
| LedgerLog.ForeignWithdrawalSpoilsBalance | src/domain/ledger.rs:66-85 | withdraw does not check the currency either; a withdrawal in a currency other than GBP makes the next balance fail with InvalidMoney(CurrencyMismatch(GBP, that currency)) |
| LedgerLog.BalanceFailureSticks | src/domain/ledger.rs:87-106 | once an existing account's balance has failed, appending any events leaves it failing with the same error |
| LedgerLog.FreshIdKeepsIds | src/domain/events.rs:28 | appending an event with an id drawn from the counter keeps ids below the counter, event ids unique, and event ids distinct from account ids |
| LedgerLog.FreshEventId | src/domain/events.rs:37 | an id drawn at the counter is the id of no earlier event |
| LedgerLog.FreshAccountId | src/domain/ledger.rs:34 | an id drawn at the counter names no account of the log yet |
| LedgerLog.EmptyWellFormed | src/domain/ledger.rs:11-13 | the empty log, with the counter at 0, is well formed, and no account exists in it |
| LedgerLog.OpenedFirstNewAccount | src/domain/ledger.rs:33-43 | appending AccountOpened for an account that does not exist keeps every history starting with exactly one AccountOpened |
| LedgerLog.OpenedFirstOldAccount | src/domain/ledger.rs:51-85 | appending a deposit or withdrawal to an existing account keeps every history starting with exactly one AccountOpened |
| LedgerLog.SolventAppend | src/domain/ledger.rs:66-85 | solvency of the whole log needs checking only for the account that gained an event |
| LedgerLog.CoveredAppend | src/domain/ledger.rs:75-82 | a history stays covered when the appended event keeps total withdrawals within total deposits |
| LedgerLog.OpenKeepsWellFormed | src/domain/ledger.rs:33-43 | the freshly drawn account id names no existing account, and appending its AccountOpened keeps the log well formed |
| LedgerLog.OpenedBalanceIsZero | src/domain/ledger.rs:33-43 | a freshly opened account has balance zero GBP |
| LedgerLog.DepositKeepsWellFormed | src/domain/ledger.rs:51-64 | appending a deposit to an existing account keeps the log well formed, whatever the amount |
| LedgerLog.WithdrawKeepsWellFormed | src/domain/ledger.rs:73-84 | appending a withdrawal that the current balance covers keeps the log well formed |
| LedgerLog.BalanceIsNet | src/domain/ledger.rs:87-106 | in a well-formed log, an existing account whose amounts are all GBP has a successful balance equal to deposits minus withdrawals, which is never negative |
| DomainLedger.Ledger.constructor | src/domain/ledger.rs:11-13 | an empty, well-formed log in which no account exists |
| DomainLedger.Ledger.OpenAccount | src/domain/ledger.rs:33-43 | returns an id that named no account; appends exactly one AccountOpened event for it and nothing else; afterwards the account exists and the invariant holds |
| DomainLedger.Ledger.Deposit | src/domain/ledger.rs:51-64 | an unknown account gives AccountNotFound and changes nothing; otherwise exactly one Deposit event with the amount is appended, and its fresh id is returned |
| DomainLedger.Ledger.Withdraw | src/domain/ledger.rs:66-85 | an unknown account gives AccountNotFound; a failing balance is passed on; a balance below the amount gives InsufficientFunds(amount, balance); every failure changes nothing; otherwise exactly one Withdraw event is appended and its fresh id returned; the invariant holds throughout |
| DomainLedger.Ledger.BalanceForAccount | src/domain/ledger.rs:87-106 | the loop returns exactly the specification Balance of the current log |
| LedgerScenarios.OpenThenDeposit | src/domain/ledger.rs:118-121 | on a well-formed log, opening an account and depositing a GBP amount into it leaves that amount as the balance that `balance_for_account` (ledger.rs:87-106) then computes |
| LedgerScenarios.OpenThenDepositEvents | src/domain/ledger.rs:116-124 | the events of an account just opened and credited are its opening followed by the deposit |
| LedgerScenarios.DepositIntoFreshAccount | src/domain/ledger.rs:116-133 | on any well-formed ledger, after opening an account and depositing £10, the account has two events and the last is a £10 deposit |
| LedgerScenarios.DepositIntoExistingAccountAppendsEvent | src/domain/ledger.rs:116-133 | on a new ledger, the account has two events and the last is a £10 deposit |
| LedgerScenarios.DepositIntoUnknownAccountFails | src/domain/ledger.rs:136-144 | depositing into any account of a new ledger gives AccountNotFound and leaves the log empty |
| LedgerScenarios.UnknownDepositCheckAcceptsOtherErrors | src/domain/ledger.rs:141-143 | the test's check as written passes for a deposit failing with InsufficientFunds, which is not AccountNotFound |
| LedgerScenarios.OpenWithDeposit | src/domain/ledger.rs:147-157 | on any well-formed ledger, opening an account and depositing a GBP amount leaves that amount as its balance |
| LedgerScenarios.DepositThenWithdraw | src/domain/ledger.rs:147-159 | on any well-formed ledger, depositing £10 and then withdrawing £4 leaves a balance of £6 |
| LedgerScenarios.WithdrawalReducesBalanceWhenSufficientFunds | src/domain/ledger.rs:147-159 | on a new ledger, depositing £10 and then withdrawing £4 leaves a balance of £6 |
| LedgerScenarios.OverdrawFreshAccount | src/domain/ledger.rs:162-182 | on any well-formed ledger, withdrawing £10 from a fresh account holding £5 fails with InsufficientFunds(1000, 500) |
| LedgerScenarios.WithdrawalFailsWhenInsufficientFunds | src/domain/ledger.rs:162-182 | on a new ledger, withdrawing £10 from £5 fails with InsufficientFunds(1000, 500) |
| LedgerScenarios.SecondWithdrawalIsRefused | src/domain/ledger.rs:66-85 | against £10, a first withdrawal of £6 succeeds; a second one of £6 fails with InsufficientFunds(600, 400); £4 remains |

## Left out

- DomainMoney.CheckedAdd: the sum is unbounded. The source adds two `i64`
  values unchecked (money.rs:60). Past `i64::MAX` that addition panics in
  debug builds and wraps in release builds. The model does not claim either
  behaviour, and it claims no overflow safety for the source.
- DomainMoney.NewMinor: its input is an unbounded `int`, not an `i64`. The
  `MoneyError::Negative` payload is likewise an unbounded `int`.
- Ledger.Deposit, Ledger.Withdraw: their postconditions state the new log,
  not the new balance. The effect on the balance is stated by the lemmas
  `DepositRaisesBalance`, `WithdrawLowersBalance`,
  `ForeignDepositSpoilsBalance` and `ForeignWithdrawalSpoilsBalance`, applied to the log the method appends to.
- Withdraw compares amounts only, as the source does (ledger.rs:75). A
  withdrawal in a currency other than GBP that the amount check lets through
  is appended. It then makes the next balance fail with a currency mismatch
  (`ForeignWithdrawalSpoilsBalance`), and every later one as well
  (`BalanceFailureSticks`).
- The scenarios that run on "any well-formed ledger" generalise tests that
  start from `Ledger::new()`. The test-shaped wrappers start from a new
  ledger.
- UUID v4 generation: replaced by a counter, so ids are never random. The
  model proves uniqueness for the ids it hands out. It does not model
  collisions of random UUIDs.
- `OffsetDateTime::now_utc()`: the time is a parameter.
- The derived `Deserialize` of Money (money.rs:22) is a second, unchecked
  constructor: it builds a Money from any `i64`, negative ones included,
  without the check of money.rs:41. The model has no such constructor. Its
  "amount >= 0" therefore covers the Money values built by new_minor and the
  checked operations, which are the only constructors the shown handlers
  use. It does not cover a Money read from JSON.
- Logging (`info!`), the `Serialize` derives, the other `Deserialize`
  derives, and `Debug`/`Error` formatting of errors: these are side effects
  and formatting outside the domain rules modelled here.
- `Ledger::events()` (ledger.rs:15-17) returns the log. The model reads the
  field `events` directly.
- `Money::amount()` and `Money::currency()` are plain getters. They are the
  fields `amount` and `currency` of the datatype.
- The HTTP handlers, routes, `main.rs` (the Tokio runtime and the
  `Arc<Mutex<Ledger>>` that makes withdraw's check-then-append atomic) and
  `config.rs` are not part of this model. Each method call of the class is
  atomic in the sequential model.
- `Currency::code()`, used by the balance handler, is not defined in
  money.rs and is not modelled.

## Findings

| source | as written | input that shows it | evidently intended | confidence | as-written member | corrected member |
|---|---|---|---|---|---|---|
| src/domain/ledger.rs:141-143 | the test `deposit_into_unknown_account_fails` evaluates `matches!(err, DomainError::AccountNotFound)` and discards the boolean, so it checks only that the deposit failed | a deposit failing with `InsufficientFunds { required_minor: 500, available_minor: 0 }` would pass the test | the test asserts that the error is `AccountNotFound` | high, from reading the code; not executed | LedgerScenarios.UnknownDepositCheckAcceptsOtherErrors | LedgerScenarios.DepositIntoUnknownAccountFails |
