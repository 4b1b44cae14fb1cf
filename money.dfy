/**
 * Money: a non-negative count of minor units (pence, cents) tagged with a
 * currency, with construction and arithmetic that fail instead of producing a
 * negative amount or mixing currencies.
 */
module DomainMoney {
  import opened Results
  import opened Decimal

  /** The supported currencies.  The ledger's `Currency::Gbp` is this `GBP`. */
  datatype Currency = GBP | USD | EUR

  /** The display symbol of a currency: one character per currency. */
  function Symbol(c: Currency): (s: string)
    ensures |s| == 1
  {
    match c
    case EUR => "€"
    case GBP => "£"
    case USD => "$"
  }

  /** The three symbols, and no two currencies share one. */
  lemma SymbolsDistinct(c1: Currency, c2: Currency)
    ensures Symbol(EUR) == "€" && Symbol(GBP) == "£" && Symbol(USD) == "$"
    ensures Symbol(c1) == Symbol(c2) <==> c1 == c2
  {
  }

  /**
   * A monetary value.  The `nat` type of the amount is the invariant "always
   * >= 0": every place that builds a Money is proved to respect it.
   */
  datatype Money = Money(amount: nat, currency: Currency)

  datatype MoneyError =
    | Negative(value: int)
    | CurrencyMismatch(left: Currency, right: Currency)

  /** new_minor: fails with Negative(amount) exactly when the amount is below zero. */
  function NewMinor(amount: int, currency: Currency): (r: Result<Money, MoneyError>)
    ensures r.Err? <==> amount < 0
    ensures r.Err? ==> r.error == Negative(amount)
    ensures r.Ok? ==> r.value.amount == amount && r.value.currency == currency
  {
    if amount < 0 then Err(Negative(amount)) else Ok(Money(amount, currency))
  }

  /** Every Money value is one that new_minor would build from its own parts. */
  lemma NewMinorRoundTrip(m: Money)
    ensures NewMinor(m.amount, m.currency) == Ok(m)
  {
  }

  /** The zero amount in a currency, the seed of the balance fold. */
  function Zero(currency: Currency): (z: Money)
    ensures z.amount == 0 && z.currency == currency
  {
    Money(0, currency)
  }

  function CheckedAdd(a: Money, b: Money): (r: Result<Money, MoneyError>)
    ensures r.Err? <==> a.currency != b.currency
    ensures r.Err? ==> r.error == CurrencyMismatch(a.currency, b.currency)
    ensures r.Ok? ==> r.value.amount == a.amount + b.amount && r.value.currency == a.currency
  {
    if a.currency != b.currency then Err(CurrencyMismatch(a.currency, b.currency))
    else Ok(Money(a.amount + b.amount, a.currency))
  }

  function CheckedSub(a: Money, b: Money): (r: Result<Money, MoneyError>)
    ensures r.Err? <==> a.currency != b.currency || a.amount < b.amount
    ensures a.currency != b.currency ==> r == Err(CurrencyMismatch(a.currency, b.currency))
    ensures a.currency == b.currency && a.amount < b.amount ==> r == Err(Negative(a.amount - b.amount))
    ensures r.Ok? ==> r.value.amount == a.amount - b.amount && r.value.currency == a.currency
  {
    if a.currency != b.currency then Err(CurrencyMismatch(a.currency, b.currency))
    else if a.amount < b.amount then Err(Negative(a.amount - b.amount))
    else Ok(Money(a.amount - b.amount, a.currency))
  }

  /** Subtracting what was just added gives back the original value. */
  lemma SubUndoesAdd(a: Money, b: Money)
    requires a.currency == b.currency
    ensures CheckedAdd(a, b).Ok? && CheckedSub(CheckedAdd(a, b).value, b) == Ok(a)
  {
  }

  /** Adding back what was subtracted gives back the original value. */
  lemma AddUndoesSub(a: Money, b: Money)
    requires CheckedSub(a, b).Ok?
    ensures CheckedAdd(CheckedSub(a, b).value, b) == Ok(a)
  {
  }

  /** Zero is the identity of both operations within a currency. */
  lemma ZeroIsIdentity(m: Money)
    ensures CheckedAdd(Zero(m.currency), m) == Ok(m)
    ensures CheckedAdd(m, Zero(m.currency)) == Ok(m)
    ensures CheckedSub(m, Zero(m.currency)) == Ok(m)
  {
  }

  /** The unit-test expectations for construction and arithmetic. */
  lemma ArithmeticExamples()
    ensures NewMinor(-1, GBP) == Err(Negative(-1))
    ensures NewMinor(123, GBP) == Ok(Money(123, GBP))
    ensures CheckedAdd(Money(100, GBP), Money(50, GBP)) == Ok(Money(150, GBP))
    ensures CheckedAdd(Money(100, GBP), Money(50, USD)) == Err(CurrencyMismatch(GBP, USD))
    ensures CheckedSub(Money(100, GBP), Money(150, GBP)).Err? &&
            CheckedSub(Money(100, GBP), Money(150, GBP)).error.Negative?
  {
  }

  /** Display: `{symbol}{major}.{minor:02}` with major and minor split at a divisor of 10^2. */
  const Digits: nat := 2
  const Divisor: nat := 100

  function Display(m: Money): (s: string)
    ensures |s| >= 5 && s[..1] == Symbol(m.currency)
  {
    var major := m.amount / Divisor;
    var minor := m.amount % Divisor;
    Symbol(m.currency) + NatToString(major) + "." + ZeroPad(NatToString(minor), Digits)
  }

  /**
   * The rendering can be read back: after the symbol come the digits of the
   * major part, a '.', and exactly two digits denoting the minor part (0..99).
   * The major digits have no leading zero, so the layout fixes the string.
   */
  lemma DisplayLayout(m: Money)
    ensures var s := Display(m);
      |s| >= 5 && s[..1] == Symbol(m.currency) && s[|s| - 3] == '.' &&
      AllDigits(s[1..|s| - 3]) && DigitsValue(s[1..|s| - 3]) == m.amount / 100 &&
      AllDigits(s[|s| - 2..]) && DigitsValue(s[|s| - 2..]) == m.amount % 100 &&
      DigitsValue(s[1..|s| - 3]) * 100 + DigitsValue(s[|s| - 2..]) == m.amount
    ensures var s := Display(m); |s| > 5 ==> s[1] != '0'
  {
    var major, minor := m.amount / Divisor, m.amount % Divisor;
    var maj, mnr := NatToString(major), ZeroPad(NatToString(minor), Digits);
    TwoDigitPad(minor);
    NatToStringValue(major);
    var s := Display(m);
    var t := maj + "." + mnr;
    assert s == Symbol(m.currency) + t;
    assert s[1..] == t;
    assert |t| == |maj| + 3;
    assert t[..|maj|] == maj;
    assert t[|maj|] == '.';
    assert t[|maj| + 1..] == mnr;
    assert s[1..|s| - 3] == maj by { assert s[1..|s| - 3] == t[..|maj|]; }
    assert s[|s| - 2..] == mnr by { assert s[|s| - 2..] == t[|maj| + 1..]; }
    assert s[1] == maj[0];
  }

  /** Two different Money values never render the same. */
  lemma DisplayInjective(m1: Money, m2: Money)
    ensures Display(m1) == Display(m2) ==> m1 == m2
  {
    if Display(m1) == Display(m2) {
      DisplayLayout(m1);
      DisplayLayout(m2);
      SymbolsDistinct(m1.currency, m2.currency);
    }
  }

  /** The renderings the source's own examples expect. */
  lemma DisplayPounds()
    ensures Display(Money(3400, GBP)) == "£34.00"
  {
    assert NatToString(34) == "34";
    assert ZeroPad(NatToString(0), 2) == "00";
  }

  lemma DisplayPence()
    ensures Display(Money(99, GBP)) == "£0.99"
  {
    assert NatToString(0) == "0";
    assert ZeroPad(NatToString(99), 2) == "99";
  }

  lemma DisplayDollars()
    ensures Display(Money(1250, USD)) == "$12.50"
  {
    assert NatToString(12) == "12";
    assert ZeroPad(NatToString(50), 2) == "50";
  }

  lemma DisplayEuros()
    ensures Display(Money(12345, EUR)) == "€123.45"
  {
    assert NatToString(123) == "123";
    assert ZeroPad(NatToString(45), 2) == "45";
  }

  lemma DisplayZeroEuros()
    ensures Display(Money(0, EUR)) == "€0.00"
  {
    assert NatToString(0) == "0";
    assert ZeroPad(NatToString(0), 2) == "00";
  }
}
