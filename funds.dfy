/** A currency-tagged amount whose amount is updated in place. */
module Common {
  import opened Currencies
  import opened Decimal

  /** `addAmount`: bcadd at scale 6, then round to two decimals. */
  function AddedAmount(amount: real, x: real): (r: real)
    ensures HasTwoDecimals(r)
  {
    Round2(Trunc6(amount + x))
  }

  /** `subAmount`: bcsub at scale 6, then round to two decimals. */
  function SubtractedAmount(amount: real, x: real): (r: real)
    ensures HasTwoDecimals(r)
  {
    Round2(Trunc6(amount - x))
  }

  class Funds {
    const currency: Currency
    var amount: real

    /** The currency is fixed at construction; the amount defaults to 0. */
    constructor (currency: Currency, amount: real := 0.0)
      ensures this.currency == currency && this.amount == amount
    {
      this.currency := currency;
      this.amount := amount;
    }

    method GetAmount() returns (a: real)
      ensures a == amount
    {
      a := amount;
    }

    method GetCurrency() returns (c: Currency)
      ensures c == currency
    {
      c := currency;
    }

    method SetAmount(x: real)
      modifies this
      ensures amount == x
    {
      amount := x;
    }

    method AddAmount(x: real)
      modifies this
      ensures amount == AddedAmount(old(amount), x)
    {
      amount := Round2(Trunc6(amount + x));
    }

    method SubAmount(x: real)
      modifies this
      ensures amount == SubtractedAmount(old(amount), x)
    {
      amount := Round2(Trunc6(amount - x));
    }
  }

  /** On two-decimal operands neither update loses anything. */
  lemma TwoDecimalUpdatesExact(amount: real, x: real)
    requires HasTwoDecimals(amount) && HasTwoDecimals(x)
    ensures AddedAmount(amount, x) == amount + x
    ensures SubtractedAmount(amount, x) == amount - x
  {
    TwoDecimalsClosed(amount, x);
    TwoDecimalsFixed(amount + x);
    TwoDecimalsFixed(amount - x);
  }

  /** Adding and then subtracting the same two-decimal amount restores it. */
  lemma AddThenSubRestores(amount: real, x: real)
    requires HasTwoDecimals(amount) && HasTwoDecimals(x)
    ensures SubtractedAmount(AddedAmount(amount, x), x) == amount
  {
    TwoDecimalUpdatesExact(amount, x);
    TwoDecimalsClosed(amount, x);
    TwoDecimalUpdatesExact(amount + x, x);
  }

  /** Subtracting at most the whole amount never leaves it negative. */
  lemma SubWithinAmountNonNegative(amount: real, x: real)
    requires x <= amount
    ensures SubtractedAmount(amount, x) >= 0.0
  {
  }

  /** Subtracting the whole amount leaves exactly zero. */
  lemma SubWholeAmountIsZero(amount: real)
    ensures SubtractedAmount(amount, amount) == 0.0
  {
  }

  /** Adding a non-negative amount to a non-negative one stays non-negative. */
  lemma AddNonNegative(amount: real, x: real)
    requires 0.0 <= amount && 0.0 <= x
    ensures AddedAmount(amount, x) >= 0.0
  {
  }
}
