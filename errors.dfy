/** The exception classes thrown by the ledger engine, and the result types
    that carry them back to the caller in place of PHP exceptions. */
module Errors {

  /** One constructor per exception class; the two classes whose message the
      callers inspect keep that message. */
  datatype Error =
    | CurrencyExist(message: string)
    | CurrencyNotExist(message: string)
    | MainCurrencyIsNotSet
    | CannotDeleteMainCurrency
    | NotEnoughFunds
    | NeedWithdrawFunds
    | RateCurrencyNotExist
    | ClientIsExist
    | ClientNotExist
    | DivisionByZero

  /** The message of the CurrencyNotExist thrown by an account when the bank
      lacks the currency being added. */
  const NoSuchCurrencyInBank: string := "There is no such currency in the bank"

  datatype Result<+T> = Ok(value: T) | Err(error: Error)

  datatype Outcome = Pass | Fail(error: Error)
}
