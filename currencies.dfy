/** The closed enumeration of currencies the bank can trade in. */
module Currencies {

  datatype Currency = RUB | USD | EUR

  /** The enum case name, used as the dictionary key and in labels. */
  function Name(c: Currency): (s: string)
    ensures |s| == 3 && '/' !in s
  {
    match c
    case RUB => "RUB"
    case USD => "USD"
    case EUR => "EUR"
  }
}
