# Multi-currency bank ledger in Dafny

This project models the core of a small PHP bank ledger and proves
properties of the model. In the ledger, a singleton bank keeps:

- a list of currencies (RUB, USD, EUR), each flagged active or removed, and a
  main currency;
- an exchange-rate table holding directed "FROM/TO" entries;
- the debit accounts of its clients.

Each account has its own currency list and main currency. It also has one
`Funds` slot (a currency and an amount) per currency it ever added. The
account operations are: add a currency, replenish (converting foreign funds),
read the balance, withdraw, and remove a currency. The bank's removal of a
currency walks every account in order. Each account that holds the currency
is moved onto the bank's main currency, then its holdings in the currency are
withdrawn, converted and deposited into that main currency.

Modules, one file each:

- `Errors` (errors.dfy) holds the exception classes as an `Error` datatype,
  plus the `Result` and `Outcome` types that return them in place of throwing.
- `Currencies` (currencies.dfy) is the currency enumeration.
- `Decimal` (decimal.dfy) is exact decimal arithmetic on `real`:
  - bcmath's truncation toward zero at a fixed scale;
  - PHP's `round()`, which rounds half away from zero.
- `CurrencyTrait` (registry.dfy) is the currency trait shared by the bank and
  the accounts. It is a value `Registry`:
  - the flag dictionary, with its key insertion order kept explicitly, as in
    a PHP array;
  - the main-currency slot, which starts unset.

  Removal writes a `false` tombstone and never deletes the key.
- `Common` (funds.dfy) has the `Funds` class, whose amount is updated in
  place. The two-decimal update functions sit beside it.
- `RateTable` (rates.dfy) is the rate dictionary and the pure logic of
  `setRate`, `getRate` and `convert`.
- `Ledger` (ledger.dfy) describes each account operation and the bank's
  removal loop as functions on values:
  - `AccountState` is a registry plus balances;
  - `BankView` is the bank's registry plus its rates.
- `Models` (models.dfy) has the classes `ExchangerRateCurrency`,
  `DebitAccount` and `Bank`, with their fields updated in place. Each method
  is proved against the `Ledger`, `RateTable` or `CurrencyTrait` function it
  implements.
  - A `DebitAccount` owns a map from currency to `Funds` objects.
  - The bank's removal loop is a `while` loop. Its invariants tie the
    accounts already visited to their own results and leave the rest as they
    were.

Where the source and its PHPUnit tests disagree, the model follows the source:

- `DebitAccount::removeCurrency` (src/Models/Accounts/DebitAccount.php:47-50)
  converts a positive balance into the main currency.
- `testRemoveCurrencyWithoutWithdrawFunds`
  (tests/Models/Accounts/DebitAccountTest.php:96-100) expects a
  `NeedWithdrawFundsException` instead.
- The model keeps both behaviours: `Ledger.RemoveCurrency` as written and
  `Ledger.RemoveCurrencyStrict`. `Ledger.RemovalPolicyDivergence` proves on
  the tests' own account that the two differ.

Facts about the source that the proofs bring out:

- **Removal can stop at the first holder.** The bank's removal fails when
  an account holds the currency and no rate to the bank's main currency is
  stored. This happens even when that account's balance is 0, because 0 is
  still converted. The loop fails at the first account that holds the
  currency. That account has already adopted the bank's main currency and
  had its balance in the currency withdrawn, and nothing is credited for it,
  so that amount is lost. Every other account is left unchanged, and the
  bank keeps the currency active (`Ledger.SweepMovesHoldings`,
  `Ledger.CascadeAllFailure`, `Ledger.CascadeAllOutcome`,
  `Models.Bank.RemoveCurrency`).
- **One-way rates.** Rates are looked up only under the exact ordered key.
  No identity rate and no path through a third currency is ever used
  (`RateTable.NoIdentityLookup`, `RateTable.NoPathLookup`).
- **Zero rate.** A zero rate is stored in the forward direction before the
  division fails, so the reverse entry stays stale (`RateTable.SetRateZero`).

## Model

| member | source | states |
|---|---|---|
| Decimal.Trunc6 | src/Common/Funds.php:50 | bcmath's scale-6 result: on the six-decimal grid, no further from zero than x, within 10^-6 of it |
| Decimal.Trunc10 | src/Models/Bank/ExchangerRateCurrency.php:47 | bcmath's scale-10 result: on the ten-decimal grid, no further from zero than x and within 10^-10 of it |
| Decimal.TenDecimalsGrid | src/Models/Bank/ExchangerRateCurrency.php:47 | an integer count of 10^-10 steps lies on the ten-decimal grid |
| Decimal.Round2AfterTrunc10 | src/Models/Bank/ExchangerRateCurrency.php:106-107 | cutting to ten decimals before round(·, 2) never changes the result |
| Decimal.Round6AfterTrunc10 | src/Models/Bank/ExchangerRateCurrency.php:47-48 | cutting to ten decimals before round(·, 6) never changes the result |
| Decimal.HalfCentBelow | src/Models/Bank/ExchangerRateCurrency.php:106-107 | for a non-negative value, the rounding to cents of its ten-decimal cut equals its own rounding to cents |
| Decimal.HalfMillionthBelow | src/Models/Bank/ExchangerRateCurrency.php:47-48 | the same for rounding to six decimals |
| Decimal.Round2 | src/Common/Funds.php:50 | round(x, 2): on the two-decimal grid, within half a cent of x, with the sign of x kept |
| Decimal.Round6 | src/Models/Bank/ExchangerRateCurrency.php:48 | round(x, 6): on the six-decimal grid and within 5·10^-7 of x |
| Decimal.TruncTowardZero | src/Models/Bank/ExchangerRateCurrency.php:106 | the integer part of y, always between 0 and y |
| Decimal.RoundHalfAwayFromZero | src/Models/Bank/ExchangerRateCurrency.php:107 | the nearest integer to y, with halves going away from zero |
| Decimal.TwoDecimalsFixed | src/Common/Funds.php:48-62 | an amount already on the cent grid is left unchanged by the scale-6 cut and by round(·, 2) |
| Decimal.TwoDecimalsClosed | src/Common/Funds.php:48-62 | sums and differences of cent amounts are cent amounts |
| Common.AddedAmount | src/Common/Funds.php:48-52 | the amount after addAmount always has at most two decimals |
| Common.SubtractedAmount | src/Common/Funds.php:58-62 | the amount after subAmount always has at most two decimals |
| Common.Funds.constructor | src/Common/Funds.php:11-16 | the currency is fixed as given; the amount is as given, 0 by default |
| Common.Funds.GetAmount | src/Common/Funds.php:21-24 | returns the stored amount |
| Common.Funds.GetCurrency | src/Common/Funds.php:29-32 | returns the currency fixed at construction |
| Common.Funds.SetAmount | src/Common/Funds.php:38-42 | the amount becomes x |
| Common.Funds.AddAmount | src/Common/Funds.php:48-52 | the new amount is the scale-6 sum rounded to cents |
| Common.Funds.SubAmount | src/Common/Funds.php:58-62 | the new amount is the scale-6 difference rounded to cents |
| Common.TwoDecimalUpdatesExact | src/Common/Funds.php:48-62 | on cent operands, addAmount and subAmount are exact addition and subtraction |
| Common.AddThenSubRestores | src/Common/Funds.php:48-62 | adding a cent amount and then subtracting it gives back the original amount |
| Common.SubWithinAmountNonNegative | src/Common/Funds.php:58-62 | subtracting at most the whole amount never goes below 0 |
| Common.SubWholeAmountIsZero | src/Common/Funds.php:58-62 | subtracting the whole amount leaves exactly 0 |
| Common.AddNonNegative | src/Common/Funds.php:48-52 | adding a non-negative amount to a non-negative one stays non-negative |
| CurrencyTrait.Put | src/Traits/Currency.php:44 | writing a flag changes only that key; a new key goes last and an existing key keeps its position |
| CurrencyTrait.PutWellFormed | src/Traits/Currency.php:44 | after such a write, every key is still listed exactly once |
| CurrencyTrait.CheckCurrencyExist | src/Traits/Currency.php:57-61 | a never-added currency reads false; an added one reads its stored flag, so a tombstoned one reads false too |
| CurrencyTrait.MainCurrencyIsSet | src/Traits/Currency.php:67-70 | under the invariant, a main currency is set exactly when some currency has been added |
| CurrencyTrait.AddCurrency | src/Traits/Currency.php:36-49 | fails with CurrencyExist and its message exactly when c is active; otherwise c becomes active, and it becomes main only if no main was set |
| CurrencyTrait.SetMainCurrency | src/Traits/Currency.php:78-86 | fails with CurrencyNotExist exactly when c is not active; otherwise only the main currency changes, to c |
| CurrencyTrait.GetMainCurrency | src/Traits/Currency.php:93-100 | fails with MainCurrencyIsNotSet exactly when no main is set; otherwise returns it |
| CurrencyTrait.Tombstone | src/Models/Accounts/DebitAccount.php:51 | c is no longer active; no other currency's activity changes, and neither does the main currency |
| CurrencyTrait.ActiveIn | src/Traits/Currency.php:108-109 | the filtered keys are exactly the keys whose flag is true |
| CurrencyTrait.ListAvailableCurrencies | src/Traits/Currency.php:106-110 | a currency is listed if and only if checkCurrencyExist holds for it |
| CurrencyTrait.Without | src/Models/Bank/Bank.php:136 | the list without c holds exactly the other elements of the list |
| CurrencyTrait.EmptyInv | src/Traits/Currency.php:22 | a fresh holder satisfies the invariant and lists nothing |
| CurrencyTrait.AddCurrencyPreservesInv | src/Traits/Currency.php:36-49 | adding keeps the invariant: keys listed once each, and a main currency is set and active |
| CurrencyTrait.SetMainCurrencyPreservesInv | src/Traits/Currency.php:78-86 | setting the main currency keeps the invariant |
| CurrencyTrait.TombstonePreservesInv | src/Models/Bank/Bank.php:119-136 | tombstoning an active currency that is not main keeps the invariant |
| CurrencyTrait.ActiveInSubsequence | src/Traits/Currency.php:106-110 | the list keeps the keys' insertion order |
| CurrencyTrait.ActiveInDistinct | src/Traits/Currency.php:106-110 | the list has no duplicates |
| CurrencyTrait.ListAvailableInKeyOrder | src/Traits/Currency.php:106-110 | the list holds exactly the active currencies, each once, in the order their keys were first written |
| CurrencyTrait.ActiveInTombstone | src/Traits/Currency.php:106-110 | listing after a tombstone equals the old list with c dropped |
| CurrencyTrait.WithoutAbsent | src/Traits/Currency.php:106-110 | dropping an absent currency leaves a list unchanged |
| CurrencyTrait.ActiveInAppendInactive | src/Traits/Currency.php:106-110 | a new key written as false adds nothing to the list |
| CurrencyTrait.TombstoneList | src/Models/Accounts/DebitAccount.php:51 | removal drops exactly c from the list and keeps the others in their order |
| CurrencyTrait.ReAddRestores | src/Traits/Currency.php:36-49 | removing a currency and adding it again restores the registry, with the key in its old position |
| RateTable.CreateRelationKey | src/Models/Bank/ExchangerRateCurrency.php:71-74 | the key is the from-name, "/", then the to-name |
| RateTable.RelationKeyInjective | src/Models/Bank/ExchangerRateCurrency.php:71-74 | two ordered pairs share a key if and only if they are equal |
| RateTable.NameInjective | src/Models/Bank/ExchangerRateCurrency.php:73 | different currencies have different names |
| RateTable.CheckBankCurrencies | src/Models/Bank/ExchangerRateCurrency.php:57-64 | passes exactly when both currencies are active at the bank; otherwise fails with CurrencyNotExist |
| RateTable.SetRate | src/Models/Bank/ExchangerRateCurrency.php:39-49 | an inactive endpoint changes nothing; the call succeeds exactly when both endpoints are active and the rate is not 0 |
| RateTable.GetRate | src/Models/Bank/ExchangerRateCurrency.php:82-93 | CurrencyNotExist for an inactive endpoint; otherwise the entry under the exact ordered key, or RateCurrencyNotExist |
| RateTable.Converted | src/Models/Bank/ExchangerRateCurrency.php:106-107 | the converted amount is exactly amount·rate rounded to cents, halves away from zero (the scale-10 step never matters); it is in cents and non-negative when that product is |
| RateTable.InverseRate | src/Models/Bank/ExchangerRateCurrency.php:47-48 | the stored reverse rate is exactly 1/rate rounded to six decimals; it is on the six-decimal grid and non-negative for a positive rate |
| RateTable.ConvertAmount | src/Models/Bank/ExchangerRateCurrency.php:103-109 | fails exactly when getRate fails, with the same error; otherwise the amount converted at the stored rate |
| RateTable.SetRateWritesBothDirections | src/Models/Bank/ExchangerRateCurrency.php:39-49 | for different currencies, the forward lookup gives the rate and the reverse lookup its rounded inverse; no other key is touched |
| RateTable.KeyUntouched | src/Models/Bank/ExchangerRateCurrency.php:43-48 | setRate leaves every other ordered pair's entry as it was |
| RateTable.SetRateSameCurrency | src/Models/Bank/ExchangerRateCurrency.php:43-48 | with from == to, the second write wins: the entry holds the inverse |
| RateTable.SetRateZero | src/Models/Bank/ExchangerRateCurrency.php:44-47 | a zero rate fails with DivisionByZero after the forward entry is written; the reverse entry is untouched |
| RateTable.SetRateKeepsNonNegative | src/Models/Bank/ExchangerRateCurrency.php:39-49 | positive rates never put a negative entry into the table |
| RateTable.ConvertNonNegative | src/Models/Bank/ExchangerRateCurrency.php:103-109 | a non-negative amount over a table without negative rates converts to a non-negative amount |
| RateTable.TombstonedRatesUnreachable | src/Models/Bank/ExchangerRateCurrency.php:82-93 | once the bank removes c, every lookup to or from c fails with CurrencyNotExist, although the entries remain |
| RateTable.TestBank | tests/Traits/Helper.php:26-36 | the tests' bank, with RUB, USD and EUR added, satisfies the registry invariant |
| RateTable.TestBankBuilt | tests/Traits/Helper.php:26-36 | adding RUB, USD and EUR to an empty bank succeeds at each step and gives that bank, with RUB main |
| RateTable.TestRatesToRub | tests/Traits/Helper.php:38-40 | the tests' table gives EUR to RUB as 80 and USD to RUB as 70 |
| RateTable.TestBankWithoutUsd | tests/Models/Accounts/DebitAccountTest.php:83-89 | with USD removed, the list is RUB, EUR |
| RateTable.ActiveRubEur | tests/Models/Accounts/DebitAccountTest.php:88 | the filtered list of RUB, USD, EUR with USD off is RUB, EUR |
| RateTable.NoIdentityLookup | src/Models/Bank/ExchangerRateCurrency.php:86-92 | RUB to RUB is not stored, so the lookup fails; no identity rate is assumed |
| RateTable.NoPathLookup | src/Models/Bank/ExchangerRateCurrency.php:86-92 | with EUR/RUB and RUB/USD stored, EUR to USD still fails; no path is searched |
| RateTable.EditedRateConverts | tests/Models/Bank/BankTest.php:35-42 | after EUR/RUB is set to 150, 50 EUR convert to 7500 RUB |
| RateTable.ReverseOfEditedRate | src/Models/Bank/ExchangerRateCurrency.php:46-48 | the reverse of 150 is stored as 0.006667, so 1000 RUB convert to 6.67 EUR |
| Ledger.AddCurrency | src/Models/Accounts/DebitAccount.php:63-75 | the bank check comes first, then the duplicate check; on success the account's registry is exactly the trait's addCurrency result, a missing slot is created at 0, existing slots are kept, and the invariant holds |
| Ledger.SetMainCurrency | src/Traits/Currency.php:78-86 | fails with CurrencyNotExist exactly when c is not active on the account; otherwise only the main currency changes, to c, and balances never change |
| Ledger.Credit | src/Models/Accounts/DebitAccount.php:90-98 | funds in the slot's own currency are used as they are; others are converted |
| Ledger.ReplenishBalance | src/Models/Accounts/DebitAccount.php:84-102 | CurrencyNotExist for an inactive target, or the conversion's error; on success only the target's slot changes, by the credited amount |
| Ledger.GetBalance | src/Models/Accounts/DebitAccount.php:114-128 | reads the named currency, or the main currency when none is named; the label carries that currency's name; all error cases are covered |
| Ledger.WithdrawBalance | src/Models/Accounts/DebitAccount.php:138-152 | CurrencyNotExist, or NotEnoughFunds when the amount exceeds the balance; otherwise only that slot drops by the amount and stays non-negative |
| Ledger.RemoveCurrency | src/Models/Accounts/DebitAccount.php:39-53 | CurrencyNotExist for an inactive currency, CannotDeleteMainCurrency for the main one; a zero balance only tombstones c; a positive balance succeeds exactly when its conversion into main succeeds, fails with the conversion's error otherwise, and on success tombstones c, keeps c's slot and adds the converted amount to main |
| Ledger.RemoveCurrencyStrict | tests/Models/Accounts/DebitAccountTest.php:96-100 | the policy the tests expect: succeeds exactly when c is active, not main and holds nothing; CurrencyNotExist when c is inactive, CannotDeleteMainCurrency when it is main, NeedWithdrawFunds when it holds a positive balance; on success only c is tombstoned and balances are unchanged |
| Ledger.AdoptMain | src/Models/Bank/Bank.php:126-129 | adopting the bank's main currency keeps the account invariant |
| Ledger.WithdrawAll | src/Models/Bank/Bank.php:130-131 | withdrawing the whole balance keeps the account invariant |
| Ledger.Sweep | src/Models/Bank/Bank.php:126-133 | one pass over a holder keeps the account invariant, even when it stops partway |
| Ledger.Move | src/Models/Bank/Bank.php:130-133 | the withdraw-deposit-remove part keeps the account invariant |
| Ledger.Deposit | src/Models/Bank/Bank.php:132-133 | the deposit-remove part keeps the account invariant |
| Ledger.Cascade | src/Models/Bank/Bank.php:125-134 | an account that does not hold c is left as it is and passes; the invariant always holds |
| Ledger.AddedSlot | src/Models/Accounts/DebitAccount.php:70-72 | a slot for c exists afterwards, old slots keep their amounts, and a new one holds 0 |
| Ledger.AdoptMainEffect | src/Models/Bank/Bank.php:126-129 | adopting an active bank main always succeeds: it becomes active and main, an old slot keeps its amount, a new one holds 0, other flags are unchanged |
| Ledger.AdoptActiveMain | src/Models/Bank/Bank.php:129 | when the account already has the bank's main, adoption only sets it as main |
| Ledger.AdoptInactiveMain | src/Models/Bank/Bank.php:126-129 | when the account lacks the bank's main, it is added and then set as main |
| Ledger.AdoptedWith | src/Models/Accounts/DebitAccount.php:69-72 | installing the added registry, made main, over the slot-extended balances is an adoption |
| Ledger.WithdrawAllEffect | src/Models/Bank/Bank.php:130-131 | withdrawing the whole balance of an active currency always succeeds and leaves exactly 0 |
| Ledger.MoveEffect | src/Models/Bank/Bank.php:130-133 | c's slot ends at 0; the converted balance is added to main and c becomes inactive exactly when a rate exists; otherwise nothing is credited; other slots and flags are untouched |
| Ledger.SweepMovesHoldings | src/Models/Bank/Bank.php:125-133 | per holder: the bank's main becomes the account's main, c ends at 0, and a missing c-to-main rate is the only possible failure, leaving c active |
| Ledger.ReplenishKeepsNonNegative | src/Models/Accounts/DebitAccount.php:84-102 | replenishing a non-negative amount keeps every balance non-negative |
| Ledger.WithdrawAndRemoveKeepNonNegative | src/Models/Accounts/DebitAccount.php:138-152 | any successful withdrawal, and any successful removal by the account, keeps every balance non-negative |
| Ledger.CascadeKeepsNonNegative | src/Models/Bank/Bank.php:125-134 | the bank's treatment of one account keeps its balances non-negative |
| Ledger.Cascades | src/Models/Bank/Bank.php:123-135 | gives each account's own loop-body result, position by position |
| Ledger.CascadesOutcomes | src/Models/Bank/Bank.php:123-135 | those results are the per-account outcomes the loop is proved against |
| Ledger.Chain | src/Models/Bank/Bank.php:123-135 | the stopping rule keeps one state per account |
| Ledger.CascadeAll | src/Models/Bank/Bank.php:123-135 | the loop keeps one state per account |
| Ledger.ChainStep | src/Models/Bank/Bank.php:123-135 | after a clean prefix, the next account takes its own result |
| Ledger.ChainAdvance | src/Models/Bank/Bank.php:123-135 | the loop state after i+1 clean iterations is the state after i with account i's result written in |
| Ledger.ChainStopsAt | src/Models/Bank/Bank.php:123-135 | a failure at i ends the loop: earlier accounts have their results, account i its partial state, later ones their originals |
| Ledger.ChainAfterFail | src/Models/Bank/Bank.php:123-135 | once an account fails, the later accounts are untouched |
| Ledger.ChainPassEach | src/Models/Bank/Bank.php:123-135 | a loop that passes gave every account its own passing result |
| Ledger.ChainEach | src/Models/Bank/Bank.php:123-135 | each account ends either unchanged or with its own result |
| Ledger.ChainFailFrom | src/Models/Bank/Bank.php:123-135 | the loop's error is some account's own error |
| Ledger.ChainPassIfEach | src/Models/Bank/Bank.php:123-135 | the loop passes when every account's own result passes |
| Ledger.ChainCleanPrefix | src/Models/Bank/Bank.php:123-135 | i passing iterations give those accounts their own results |
| Ledger.ChainFirstFailure | src/Models/Bank/Bank.php:123-135 | with the first failure at i, accounts up to i end with their own results, the rest are untouched, and the outcome is account i's |
| Ledger.FailureStates | src/Models/Bank/Bank.php:123-135 | the per-account states after a failure at i that follows a clean prefix |
| Ledger.Spliced | src/Models/Bank/Bank.php:123-135 | the element-wise form of splicing results into the prefix |
| Ledger.FirstHolder | src/Models/Bank/Bank.php:123-125 | the position of the first account holding c: none before it holds c, and it is past the end only when no account does |
| Ledger.HolderFailsWithoutRate | src/Models/Bank/Bank.php:125-133 | without a c-to-main rate, the pass over a holder fails with RateCurrencyNotExist |
| Ledger.CascadeAllFailure | src/Models/Bank/Bank.php:123-135 | without a c-to-main rate and with some holder, the loop fails at the first holder: that account keeps its partial state and every other account is unchanged |
| Ledger.CascadeAllOutcome | src/Models/Bank/Bank.php:114-135 | the loop fails exactly when some account holds c and there is no c-to-main rate, even at a zero balance, always with RateCurrencyNotExist; a failure changes only the first holder; on success no account holds c; non-holders never change |
| Ledger.CascadeAllKeepsNonNegative | src/Models/Bank/Bank.php:123-135 | completed or not, the loop leaves every balance of every account non-negative |
| Ledger.RemovalOfHolder | src/Models/Bank/Bank.php:123-135 | with a c-to-main rate stored, the removal loop succeeds and each former holder has the bank's main as an active main, c inactive at 0, and c's old balance converted into main |
| Ledger.TestAccount | tests/Traits/Helper.php:49-61 | the tests' account (1000 RUB, 50 USD, 50 EUR, main RUB) satisfies the account invariant |
| Ledger.TestAccountUnfunded | tests/Traits/Helper.php:53-56 | the tests' account before any deposit satisfies the account invariant |
| Ledger.TestAccountCurrencies | tests/Traits/Helper.php:51-56 | on a newly opened account, adding RUB, USD and EUR and making RUB main all succeed and leave three empty slots under the bank's registry |
| Ledger.TestAccountFunds | tests/Traits/Helper.php:58-60 | the three deposits, each in its own currency, succeed at any bank and give the tests' account |
| Ledger.WholeHasTwoDecimals | tests/Traits/Helper.php:58-60 | whole amounts are on the cent grid |
| Ledger.WholeAddition | tests/Models/Accounts/DebitAccountTest.php:135-140 | adding whole amounts is exact |
| Ledger.ReplenishScenarios | tests/Models/Accounts/DebitAccountTest.php:135-167 | replenishing 1000 RUB gives 2000 RUB; replenishing 3 EUR at 80 gives 1240 RUB |
| Ledger.RemovalPolicyDivergence | tests/Models/Accounts/DebitAccountTest.php:96-100 | on the tests' account, the expected policy refuses USD with NeedWithdrawFunds; the code instead converts 50 USD into 3500 RUB and lists RUB, EUR |
| Ledger.RemoveAfterWithdrawal | tests/Models/Accounts/DebitAccountTest.php:83-89 | withdrawing all USD leaves 0; removing USD then succeeds, changes no balance, and lists RUB, EUR |
| Models.ExchangerRateCurrency.constructor | src/Models/Bank/ExchangerRateCurrency.php:26-30 | the table belongs to the given bank and is empty |
| Models.ExchangerRateCurrency.SetRate | src/Models/Bank/ExchangerRateCurrency.php:39-49 | the stored table and the outcome are exactly RateTable.SetRate's |
| Models.ExchangerRateCurrency.GetRate | src/Models/Bank/ExchangerRateCurrency.php:82-93 | the result is RateTable.GetRate over the bank's live registry |
| Models.ExchangerRateCurrency.Convert | src/Models/Bank/ExchangerRateCurrency.php:103-109 | on success, a fresh Funds in the target currency holding the converted amount; otherwise the lookup's error |
| Models.DebitAccount.ValidState | src/Models/Accounts/DebitAccount.php:30 | a valid account's state satisfies the ledger invariant |
| Models.DebitAccount.OneSlotChanged | src/Models/Accounts/DebitAccount.php:99 | when only slot c's amount changed, the balances differ at c alone |
| Models.DebitAccount.constructor | src/Models/Accounts/Account.php:17-23 | a new account has no currencies, no slots and no main currency |
| Models.DebitAccount.AddCurrency | src/Models/Accounts/DebitAccount.php:63-75 | the new state and outcome follow Ledger.AddCurrency; existing Funds objects are kept and new ones are fresh |
| Models.DebitAccount.Register | src/Models/Accounts/DebitAccount.php:69-72 | installs the added registry and creates the slot when missing |
| Models.DebitAccount.AddSlot | src/Models/Accounts/DebitAccount.php:71 | a fresh zero Funds for c; no other slot changes |
| Models.DebitAccount.SetMainCurrency | src/Traits/Currency.php:78-86 | follows Ledger.SetMainCurrency |
| Models.DebitAccount.GetMainCurrency | src/Traits/Currency.php:93-100 | returns CurrencyTrait.GetMainCurrency of the account's registry |
| Models.DebitAccount.ReplenishBalance | src/Models/Accounts/DebitAccount.php:84-102 | follows Ledger.ReplenishBalance, with the incoming Funds' currency and amount |
| Models.DebitAccount.GetBalance | src/Models/Accounts/DebitAccount.php:114-128 | returns Ledger.GetBalance of the account's state |
| Models.DebitAccount.WithdrawBalance | src/Models/Accounts/DebitAccount.php:138-152 | follows Ledger.WithdrawBalance; on success, a fresh Funds with the requested currency and amount |
| Models.DebitAccount.RemoveCurrency | src/Models/Accounts/DebitAccount.php:39-53 | follows Ledger.RemoveCurrency, the removal as written, including the conversion of a positive balance into main |
| Models.DebitAccount.SweepSlot | src/Models/Accounts/DebitAccount.php:47-50 | a positive balance is replenished into main; a zero balance changes nothing |
| Models.DebitAccount.Deactivate | src/Models/Accounts/DebitAccount.php:51 | tombstones the currency and leaves the balances unchanged |
| Models.StatesOf | src/Models/Bank/Bank.php:33 | the accounts' states, position by position |
| Models.Bank.OutsideRepr | src/Models/Bank/Bank.php:33 | the bank object is neither one of its accounts nor one of their slots |
| Models.Bank.ValidStates | src/Models/Bank/Bank.php:33 | every account's state of a valid bank satisfies the ledger invariant |
| Models.Bank.constructor | src/Models/Bank/Bank.php:37-41 | no currencies, clients or accounts, and an empty rate table of its own |
| Models.Bank.AddCurrency | src/Traits/Currency.php:36-49 | the bank's registry follows CurrencyTrait.AddCurrency |
| Models.Bank.SetMainCurrency | src/Traits/Currency.php:78-86 | the bank's registry follows CurrencyTrait.SetMainCurrency |
| Models.Bank.GetMainCurrency | src/Traits/Currency.php:93-100 | returns CurrencyTrait.GetMainCurrency of the bank's registry |
| Models.Bank.CreateAccount | src/Models/Bank/Bank.php:48-61 | a registered client gives ClientIsExist and changes nothing; otherwise a fresh empty account is appended and registered under the client |
| Models.Bank.AccountAdded | src/Models/Bank/Bank.php:56-58 | appending an account for a new client keeps the bank valid |
| Models.Bank.GetClientAccounts | src/Models/Bank/Bank.php:68-79 | ClientNotExist for an unknown client; otherwise the client's accounts, in the order of its id list |
| Models.Bank.GetAccounts | src/Models/Bank/Bank.php:84-87 | returns the accounts in order |
| Models.Bank.GetExchangerRateCurrency | src/Models/Bank/Bank.php:100-103 | returns the bank's own rate table |
| Models.Bank.AdoptBankMain | src/Models/Bank/Bank.php:126-129 | follows Ledger.AdoptMain; old Funds objects are kept |
| Models.Bank.WithdrawHoldings | src/Models/Bank/Bank.php:130-131 | follows Ledger.WithdrawAll and hands out a fresh Funds of the whole balance |
| Models.Bank.MoveHoldings | src/Models/Bank/Bank.php:130-133 | the account's new state and the outcome are Ledger.Move's |
| Models.Bank.DepositHoldings | src/Models/Bank/Bank.php:132-133 | the account's new state and the outcome are Ledger.Deposit's |
| Models.Bank.CascadeAccount | src/Models/Bank/Bank.php:124-134 | the account's new state and the outcome are Ledger.Cascade's |
| Models.Bank.OneAccountChanged | src/Models/Bank/Bank.php:124-134 | changing one account alone keeps the bank valid and the others' states |
| Models.Bank.SweepAt | src/Models/Bank/Bank.php:124-134 | iteration i gives account i its own result and touches no other account |
| Models.Bank.SweepLoop | src/Models/Bank/Bank.php:123-135 | all accounts pass until the first failure at n; accounts up to n hold their results, the rest are unchanged |
| Models.Bank.SweepAll | src/Models/Bank/Bank.php:123-135 | the accounts' final states and the outcome are Ledger.Chain's |
| Models.Bank.RemoveCurrency | src/Models/Bank/Bank.php:114-138 | the two refusals change nothing; otherwise the accounts end as Ledger.CascadeAll says, and c is tombstoned at the bank only when the loop completed |
| Models.Bank.CascadeAndRetire | src/Models/Bank/Bank.php:123-136 | the loop as Ledger.CascadeAll, then the tombstone on success |
| Models.Bank.Retire | src/Models/Bank/Bank.php:136 | the bank tombstones c; no account changes |

## Left out

- Floating point: amounts are exact rationals. PHP's float-to-string
  conversion before each bcmath call is not modelled, nor is binary rounding
  of the stored floats. The bcmath scales and round() are modelled exactly.
- `Ledger.GetBalance` returns the amount and the currency name as a pair
  (`Labelled`). It does not build PHP's concatenated "amount NAME" string,
  because PHP's float formatting stays abstract.
- The `Singleton` base of `Bank` is not modelled, because it is outside the
  core. Each `Bank` here is an ordinary object, and the tests' shared
  instance is one fixed bank value (`RateTable.TestBank`).
- The `Id` trait's uniqid strings are not modelled. Account ids are
  positions in `accounts`, handed out by `CreateAccount`.
  - Models.Bank.GetClientAccounts: the positional lookup works in the model.
  - The source indexes its positional account list by a uniqid string
    (src/Models/Bank/Bank.php:57, 76), which finds nothing.
- `Bank::getClients` (src/Models/Bank/Bank.php:92-95) is not modelled: it
  only copies the client map's values, and it has no partner property.
- Omitted as context outside the core:
  - the interfaces in src/Interfaces;
  - the abstract `Account` beyond its constructor;
  - the `Client` record, kept only as an id and a name;
  - the older copies in src/Account.php, src/Bank.php, src/Funds.php and
    src/ExchangerRateCurrency.php;
  - index.php.
- Exceptions are returned values (`Result`, `Outcome`), not thrown.
  - A caller in this model sees the same error the PHP caller would catch.
  - The state changes made before the throw are kept, as in the source. An
    example is the forward entry `setRate` writes before a zero rate makes
    the division fail.
- Models.Bank.RemoveCurrency: makes no rollback, because the source makes
  none. A failure changes the first account that holds the currency (it
  adopts the bank's main currency and loses its balance in the currency);
  every other account is unchanged, and the bank keeps the currency active.
- Models.ExchangerRateCurrency.SetRate: a rate of 0 ends with DivisionByZero
  after the forward entry was written, which is bcdiv's exception. The model
  keeps that partial write.
- Ledger.WithdrawBalance: provides no check against a negative amount,
  because the source has none. A negative amount therefore increases the
  balance.
- Models.Bank.MoveHoldings: takes `getBalance`'s and `withdrawBalance`'s
  error paths from the account operations. `Ledger.WithdrawAllEffect` proves
  that these paths cannot occur during the bank's removal.
- `Ledger.RemoveCurrencyStrict` models the behaviour the repository's tests
  expect, not code in the repository. `Ledger.RemovalPolicyDivergence` proves
  that it differs from the code.
