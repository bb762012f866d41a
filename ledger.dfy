/** The account ledger as values: what each DebitAccount operation does to
    the account's registry and per-currency balances, given what the account
    can see of its bank (the bank's registry and its rate dictionary). The
    classes in module Models are proved against these functions. */
module Ledger {
  import opened Errors
  import opened Currencies
  import opened Decimal
  import opened CurrencyTrait
  import opened RateTable
  import opened Common

  /** The account's registry and the amount held in each of its Funds slots. */
  datatype AccountState = AccountState(registry: Registry, balances: map<Currency, real>)

  /** The account's view of its bank. */
  datatype BankView = BankView(registry: Registry, rates: Rates)

  /** What `getBalance` returns: the bare amount, or the amount with the
      currency name ("amount NAME"). */
  datatype Balance = Amount(amount: real) | Labelled(amount: real, name: string)

  /** Every currency ever added has a slot. */
  ghost predicate Inv(st: AccountState)
  {
    CurrencyTrait.Inv(st.registry) && st.registry.currencies.Keys <= st.balances.Keys
  }

  ghost predicate NonNegative(st: AccountState)
  {
    forall c :: c in st.balances ==> st.balances[c] >= 0.0
  }

  predicate Active(st: AccountState, c: Currency)
  {
    CheckCurrencyExist(st.registry, c)
  }

  const Opened: AccountState := AccountState(Empty, map[])

  /** `addCurrency`: the bank must have c active (checked first); then the
      trait's add; a zero slot is created only when none exists. */
  function AddCurrency(st: AccountState, bank: Registry, c: Currency): (res: Result<AccountState>)
    requires Inv(st)
    ensures !CheckCurrencyExist(bank, c) ==> res == Err(CurrencyNotExist(NoSuchCurrencyInBank))
    ensures CheckCurrencyExist(bank, c) && Active(st, c) ==> res == Err(CurrencyExist(CurrencyExistMessage(c)))
    ensures res.Ok? <==> CheckCurrencyExist(bank, c) && !Active(st, c)
    ensures res.Ok? ==> Active(res.value, c)
    ensures res.Ok? ==>
      CurrencyTrait.AddCurrency(st.registry, c).Ok? && res.value.registry == CurrencyTrait.AddCurrency(st.registry, c).value
    ensures res.Ok? ==> res.value.balances.Keys == st.balances.Keys + {c}
    ensures res.Ok? ==> forall d :: d in st.balances ==> res.value.balances[d] == st.balances[d]
    ensures res.Ok? && c !in st.balances ==> res.value.balances[c] == 0.0
    ensures res.Ok? ==> Inv(res.value)
  {
    if !CheckCurrencyExist(bank, c) then Err(CurrencyNotExist(NoSuchCurrencyInBank))
    else match CurrencyTrait.AddCurrency(st.registry, c)
      case Err(e) => Err(e)
      case Ok(r) =>
        AddCurrencyPreservesInv(st.registry, c);
        Ok(AccountState(r, AddedSlot(st.balances, c)))
  }

  /** The trait's `setMainCurrency` on the account's registry. */
  function SetMainCurrency(st: AccountState, c: Currency): (res: Result<AccountState>)
    ensures res.Err? <==> !Active(st, c)
    ensures res.Err? ==> res.error == CurrencyNotExist("")
    ensures res.Ok? ==> res.value.registry == st.registry.(main := Some(c)) && res.value.balances == st.balances
    ensures res.Ok? && Inv(st) ==> Inv(res.value)
  {
    match CurrencyTrait.SetMainCurrency(st.registry, c)
    case Err(e) => Err(e)
    case Ok(r) => Ok(AccountState(r, st.balances))
  }

  /** The amount `replenishBalance` adds to the slot of `target` for funds of
      currency `from`: as is when the currencies agree, else converted. */
  function Credit(bank: BankView, from: Currency, target: Currency, amount: real): (res: Result<real>)
    ensures from == target ==> res == Ok(amount)
    ensures from != target ==> res == ConvertAmount(bank.registry, bank.rates, from, target, amount)
  {
    if from == target then Ok(amount)
    else ConvertAmount(bank.registry, bank.rates, from, target, amount)
  }

  /** `replenishBalance(target, Funds(from, amount))`. */
  function ReplenishBalance(st: AccountState, bank: BankView, target: Currency, from: Currency, amount: real): (res: Result<AccountState>)
    requires Inv(st)
    ensures !Active(st, target) ==> res == Err(CurrencyNotExist(""))
    ensures Active(st, target) && Credit(bank, from, target, amount).Err? ==> res == Err(Credit(bank, from, target, amount).error)
    ensures res.Ok? <==> Active(st, target) && Credit(bank, from, target, amount).Ok?
    ensures res.Ok? ==> res.value.registry == st.registry
    ensures res.Ok? ==> (res.value.balances ==
      st.balances[target := AddedAmount(st.balances[target], Credit(bank, from, target, amount).value)])
    ensures res.Ok? ==> Inv(res.value)
  {
    if !Active(st, target) then Err(CurrencyNotExist(""))
    else match Credit(bank, from, target, amount)
      case Err(e) => Err(e)
      case Ok(credited) => Ok(AccountState(st.registry, st.balances[target := AddedAmount(st.balances[target], credited)]))
  }

  /** `getBalance(currency, withCurrency)`; None stands for the omitted
      argument, which selects the main currency. */
  function GetBalance(st: AccountState, currency: Option<Currency>, withCurrency: bool): (res: Result<Balance>)
    requires Inv(st)
    ensures currency.Some? && !Active(st, currency.value) ==> res == Err(CurrencyNotExist(""))
    ensures currency.None? && st.registry.main.None? ==> res == Err(MainCurrencyIsNotSet)
    ensures res.Ok? <==> if currency.Some? then Active(st, currency.value) else st.registry.main.Some?
    ensures res.Ok? ==>
      var c := if currency.Some? then currency.value else st.registry.main.value;
      && res.value.amount == st.balances[c]
      && (withCurrency ==> res.value == Labelled(st.balances[c], Name(c)))
      && (!withCurrency ==> res.value == Amount(st.balances[c]))
  {
    if currency.Some? && !Active(st, currency.value) then Err(CurrencyNotExist(""))
    else match (if currency.None? then GetMainCurrency(st.registry) else Ok(currency.value))
      case Err(e) => Err(e)
      case Ok(c) =>
        var amount := st.balances[c];
        Ok(if withCurrency then Labelled(amount, Name(c)) else Amount(amount))
  }

  /** `withdrawBalance(currency, amount)`: the new state (the Funds handed
      out carry `currency` and `amount`). */
  function WithdrawBalance(st: AccountState, currency: Currency, amount: real): (res: Result<AccountState>)
    requires Inv(st)
    ensures !Active(st, currency) ==> res == Err(CurrencyNotExist(""))
    ensures Active(st, currency) && amount > st.balances[currency] ==> res == Err(NotEnoughFunds)
    ensures res.Ok? <==> Active(st, currency) && amount <= st.balances[currency]
    ensures res.Ok? ==> res.value.registry == st.registry
    ensures res.Ok? ==> res.value.balances == st.balances[currency := SubtractedAmount(st.balances[currency], amount)]
    ensures res.Ok? ==> Inv(res.value) && res.value.balances[currency] >= 0.0
  {
    if !Active(st, currency) then Err(CurrencyNotExist(""))
    else if amount > st.balances[currency] then Err(NotEnoughFunds)
    else Ok(AccountState(st.registry, st.balances[currency := SubtractedAmount(st.balances[currency], amount)]))
  }

  /** `removeCurrency` as written: a positive balance is swept into the main
      currency through `replenishBalance`, the slot itself is left as it
      was, and the flag is tombstoned. */
  function RemoveCurrency(st: AccountState, bank: BankView, c: Currency): (res: Result<AccountState>)
    requires Inv(st)
    ensures !Active(st, c) ==> res == Err(CurrencyNotExist(""))
    ensures Active(st, c) && st.registry.main == Some(c) ==> res == Err(CannotDeleteMainCurrency)
    ensures Active(st, c) && st.registry.main != Some(c) && st.balances[c] <= 0.0 ==>
      res == Ok(AccountState(Tombstone(st.registry, c), st.balances))
    ensures Active(st, c) && st.registry.main != Some(c) && st.balances[c] > 0.0 ==>
      var main := st.registry.main.value;
      var credit := ConvertAmount(bank.registry, bank.rates, c, main, st.balances[c]);
      && (res.Ok? <==> credit.Ok?)
      && (res.Err? ==> res.error == credit.error)
      && (res.Ok? ==>
            res.value == AccountState(Tombstone(st.registry, c), st.balances[main := AddedAmount(st.balances[main], credit.value)]))
    ensures res.Ok? ==> Inv(res.value)
    ensures res.Ok? ==> c in res.value.balances && !Active(res.value, c) && res.value.balances[c] == st.balances[c]
  {
    if !Active(st, c) then Err(CurrencyNotExist(""))
    else if st.registry.main == Some(c) then Err(CannotDeleteMainCurrency)
    else
      var main := st.registry.main.value;
      match (if st.balances[c] > 0.0 then ReplenishBalance(st, bank, main, c, st.balances[c]) else Ok(st))
      case Err(e) => Err(e)
      case Ok(st1) =>
        TombstonePreservesInv(st1.registry, c);
        Ok(AccountState(Tombstone(st1.registry, c), st1.balances))
  }

  /** The policy the tests expect: removal refuses while funds remain. */
  function RemoveCurrencyStrict(st: AccountState, c: Currency): (res: Result<AccountState>)
    requires Inv(st)
    ensures res.Ok? <==> Active(st, c) && st.registry.main != Some(c) && st.balances[c] <= 0.0
    ensures !Active(st, c) ==> res == Err(CurrencyNotExist(""))
    ensures Active(st, c) && st.registry.main == Some(c) ==> res == Err(CannotDeleteMainCurrency)
    ensures Active(st, c) && st.registry.main != Some(c) && st.balances[c] > 0.0 ==> res == Err(NeedWithdrawFunds)
    ensures res.Ok? ==> !Active(res.value, c) && res.value.balances == st.balances && Inv(res.value)
    ensures res.Ok? ==> res.value.registry == Tombstone(st.registry, c)
  {
    if !Active(st, c) then Err(CurrencyNotExist(""))
    else if st.registry.main == Some(c) then Err(CannotDeleteMainCurrency)
    else if st.balances[c] > 0.0 then Err(NeedWithdrawFunds)
    else
      TombstonePreservesInv(st.registry, c);
      Ok(AccountState(Tombstone(st.registry, c), st.balances))
  }

  /** The first steps of the bank's removal loop on a holder: the bank's main
      currency is added to the account when missing and made its main. */
  function AdoptMain(st: AccountState, bank: Registry): (res: Result<(AccountState, Currency)>)
    requires Inv(st)
    ensures res.Ok? ==> Inv(res.value.0)
  {
    match CurrencyTrait.GetMainCurrency(bank)
    case Err(e) => Err(e)
    case Ok(main) =>
      match (if Active(st, main) then Ok(st) else AddCurrency(st, bank, main))
      case Err(e) => Err(e)
      case Ok(st1) =>
        match SetMainCurrency(st1, main)
        case Err(e) => Err(e)
        case Ok(st2) => Ok((st2, main))
  }

  /** `getBalance(c)` followed by `withdrawBalance(c, balance)`: the new state
      and the amount handed out. */
  function WithdrawAll(st: AccountState, c: Currency): (res: Result<(AccountState, real)>)
    requires Inv(st)
    ensures res.Ok? ==> Inv(res.value.0)
  {
    match GetBalance(st, Some(c), false)
    case Err(e) => Err(e)
    case Ok(balance) =>
      match WithdrawBalance(st, c, balance.amount)
      case Err(e) => Err(e)
      case Ok(st1) => Ok((st1, balance.amount))
  }

  /** One pass of the bank's removal loop over an account that holds c: adopt
      the bank's main currency, then move the holdings in c. A failing step
      leaves the state reached so far. */
  function Sweep(st: AccountState, bank: BankView, c: Currency): (res: (AccountState, Outcome))
    requires Inv(st)
    ensures Inv(res.0)
  {
    match AdoptMain(st, bank.registry)
    case Err(e) => (st, Fail(e))
    case Ok((st1, _)) => Move(st1, bank, c)
  }

  /** The rest of the pass: withdraw the whole balance in c and deposit it
      (converted) into the account's main currency. */
  function Move(st: AccountState, bank: BankView, c: Currency): (res: (AccountState, Outcome))
    requires Inv(st)
    ensures Inv(res.0)
  {
    match WithdrawAll(st, c)
    case Err(e) => (st, Fail(e))
    case Ok((st2, amount)) => Deposit(st2, bank, c, amount)
  }

  /** The end of the pass: the amount withdrawn from c is replenished into
      the account's main currency, then c is removed. */
  function Deposit(st: AccountState, bank: BankView, c: Currency, amount: real): (res: (AccountState, Outcome))
    requires Inv(st)
    ensures Inv(res.0)
  {
    match CurrencyTrait.GetMainCurrency(st.registry)
    case Err(e) => (st, Fail(e))
    case Ok(accountMain) =>
      match ReplenishBalance(st, bank, accountMain, c, amount)
      case Err(e) => (st, Fail(e))
      case Ok(st3) =>
        match RemoveCurrency(st3, bank, c)
        case Err(e) => (st3, Fail(e))
        case Ok(st4) => (st4, Pass)
  }

  /** `Bank::removeCurrency`'s treatment of one account: holders are swept,
      the others left alone. */
  function Cascade(st: AccountState, bank: BankView, c: Currency): (res: (AccountState, Outcome))
    requires Inv(st)
    ensures !Active(st, c) ==> res == (st, Pass)
    ensures Inv(res.0)
  {
    if Active(st, c) then Sweep(st, bank, c) else (st, Pass)
  }

  /** The amount in the slot of c before the sweep, 0 when there is none. */
  function Prior(st: AccountState, c: Currency): real
  {
    if c in st.balances then st.balances[c] else 0.0
  }

  /** What adopting the bank main `main` leaves: main active and main on the
      account, an old slot with its amount, a new one holding 0, and every
      other currency's flag as it was. */
  ghost predicate Adopted(st: AccountState, main: Currency, st': AccountState)
  {
    && st'.registry.main == Some(main) && Active(st', main)
    && st'.balances.Keys == st.balances.Keys + {main}
    && st'.balances[main] == Prior(st, main)
    && (forall d :: d in st.balances ==> st'.balances[d] == st.balances[d])
    && (forall d :: d != main ==> Active(st', d) == Active(st, d))
  }

  /** Adopting an active bank main always succeeds: it becomes active and
      main on the account; an old slot keeps its amount, a new one holds 0. */
  lemma AdoptMainEffect(st: AccountState, bank: Registry)
    requires Inv(st) && CurrencyTrait.Inv(bank) && bank.main.Some?
    ensures var main := bank.main.value;
      && AdoptMain(st, bank).Ok?
      && var (st', m) := AdoptMain(st, bank).value;
      && m == main
      && st'.registry.main == Some(main) && Active(st', main)
      && st'.balances.Keys == st.balances.Keys + {main}
      && st'.balances[main] == Prior(st, main)
      && (forall d :: d in st.balances ==> st'.balances[d] == st.balances[d])
      && (forall d :: d != main ==> Active(st', d) == Active(st, d))
  {
    if Active(st, bank.main.value) {
      AdoptActiveMain(st, bank);
    } else {
      AdoptInactiveMain(st, bank);
    }
  }

  lemma AdoptActiveMain(st: AccountState, bank: Registry)
    requires Inv(st) && CurrencyTrait.Inv(bank) && bank.main.Some? && Active(st, bank.main.value)
    ensures AdoptMain(st, bank).Ok? && AdoptMain(st, bank).value.1 == bank.main.value
    ensures Adopted(st, bank.main.value, AdoptMain(st, bank).value.0)
  {
    var main := bank.main.value;
    assert CheckCurrencyExist(bank, main);
    assert AdoptMain(st, bank) == Ok((AccountState(st.registry.(main := Some(main)), st.balances), main));
    assert st.registry.currencies[main := true] == st.registry.currencies;
    AdoptedWith(st, main, st.registry);
  }

  lemma AdoptInactiveMain(st: AccountState, bank: Registry)
    requires Inv(st) && CurrencyTrait.Inv(bank) && bank.main.Some? && !Active(st, bank.main.value)
    ensures AdoptMain(st, bank).Ok? && AdoptMain(st, bank).value.1 == bank.main.value
    ensures Adopted(st, bank.main.value, AdoptMain(st, bank).value.0)
  {
    var main := bank.main.value;
    assert CheckCurrencyExist(bank, main);
    var r := CurrencyTrait.AddCurrency(st.registry, main).value;
    assert AdoptMain(st, bank) == Ok((AccountState(r.(main := Some(main)), AddedSlot(st.balances, main)), main));
    AdoptedWith(st, main, r);
  }

  /** The balances with a zero slot for c unless one exists. */
  function AddedSlot(balances: map<Currency, real>, c: Currency): (b: map<Currency, real>)
    ensures b.Keys == balances.Keys + {c}
    ensures forall d :: d in balances ==> b[d] == balances[d]
    ensures c !in balances ==> b[c] == 0.0
  {
    if c in balances then balances else balances[c := 0.0]
  }

  /** Installing a registry that marks main active, made main, over the
      balances with a slot for main, is an adoption of main. */
  lemma AdoptedWith(st: AccountState, main: Currency, r: Registry)
    requires Inv(st) && r.currencies == st.registry.currencies[main := true]
    ensures Adopted(st, main, AccountState(r.(main := Some(main)), AddedSlot(st.balances, main)))
  {
  }

  /** Withdrawing the whole balance of an active currency always succeeds and
      leaves exactly 0 in its slot. */
  lemma WithdrawAllEffect(st: AccountState, c: Currency)
    requires Inv(st) && Active(st, c)
    ensures WithdrawAll(st, c) == Ok((AccountState(st.registry, st.balances[c := 0.0]), st.balances[c]))
  {
    SubWholeAmountIsZero(st.balances[c]);
  }

  /** Moving the holdings of an active non-main currency c into an active
      main currency m: the slot of c ends at 0; with a c-to-m rate, the
      converted balance is added to m and c becomes inactive; without one,
      the move stops after the withdrawal with nothing credited. Other slots
      and flags are untouched. */
  lemma MoveEffect(st: AccountState, bank: BankView, c: Currency, m: Currency)
    requires Inv(st) && Active(st, c) && Active(st, m) && st.registry.main == Some(m) && m != c
    ensures var (st', err) := Move(st, bank, c);
      && (err.Pass? <==> ConvertAmount(bank.registry, bank.rates, c, m, st.balances[c]).Ok?)
      && (err.Fail? ==> err == Fail(ConvertAmount(bank.registry, bank.rates, c, m, st.balances[c]).error))
      && st'.registry.main == Some(m) && Active(st', m)
      && c in st'.balances && st'.balances[c] == 0.0
      && (err.Pass? <==> !Active(st', c))
      && m in st'.balances
      && (err.Pass? ==> (st'.balances[m] ==
            AddedAmount(st.balances[m], ConvertAmount(bank.registry, bank.rates, c, m, st.balances[c]).value)))
      && (err.Fail? ==> st'.balances[m] == st.balances[m])
      && (forall d :: d != c && d != m ==>
            && (d in st'.balances <==> d in st.balances)
            && (d in st.balances ==> st'.balances[d] == st.balances[d])
            && Active(st', d) == Active(st, d))
  {
    WithdrawAllEffect(st, c);
    var b := st.balances[c];
    var st2 := AccountState(st.registry, st.balances[c := 0.0]);
    assert CurrencyTrait.GetMainCurrency(st2.registry) == Ok(m);
    assert Credit(bank, c, m, b) == ConvertAmount(bank.registry, bank.rates, c, m, b);
    assert Move(st, bank, c) == Deposit(st2, bank, c, b);
    if ConvertAmount(bank.registry, bank.rates, c, m, b).Ok? {
      var st3 := ReplenishBalance(st2, bank, m, c, b).value;
      assert st3.balances[c] == 0.0;
      assert RemoveCurrency(st3, bank, c) == Ok(AccountState(Tombstone(st3.registry, c), st3.balances));
    }
  }

  /** What the bank's removal does to one holder account: the bank's main
      currency becomes active and main on the account; the slot of c ends at
      0; on success its old balance, converted, is added to the main slot and
      c is inactive. The only possible failure is a missing c-to-main rate,
      and it comes after the withdrawal: the account is left with c still
      active, its slot at 0 and nothing credited. Other slots and flags are
      untouched either way. */
  lemma SweepMovesHoldings(st: AccountState, bank: BankView, c: Currency)
    requires Inv(st) && CurrencyTrait.Inv(bank.registry)
    requires Active(st, c) && CheckCurrencyExist(bank.registry, c) && bank.registry.main != Some(c)
    ensures bank.registry.main.Some?
    ensures var main := bank.registry.main.value;
      var (st', err) := Sweep(st, bank, c);
      && (err.Pass? <==> CreateRelationKey(c, main) in bank.rates)
      && (err.Fail? ==> err == Fail(RateCurrencyNotExist))
      && st'.registry.main == Some(main) && Active(st', main)
      && c in st'.balances && st'.balances[c] == 0.0
      && (err.Pass? <==> !Active(st', c))
      && main in st'.balances
      && (err.Pass? ==> (st'.balances[main] ==
            AddedAmount(Prior(st, main), ConvertAmount(bank.registry, bank.rates, c, main, st.balances[c]).value)))
      && (err.Fail? ==> st'.balances[main] == Prior(st, main))
      && (forall d :: d != c && d != main ==>
            && (d in st'.balances <==> d in st.balances)
            && (d in st.balances ==> st'.balances[d] == st.balances[d])
            && Active(st', d) == Active(st, d))
  {
    var main := bank.registry.main.value;
    AdoptMainEffect(st, bank.registry);
    var st1 := AdoptMain(st, bank.registry).value.0;
    assert Sweep(st, bank, c) == Move(st1, bank, c);
    MoveEffect(st1, bank, c, main);
  }

  // ---- balances never go negative ------------------------------------------

  /** Replenishing a non-negative amount, over a table without negative
      rates, leaves every balance non-negative. */
  lemma ReplenishKeepsNonNegative(st: AccountState, bank: BankView, target: Currency, from: Currency, amount: real)
    requires Inv(st) && NonNegative(st) && NonNegativeRates(bank.rates) && amount >= 0.0
    ensures var res := ReplenishBalance(st, bank, target, from, amount);
      res.Ok? ==> NonNegative(res.value)
  {
    if ReplenishBalance(st, bank, target, from, amount).Ok? {
      ConvertNonNegative(bank.registry, bank.rates, from, target, amount);
      AddNonNegative(st.balances[target], Credit(bank, from, target, amount).value);
    }
  }

  /** A withdrawal, whatever amount is asked for, leaves every balance
      non-negative; so does the account's removal of a currency. */
  lemma WithdrawAndRemoveKeepNonNegative(st: AccountState, bank: BankView, c: Currency, amount: real)
    requires Inv(st) && NonNegative(st) && NonNegativeRates(bank.rates)
    ensures WithdrawBalance(st, c, amount).Ok? ==> NonNegative(WithdrawBalance(st, c, amount).value)
    ensures RemoveCurrency(st, bank, c).Ok? ==> NonNegative(RemoveCurrency(st, bank, c).value)
  {
    if Active(st, c) && st.registry.main != Some(c) && st.balances[c] > 0.0 {
      ReplenishKeepsNonNegative(st, bank, st.registry.main.value, c, st.balances[c]);
    }
  }

  /** The bank's treatment of one account keeps its balances non-negative
      when the table holds no negative rate. */
  lemma CascadeKeepsNonNegative(st: AccountState, bank: BankView, c: Currency)
    requires Inv(st) && NonNegative(st) && NonNegativeRates(bank.rates)
    requires CurrencyTrait.Inv(bank.registry) && CheckCurrencyExist(bank.registry, c) && bank.registry.main != Some(c)
    ensures NonNegative(Cascade(st, bank, c).0)
  {
    if Active(st, c) {
      SweepMovesHoldings(st, bank, c);
      var main := bank.registry.main.value;
      var credit := ConvertAmount(bank.registry, bank.rates, c, main, st.balances[c]);
      ConvertNonNegative(bank.registry, bank.rates, c, main, st.balances[c]);
      if credit.Ok? {
        AddNonNegative(Prior(st, main), credit.value);
      }
      var (st', _) := Sweep(st, bank, c);
      forall d | d in st'.balances
        ensures st'.balances[d] >= 0.0
      {
        if d != c && d != main {
          assert st'.balances[d] == st.balances[d];
        }
      }
    }
  }

  ghost predicate AllInv(sts: seq<AccountState>)
  {
    forall i :: 0 <= i < |sts| ==> Inv(sts[i])
  }

  /** What the loop body would do to each account on its own. */
  function Cascades(sts: seq<AccountState>, bank: BankView, c: Currency): (outs: seq<(AccountState, Outcome)>)
    requires AllInv(sts)
    ensures |outs| == |sts|
    ensures forall i :: 0 <= i < |sts| ==> outs[i] == Cascade(sts[i], bank, c)
    decreases |sts|
  {
    if |sts| == 0 then [] else Cascades(sts[..|sts| - 1], bank, c) + [Cascade(sts[|sts| - 1], bank, c)]
  }

  /** outs lists each account's own result. The quantifier is triggered
      only by a Cascade term, so that holding this fact costs nothing until
      one account's result is asked for. */
  ghost predicate Outcomes(sts: seq<AccountState>, bank: BankView, c: Currency, outs: seq<(AccountState, Outcome)>)
  {
    && AllInv(sts) && |outs| == |sts|
    && forall j {:trigger Cascade(sts[j], bank, c)} :: 0 <= j < |sts| ==> outs[j] == Cascade(sts[j], bank, c)
  }

  lemma CascadesOutcomes(sts: seq<AccountState>, bank: BankView, c: Currency)
    requires AllInv(sts)
    ensures Outcomes(sts, bank, c, Cascades(sts, bank, c))
  {
  }

  /** The loop's stopping rule: accounts take their own results in order
      until the first failure; the failing account keeps its partial state
      and the later ones are left as they were. */
  function Chain(sts: seq<AccountState>, outs: seq<(AccountState, Outcome)>): (res: (seq<AccountState>, Outcome))
    requires |outs| == |sts|
    ensures |res.0| == |sts|
    decreases |sts|
  {
    if |sts| == 0 then ([], Pass)
    else
      var n := |sts|;
      var (done, o) := Chain(sts[..n - 1], outs[..n - 1]);
      if o.Fail? then (done + [sts[n - 1]], o)
      else (done + [outs[n - 1].0], outs[n - 1].1)
  }

  /** `Bank::removeCurrency`'s loop over the accounts in order. */
  function CascadeAll(sts: seq<AccountState>, bank: BankView, c: Currency): (res: (seq<AccountState>, Outcome))
    requires AllInv(sts)
    ensures |res.0| == |sts|
  {
    Chain(sts, Cascades(sts, bank, c))
  }

  /** One more iteration of the loop after a clean prefix. */
  lemma ChainStep(sts: seq<AccountState>, outs: seq<(AccountState, Outcome)>, k: nat)
    requires |outs| == |sts| && k < |sts|
    requires Chain(sts[..k], outs[..k]).1.Pass?
    ensures Chain(sts[..k + 1], outs[..k + 1]) == (Chain(sts[..k], outs[..k]).0 + [outs[k].0], outs[k].1)
  {
    assert sts[..k + 1][..k] == sts[..k];
    assert outs[..k + 1][..k] == outs[..k];
  }

  /** The loop's state after a clean prefix of i iterations, advanced by one
      more: the account at i takes its own result. */
  lemma ChainAdvance(sts: seq<AccountState>, outs: seq<(AccountState, Outcome)>, i: nat)
    requires |outs| == |sts| && i < |sts|
    requires Chain(sts[..i], outs[..i]).1.Pass?
    ensures (Chain(sts[..i], outs[..i]).0 + sts[i..])[i := outs[i].0] == Chain(sts[..i + 1], outs[..i + 1]).0 + sts[i + 1..]
    ensures Chain(sts[..i + 1], outs[..i + 1]).1 == outs[i].1
  {
    ChainStep(sts, outs, i);
    var d := Chain(sts[..i], outs[..i]).0;
    assert (d + sts[i..])[i := outs[i].0] == d + [outs[i].0] + sts[i + 1..];
  }

  /** A failing iteration at i ends the loop: the accounts before i hold
      their results, the one at i its partial state, the rest their
      original states. */
  lemma ChainStopsAt(sts: seq<AccountState>, outs: seq<(AccountState, Outcome)>, i: nat)
    requires |outs| == |sts| && i < |sts|
    requires Chain(sts[..i], outs[..i]).1.Pass? && outs[i].1.Fail?
    ensures Chain(sts, outs) == ((Chain(sts[..i], outs[..i]).0 + sts[i..])[i := outs[i].0], outs[i].1)
  {
    ChainAdvance(sts, outs, i);
    ChainAfterFail(sts, outs, i + 1);
  }

  /** Once an account has failed, the rest are left as they were. */
  lemma {:induction false} ChainAfterFail(sts: seq<AccountState>, outs: seq<(AccountState, Outcome)>, k: nat)
    requires |outs| == |sts| && k <= |sts|
    requires Chain(sts[..k], outs[..k]).1.Fail?
    ensures Chain(sts, outs) == (Chain(sts[..k], outs[..k]).0 + sts[k..], Chain(sts[..k], outs[..k]).1)
    decreases |sts| - k
  {
    var d := Chain(sts[..k], outs[..k]);
    if k < |sts| {
      var n := |sts|;
      var front := sts[..n - 1];
      var fouts := outs[..n - 1];
      assert front[..k] == sts[..k];
      assert fouts[..k] == outs[..k];
      ChainAfterFail(front, fouts, k);
      var r := Chain(front, fouts);
      assert r == (d.0 + front[k..], d.1);
      assert Chain(sts, outs) == (r.0 + [sts[n - 1]], r.1);
      assert front[k..] + [sts[n - 1]] == sts[k..];
      assert r.0 + [sts[n - 1]] == d.0 + sts[k..];
    } else {
      assert sts[..k] == sts && outs[..k] == outs;
      assert sts[k..] == [];
      assert d.0 + [] == d.0;
    }
  }

  /** A clean run gives every account its own result. */
  lemma {:induction false} ChainPassEach(sts: seq<AccountState>, outs: seq<(AccountState, Outcome)>)
    requires |outs| == |sts| && Chain(sts, outs).1.Pass?
    ensures forall i :: 0 <= i < |sts| ==> Chain(sts, outs).0[i] == outs[i].0 && outs[i].1.Pass?
    decreases |sts|
  {
    if |sts| > 0 {
      var n := |sts|;
      var front := sts[..n - 1];
      var fouts := outs[..n - 1];
      var r := Chain(front, fouts);
      assert r.1.Pass?;
      assert Chain(sts, outs) == (r.0 + [outs[n - 1].0], outs[n - 1].1);
      ChainPassEach(front, fouts);
      forall i | 0 <= i < n
        ensures Chain(sts, outs).0[i] == outs[i].0 && outs[i].1.Pass?
      {
        if i < n - 1 {
          assert fouts[i] == outs[i];
        }
      }
    }
  }

  /** Each account ends either as it was or with its own result. */
  lemma {:induction false} ChainEach(sts: seq<AccountState>, outs: seq<(AccountState, Outcome)>)
    requires |outs| == |sts|
    ensures forall i :: 0 <= i < |sts| ==> Chain(sts, outs).0[i] == sts[i] || Chain(sts, outs).0[i] == outs[i].0
    decreases |sts|
  {
    if |sts| > 0 {
      var n := |sts|;
      var front := sts[..n - 1];
      var fouts := outs[..n - 1];
      ChainEach(front, fouts);
      var r := Chain(front, fouts);
      var res := Chain(sts, outs);
      if r.1.Fail? {
        assert res.0 == r.0 + [sts[n - 1]];
      } else {
        assert res.0 == r.0 + [outs[n - 1].0];
      }
      forall i | 0 <= i < n - 1
        ensures res.0[i] == sts[i] || res.0[i] == outs[i].0
      {
        assert res.0[i] == r.0[i] && front[i] == sts[i] && fouts[i] == outs[i];
      }
    }
  }

  /** The loop fails only with the error of some account's own result. */
  lemma {:induction false} ChainFailFrom(sts: seq<AccountState>, outs: seq<(AccountState, Outcome)>)
    requires |outs| == |sts| && Chain(sts, outs).1.Fail?
    ensures exists i :: 0 <= i < |sts| && Chain(sts, outs).1 == outs[i].1
    decreases |sts|
  {
    var n := |sts|;
    var front := sts[..n - 1];
    var fouts := outs[..n - 1];
    var r := Chain(front, fouts);
    if r.1.Fail? {
      ChainFailFrom(front, fouts);
      var i :| 0 <= i < n - 1 && r.1 == fouts[i].1;
      assert fouts[i] == outs[i];
    } else {
      assert Chain(sts, outs).1 == outs[n - 1].1;
    }
  }

  /** The loop passes when every account's own result passes. */
  lemma {:induction false} ChainPassIfEach(sts: seq<AccountState>, outs: seq<(AccountState, Outcome)>)
    requires |outs| == |sts|
    requires forall i :: 0 <= i < |outs| ==> outs[i].1.Pass?
    ensures Chain(sts, outs).1.Pass?
    decreases |sts|
  {
    if |sts| > 0 {
      var n := |sts|;
      var fouts := outs[..n - 1];
      assert forall i :: 0 <= i < n - 1 ==> fouts[i] == outs[i];
      ChainPassIfEach(sts[..n - 1], fouts);
    }
  }

  /** A clean prefix of i iterations gives each of those accounts its own
      result. */
  lemma ChainCleanPrefix(sts: seq<AccountState>, outs: seq<(AccountState, Outcome)>, i: nat)
    requires |outs| == |sts| && i <= |sts|
    requires forall k :: 0 <= k < i ==> outs[k].1.Pass?
    ensures Chain(sts[..i], outs[..i]).1.Pass?
    ensures forall k :: 0 <= k < i ==> Chain(sts[..i], outs[..i]).0[k] == outs[k].0
  {
    var p := outs[..i];
    assert forall k :: 0 <= k < i ==> p[k] == outs[k];
    ChainPassIfEach(sts[..i], p);
    ChainPassEach(sts[..i], p);
  }

  /** The loop's result when the first i accounts pass and the one at i,
      if any, fails: accounts up to i hold their own results, the rest their
      original states. */
  lemma ChainFirstFailure(sts: seq<AccountState>, outs: seq<(AccountState, Outcome)>, i: nat)
    requires |outs| == |sts| && i <= |sts|
    requires forall k :: 0 <= k < i ==> outs[k].1.Pass?
    requires i < |sts| ==> outs[i].1.Fail?
    ensures Chain(sts, outs).1 == (if i < |sts| then outs[i].1 else Pass)
    ensures forall j :: 0 <= j < |sts| ==> Chain(sts, outs).0[j] == (if j <= i then outs[j].0 else sts[j])
  {
    ChainCleanPrefix(sts, outs, i);
    if i == |sts| {
      assert sts[..i] == sts && outs[..i] == outs;
    } else {
      ChainStopsAt(sts, outs, i);
      FailureStates(sts, outs, i);
    }
  }

  /** The states after a failure at i that follows a clean prefix. */
  lemma FailureStates(sts: seq<AccountState>, outs: seq<(AccountState, Outcome)>, i: nat)
    requires |outs| == |sts| && i < |sts|
    requires Chain(sts[..i], outs[..i]).1.Pass? && outs[i].1.Fail?
    requires forall k :: 0 <= k < i ==> Chain(sts[..i], outs[..i]).0[k] == outs[k].0
    ensures forall j :: 0 <= j < |sts| ==> Chain(sts, outs).0[j] == (if j <= i then outs[j].0 else sts[j])
  {
    ChainStopsAt(sts, outs, i);
    Spliced(Chain(sts[..i], outs[..i]).0, sts, outs[i].0, i);
  }

  /** A prefix of length i, then s from i on with x written at i. */
  lemma Spliced<T>(d: seq<T>, s: seq<T>, x: T, i: nat)
    requires |d| == i < |s|
    ensures |(d + s[i..])[i := x]| == |s|
    ensures forall j :: 0 <= j < |s| ==>
      (d + s[i..])[i := x][j] == (if j < i then d[j] else if j == i then x else s[j])
  {
  }

  /** Holders of c in a sequence of accounts. */
  predicate NoHolder(sts: seq<AccountState>, c: Currency)
  {
    forall i :: 0 <= i < |sts| ==> !Active(sts[i], c)
  }

  /** The position of the first account that holds c; |sts| when none does. */
  function FirstHolder(sts: seq<AccountState>, c: Currency): (h: nat)
    ensures h <= |sts|
    ensures forall k :: 0 <= k < h ==> !Active(sts[k], c)
    ensures h < |sts| ==> Active(sts[h], c)
    decreases |sts|
  {
    if |sts| == 0 then 0
    else if Active(sts[0], c) then 0
    else 1 + FirstHolder(sts[1..], c)
  }

  /** Without a c-to-main rate the loop fails at the first holder of c: every
      account before it held nothing in c and is unchanged, that holder keeps
      the partial state of its own pass, and the accounts after it are never
      reached. */
  lemma CascadeAllFailure(sts: seq<AccountState>, bank: BankView, c: Currency)
    requires AllInv(sts) && CurrencyTrait.Inv(bank.registry)
    requires CheckCurrencyExist(bank.registry, c) && bank.registry.main != Some(c)
    requires !NoHolder(sts, c) && CreateRelationKey(c, bank.registry.main.value) !in bank.rates
    ensures var h := FirstHolder(sts, c);
      var (sts', o) := CascadeAll(sts, bank, c);
      && h < |sts| && o == Fail(RateCurrencyNotExist)
      && sts'[h] == Cascade(sts[h], bank, c).0
      && (forall j :: 0 <= j < |sts| && j != h ==> sts'[j] == sts[j])
  {
    var outs := Cascades(sts, bank, c);
    var h := FirstHolder(sts, c);
    HolderFailsWithoutRate(sts[h], bank, c);
    ChainFirstFailure(sts, outs, h);
  }

  /** Without a c-to-main rate, the bank's pass over a holder of c fails. */
  lemma HolderFailsWithoutRate(st: AccountState, bank: BankView, c: Currency)
    requires Inv(st) && CurrencyTrait.Inv(bank.registry)
    requires Active(st, c) && CheckCurrencyExist(bank.registry, c) && bank.registry.main != Some(c)
    requires CreateRelationKey(c, bank.registry.main.value) !in bank.rates
    ensures Cascade(st, bank, c).1 == Fail(RateCurrencyNotExist)
  {
    SweepMovesHoldings(st, bank, c);
  }

  /** The removal loop, for a currency the bank may remove, fails exactly
      when some account holds c and the bank has no c-to-main rate, even if
      every balance in c is 0; the failure is then a missing rate, and it
      comes at the first holder, the only account it changes. When it
      succeeds no account holds c any more. Accounts that did not hold c are
      unchanged either way. */
  lemma CascadeAllOutcome(sts: seq<AccountState>, bank: BankView, c: Currency)
    requires AllInv(sts) && CurrencyTrait.Inv(bank.registry)
    requires CheckCurrencyExist(bank.registry, c) && bank.registry.main != Some(c)
    ensures bank.registry.main.Some?
    ensures var (sts', o) := CascadeAll(sts, bank, c);
      && (o.Pass? <==> NoHolder(sts, c) || CreateRelationKey(c, bank.registry.main.value) in bank.rates)
      && (o.Fail? ==> o == Fail(RateCurrencyNotExist))
      && (o.Pass? ==> NoHolder(sts', c))
      && (o.Fail? ==>
            var h := FirstHolder(sts, c);
            && h < |sts| && sts'[h] == Cascade(sts[h], bank, c).0
            && forall j :: 0 <= j < |sts| && j != h ==> sts'[j] == sts[j])
      && (forall i :: 0 <= i < |sts| && !Active(sts[i], c) ==> sts'[i] == sts[i])
  {
    var main := bank.registry.main.value;
    var key := CreateRelationKey(c, main);
    var outs := Cascades(sts, bank, c);
    var res := CascadeAll(sts, bank, c);
    ChainEach(sts, outs);
    if NoHolder(sts, c) || key in bank.rates {
      forall i | 0 <= i < |sts|
        ensures outs[i].1.Pass?
      {
        if Active(sts[i], c) {
          SweepMovesHoldings(sts[i], bank, c);
        }
      }
      ChainPassIfEach(sts, outs);
      ChainPassEach(sts, outs);
      forall i | 0 <= i < |sts|
        ensures !Active(res.0[i], c)
      {
        if Active(sts[i], c) {
          SweepMovesHoldings(sts[i], bank, c);
        }
      }
    } else {
      CascadeAllFailure(sts, bank, c);
    }
  }

  /** Whether it completes or stops early, the removal loop leaves every
      balance of every account non-negative when they all were and the
      table holds no negative rate. */
  lemma CascadeAllKeepsNonNegative(sts: seq<AccountState>, bank: BankView, c: Currency)
    requires AllInv(sts) && NonNegativeRates(bank.rates) && forall i :: 0 <= i < |sts| ==> NonNegative(sts[i])
    requires CurrencyTrait.Inv(bank.registry) && CheckCurrencyExist(bank.registry, c) && bank.registry.main != Some(c)
    ensures forall i :: 0 <= i < |sts| ==> NonNegative(CascadeAll(sts, bank, c).0[i])
  {
    var outs := Cascades(sts, bank, c);
    ChainEach(sts, outs);
    forall i | 0 <= i < |sts|
      ensures NonNegative(CascadeAll(sts, bank, c).0[i])
    {
      CascadeKeepsNonNegative(sts[i], bank, c);
    }
  }

  /** With a c-to-main rate stored, the removal loop succeeds (by
      CascadeAllOutcome this is the only way it can when some account holds
      c), and each account that held c now has the bank's main as its active
      main currency, c inactive with a zero slot, and c's old balance
      converted into main. */
  lemma RemovalOfHolder(sts: seq<AccountState>, bank: BankView, c: Currency, i: nat)
    requires AllInv(sts) && CurrencyTrait.Inv(bank.registry)
    requires CheckCurrencyExist(bank.registry, c) && bank.registry.main != Some(c)
    requires CreateRelationKey(c, bank.registry.main.value) in bank.rates
    requires i < |sts| && Active(sts[i], c)
    ensures bank.registry.main.Some?
    ensures CascadeAll(sts, bank, c).1.Pass?
    ensures var main := bank.registry.main.value;
      var st' := CascadeAll(sts, bank, c).0[i];
      && st'.registry.main == Some(main) && Active(st', main) && !Active(st', c)
      && c in st'.balances && st'.balances[c] == 0.0 && main in st'.balances
      && ConvertAmount(bank.registry, bank.rates, c, main, sts[i].balances[c]).Ok?
      && st'.balances[main] ==
           AddedAmount(Prior(sts[i], main), ConvertAmount(bank.registry, bank.rates, c, main, sts[i].balances[c]).value)
  {
    CascadeAllOutcome(sts, bank, c);
    ChainPassEach(sts, Cascades(sts, bank, c));
    SweepMovesHoldings(sts[i], bank, c);
  }

  // ---- the scenario of the tests ------------------------------------------

  /** The account of the tests after set-up: RUB, USD and EUR added in that
      order, RUB main, holding 1000 RUB, 50 USD and 50 EUR. */
  function TestAccount(): (st: AccountState)
    ensures Inv(st)
  {
    AccountState(TestBank(), map[RUB := 1000.0, USD := 50.0, EUR := 50.0])
  }

  function TestView(): BankView
  {
    BankView(TestBank(), TestRates())
  }

  /** Whole amounts are on the two-decimal grid. */
  lemma WholeHasTwoDecimals(k: int)
    ensures HasTwoDecimals(k as real)
  {
    assert k as real * 100.0 == (k * 100) as real;
    FloorOfInt(k * 100);
  }

  /** Adding whole amounts is exact. */
  lemma WholeAddition(a: int, b: int)
    ensures AddedAmount(a as real, b as real) == (a + b) as real
  {
    WholeHasTwoDecimals(a);
    WholeHasTwoDecimals(b);
    TwoDecimalUpdatesExact(a as real, b as real);
  }

  /** The tests' account after its currencies are set up and before any
      funds arrive. */
  function TestAccountUnfunded(): (st: AccountState)
    ensures Inv(st)
  {
    AccountState(TestBank(), map[RUB := 0.0, USD := 0.0, EUR := 0.0])
  }

  /** The first half of the tests' set-up (tests/Traits/Helper.php) on a
      newly opened account: adding RUB, USD and EUR and making RUB main all
      succeed, and the account then has the bank's registry and three empty
      slots. */
  lemma TestAccountCurrencies()
    ensures var a1 := AddCurrency(Opened, TestBank(), RUB);
      && a1.Ok?
      && var a2 := AddCurrency(a1.value, TestBank(), USD);
      && a2.Ok?
      && var a3 := AddCurrency(a2.value, TestBank(), EUR);
      && a3.Ok?
      && SetMainCurrency(a3.value, RUB) == Ok(TestAccountUnfunded())
  {
    TestBankBuilt();
    var a1 := AddCurrency(Opened, TestBank(), RUB);
    var a2 := AddCurrency(a1.value, TestBank(), USD);
    var a3 := AddCurrency(a2.value, TestBank(), EUR);
    assert a3.value == TestAccountUnfunded();
  }

  /** The second half of the set-up: replenishing 1000 RUB, 50 EUR and 50 USD
      all succeed and give TestAccount. Each deposit is in its own currency,
      so no rate is read and any bank gives the same result. */
  lemma TestAccountFunds(bank: BankView)
    ensures var p1 := ReplenishBalance(TestAccountUnfunded(), bank, RUB, RUB, 1000.0);
      && p1.Ok?
      && var p2 := ReplenishBalance(p1.value, bank, EUR, EUR, 50.0);
      && p2.Ok?
      && ReplenishBalance(p2.value, bank, USD, USD, 50.0) == Ok(TestAccount())
  {
    WholeAddition(0, 1000);
    WholeAddition(0, 50);
    assert AddedAmount(0.0, 1000.0) == 1000.0;
    assert AddedAmount(0.0, 50.0) == 50.0;
    assert Active(TestAccountUnfunded(), RUB);
    assert Credit(bank, RUB, RUB, 1000.0) == Ok(1000.0);
    var p1 := ReplenishBalance(TestAccountUnfunded(), bank, RUB, RUB, 1000.0);
    assert p1.Ok?;
    assert p1.value == AccountState(TestBank(), map[RUB := 1000.0, USD := 0.0, EUR := 0.0]);
    var p2 := ReplenishBalance(p1.value, bank, EUR, EUR, 50.0);
    assert p2.value == AccountState(TestBank(), map[RUB := 1000.0, USD := 0.0, EUR := 50.0]);
    var p3 := ReplenishBalance(p2.value, bank, USD, USD, 50.0);
    assert p3.Ok?;
    assert p3.value.balances == map[RUB := 1000.0, USD := 50.0, EUR := 50.0];
    assert p3.value.registry == TestBank();
    assert p3 == Ok(TestAccount());
  }

  /** Replenishing 1000 RUB gives 2000 RUB; replenishing 3 EUR at the
      EUR-to-RUB rate of 80 gives 1240 RUB. */
  lemma ReplenishScenarios()
    ensures ReplenishBalance(TestAccount(), TestView(), RUB, RUB, 1000.0)
      == Ok(AccountState(TestBank(), TestAccount().balances[RUB := 2000.0]))
    ensures ReplenishBalance(TestAccount(), TestView(), RUB, EUR, 3.0)
      == Ok(AccountState(TestBank(), TestAccount().balances[RUB := 1240.0]))
  {
    WholeAddition(1000, 1000);
    TestRatesToRub();
    assert Trunc10(240.0) == 240.0;
    WholeHasTwoDecimals(240);
    TwoDecimalsFixed(240.0);
    assert Converted(3.0, 80.0) == 240.0;
    WholeAddition(1000, 240);
  }

  /** Removing USD while it still holds 50: the policy the tests expect
      refuses with NeedWithdrawFunds, while the code as written converts the
      50 USD at 70 into 3500 RUB, leaves the USD slot at 50 and drops USD
      from the list. */
  lemma RemovalPolicyDivergence()
    ensures RemoveCurrencyStrict(TestAccount(), USD) == Err(NeedWithdrawFunds)
    ensures var res := RemoveCurrency(TestAccount(), TestView(), USD);
      && res.Ok?
      && res.value.balances == TestAccount().balances[RUB := 4500.0]
      && ListAvailableCurrencies(res.value.registry) == [RUB, EUR]
  {
    TestRatesToRub();
    assert Trunc10(3500.0) == 3500.0;
    WholeHasTwoDecimals(3500);
    TwoDecimalsFixed(3500.0);
    assert Converted(50.0, 70.0) == 3500.0;
    WholeAddition(1000, 3500);
    TestBankWithoutUsd();
  }

  /** testRemoveCurrency: once the whole USD balance is withdrawn, removal
      succeeds with nothing to convert and the list is RUB, EUR. */
  lemma RemoveAfterWithdrawal()
    ensures var w := WithdrawAll(TestAccount(), USD);
      && w == Ok((AccountState(TestBank(), TestAccount().balances[USD := 0.0]), 50.0))
      && var res := RemoveCurrency(w.value.0, TestView(), USD);
      && res.Ok?
      && res.value.balances == w.value.0.balances
      && ListAvailableCurrencies(res.value.registry) == [RUB, EUR]
  {
    WithdrawAllEffect(TestAccount(), USD);
    TestBankWithoutUsd();
  }
}
