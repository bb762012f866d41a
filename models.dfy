/** The bank, its rate table and its debit accounts as objects updated in
    place. The three classes refer to one another (a rate table and every
    account keep a reference to their bank), so they share one module. Each
    method is proved against the value-level functions of CurrencyTrait,
    RateTable and Ledger. */
module Models {
  import opened Errors
  import opened Currencies
  import opened Decimal
  import opened CurrencyTrait
  import opened RateTable
  import opened Common
  import opened Ledger

  /** Ids come from an id generator outside the core; here they are numbers
      handed out by the bank. */
  type AccountId = nat
  type ClientId = nat

  /** The inert identity record of a client. */
  datatype Client = Client(id: ClientId, name: string)

  /** A method's outcome and new state agree with a Ledger transition: on an
      error nothing changed, on success the state is the transition's. */
  ghost predicate Follows(o: Outcome, after: AccountState, before: AccountState, spec: Result<AccountState>)
  {
    match spec
    case Err(e) => o == Fail(e) && after == before
    case Ok(st) => o == Pass && after == st
  }

  class ExchangerRateCurrency {
    const bank: Bank
    var rates: Rates

    constructor (bank: Bank)
      ensures this.bank == bank && rates == map[]
    {
      this.bank := bank;
      rates := map[];
    }

    method SetRate(from: Currency, to: Currency, rate: real) returns (o: Outcome)
      modifies this`rates
      ensures (rates, o) == RateTable.SetRate(bank.registry, old(rates), from, to, rate)
    {
      o := CheckBankCurrencies(bank.registry, from, to);
      if o.Fail? {
        return;
      }
      rates := rates[CreateRelationKey(from, to) := rate];
      if rate == 0.0 {
        return Fail(DivisionByZero);
      }
      var secondRate := Trunc10(1.0 / rate);
      rates := rates[CreateRelationKey(to, from) := Round6(secondRate)];
    }

    method GetRate(from: Currency, to: Currency) returns (r: Result<real>)
      ensures r == RateTable.GetRate(bank.registry, rates, from, to)
    {
      var check := CheckBankCurrencies(bank.registry, from, to);
      if check.Fail? {
        return Err(check.error);
      }
      var key := CreateRelationKey(from, to);
      if key in rates {
        r := Ok(rates[key]);
      } else {
        r := Err(RateCurrencyNotExist);
      }
    }

    /** A fresh Funds in `to` holding the converted amount. */
    method Convert(from: Currency, to: Currency, amount: real) returns (r: Result<Funds>)
      ensures var spec := ConvertAmount(bank.registry, rates, from, to, amount);
        && (spec.Err? ==> r == Err(spec.error))
        && (spec.Ok? ==> r.Ok? && fresh(r.value) && r.value.currency == to && r.value.amount == spec.value)
    {
      var rate := GetRate(from, to);
      if rate.Err? {
        return Err(rate.error);
      }
      var funds := new Funds(to, Converted(amount, rate.value));
      r := Ok(funds);
    }
  }

  class DebitAccount {
    const id: AccountId
    const client: Client
    const bank: Bank
    var registry: Registry
    var funds: map<Currency, Funds>

    /** Every added currency has a slot and each slot is tagged with its own
        currency. */
    ghost predicate Valid()
      reads this
    {
      && CurrencyTrait.Inv(registry)
      && registry.currencies.Keys <= funds.Keys
      && (forall c :: c in funds ==> funds[c].currency == c)
    }

    ghost function Balances(): map<Currency, real>
      reads this`funds, funds.Values
    {
      map c | c in funds :: funds[c].amount
    }

    ghost function State(): AccountState
      reads this, funds.Values
    {
      AccountState(registry, Balances())
    }

    ghost function View(): BankView
      reads bank`registry, bank`exchanger, bank.exchanger
      requires bank.Linked()
    {
      bank.View()
    }

    lemma ValidState()
      requires Valid()
      ensures Ledger.Inv(State())
    {
    }

    /** Only the slot of c changed: the balances differ at c alone. */
    twostate lemma OneSlotChanged(c: Currency)
      requires unchanged(this) && c in funds
      requires forall d :: d in funds && d != c ==> unchanged(funds[d])
      ensures Balances() == old(Balances())[c := funds[c].amount]
    {
    }

    constructor (id: AccountId, client: Client, bank: Bank)
      ensures this.id == id && this.client == client && this.bank == bank
      ensures Valid() && funds == map[] && State() == Opened
    {
      this.id := id;
      this.client := client;
      this.bank := bank;
      registry := Empty;
      funds := map[];
      new;
      assert Balances() == map[];
    }

    method AddCurrency(c: Currency) returns (o: Outcome)
      requires Valid()
      modifies this`registry, this`funds
      ensures Valid()
      ensures Follows(o, State(), old(State()), Ledger.AddCurrency(old(State()), bank.registry, c))
      ensures forall d :: d in old(funds) ==> d in funds && funds[d] == old(funds[d])
      ensures forall d :: d in funds && d !in old(funds) ==> fresh(funds[d])
    {
      ValidState();
      if !CheckCurrencyExist(bank.registry, c) {
        return Fail(CurrencyNotExist(NoSuchCurrencyInBank));
      }
      var added := CurrencyTrait.AddCurrency(registry, c);
      if added.Err? {
        return Fail(added.error);
      }
      AddCurrencyPreservesInv(registry, c);
      Register(c, added.value);
      o := Pass;
    }

    /** The trait's new registry is installed, and c gets a zero slot unless
        it has one. */
    method Register(c: Currency, r: Registry)
      requires Valid() && CurrencyTrait.Inv(r) && r.currencies.Keys == registry.currencies.Keys + {c}
      modifies this`registry, this`funds
      ensures Valid()
      ensures State() == AccountState(r, AddedSlot(old(Balances()), c))
      ensures forall d :: d in old(funds) ==> d in funds && funds[d] == old(funds[d])
      ensures forall d :: d in funds && d !in old(funds) ==> fresh(funds[d])
    {
      ghost var before := Balances();
      registry := r;
      assert Balances() == before;
      if c !in funds {
        AddSlot(c);
      }
    }

    /** A new zero Funds slot for c. */
    method AddSlot(c: Currency)
      requires c !in funds && forall d :: d in funds ==> funds[d].currency == d
      modifies this`funds
      ensures forall d :: d in funds ==> funds[d].currency == d
      ensures funds.Keys == old(funds.Keys) + {c} && fresh(funds[c])
      ensures forall d :: d in old(funds) ==> funds[d] == old(funds[d])
      ensures Balances() == old(Balances())[c := 0.0]
    {
      var slot := new Funds(c, 0.0);
      funds := funds[c := slot];
    }

    method SetMainCurrency(c: Currency) returns (o: Outcome)
      requires Valid()
      modifies this`registry
      ensures Valid()
      ensures Follows(o, State(), old(State()), Ledger.SetMainCurrency(old(State()), c))
    {
      var r := CurrencyTrait.SetMainCurrency(registry, c);
      if r.Err? {
        return Fail(r.error);
      }
      SetMainCurrencyPreservesInv(registry, c);
      registry := r.value;
      o := Pass;
    }

    method GetMainCurrency() returns (r: Result<Currency>)
      ensures r == CurrencyTrait.GetMainCurrency(registry)
    {
      if registry.main.None? {
        return Err(MainCurrencyIsNotSet);
      }
      r := Ok(registry.main.value);
    }

    method ReplenishBalance(currency: Currency, f: Funds) returns (o: Outcome)
      requires Valid() && bank.Linked()
      modifies funds.Values
      ensures Valid()
      ensures Follows(o, State(), old(State()),
        Ledger.ReplenishBalance(old(State()), View(), currency, f.currency, old(f.amount)))
    {
      ValidState();
      if !CheckCurrencyExist(registry, currency) {
        return Fail(CurrencyNotExist(""));
      }
      var currentFunds := funds[currency];
      var amount: real;
      var slotCurrency := currentFunds.GetCurrency();
      var fundsCurrency := f.GetCurrency();
      if slotCurrency == fundsCurrency {
        amount := f.GetAmount();
      } else {
        var fundsAmount := f.GetAmount();
        var convertFunds := bank.exchanger.Convert(fundsCurrency, currency, fundsAmount);
        if convertFunds.Err? {
          return Fail(convertFunds.error);
        }
        amount := convertFunds.value.GetAmount();
      }
      currentFunds.AddAmount(amount);
      OneSlotChanged(currency);
      o := Pass;
    }

    method GetBalance(currency: Option<Currency>, withCurrency: bool) returns (r: Result<Balance>)
      requires Valid()
      ensures r == Ledger.GetBalance(State(), currency, withCurrency)
    {
      ValidState();
      if currency.Some? && !CheckCurrencyExist(registry, currency.value) {
        return Err(CurrencyNotExist(""));
      }
      var c: Currency;
      if currency.None? {
        var main := GetMainCurrency();
        if main.Err? {
          return Err(main.error);
        }
        c := main.value;
      } else {
        c := currency.value;
      }
      var amount := funds[c].GetAmount();
      r := Ok(if withCurrency then Labelled(amount, Name(c)) else Amount(amount));
    }

    method WithdrawBalance(currency: Currency, amount: real) returns (r: Result<Funds>)
      requires Valid()
      modifies funds.Values
      ensures Valid()
      ensures var spec := Ledger.WithdrawBalance(old(State()), currency, amount);
        && (spec.Err? ==> r == Err(spec.error) && State() == old(State()))
        && (spec.Ok? ==> r.Ok? && State() == spec.value && fresh(r.value)
                         && r.value.currency == currency && r.value.amount == amount)
    {
      ValidState();
      if !CheckCurrencyExist(registry, currency) {
        return Err(CurrencyNotExist(""));
      }
      var currentFunds := funds[currency];
      var balance := currentFunds.GetAmount();
      if amount > balance {
        return Err(NotEnoughFunds);
      }
      currentFunds.SubAmount(amount);
      OneSlotChanged(currency);
      var out := new Funds(currency, amount);
      r := Ok(out);
    }

    /** As written: a positive balance is swept into the main currency. */
    method RemoveCurrency(currency: Currency) returns (o: Outcome)
      requires Valid() && bank.Linked()
      modifies this`registry, funds.Values
      ensures Valid()
      ensures Follows(o, State(), old(State()), Ledger.RemoveCurrency(old(State()), View(), currency))
    {
      ValidState();
      if !CheckCurrencyExist(registry, currency) {
        return Fail(CurrencyNotExist(""));
      } else if registry.main == Some(currency) {
        return Fail(CannotDeleteMainCurrency);
      }
      o := SweepSlot(currency);
      if o.Fail? {
        return;
      }
      ghost var swept := State();
      Deactivate(currency);
      o := Pass;
      assert State() == AccountState(Tombstone(swept.registry, currency), swept.balances);
    }

    /** The first half of `removeCurrency` once both checks passed: a
        positive balance in the currency is replenished into the main
        currency; the slot itself keeps its amount. */
    method SweepSlot(currency: Currency) returns (o: Outcome)
      requires Valid() && bank.Linked() && CheckCurrencyExist(registry, currency)
      requires registry.main.Some? && registry.main != Some(currency)
      modifies funds.Values
      ensures Valid() && registry == old(registry)
      ensures var amount := old(Balances())[currency];
        Follows(o, State(), old(State()),
          if amount > 0.0 then Ledger.ReplenishBalance(old(State()), View(), registry.main.value, currency, amount)
          else Ok(old(State())))
    {
      ValidState();
      var currencyFunds := funds[currency];
      var amount := currencyFunds.GetAmount();
      if amount > 0.0 {
        o := ReplenishBalance(registry.main.value, currencyFunds);
      } else {
        o := Pass;
      }
    }

    /** The registry's tombstone for a currency that is active and not main. */
    method Deactivate(currency: Currency)
      requires Valid() && CheckCurrencyExist(registry, currency) && registry.main != Some(currency)
      modifies this`registry
      ensures Valid() && registry == Tombstone(old(registry), currency) && Balances() == old(Balances())
    {
      TombstonePreservesInv(registry, currency);
      registry := Tombstone(registry, currency);
    }
  }

  /** The objects of a sequence of accounts. */
  ghost function AccountsIn(accs: seq<DebitAccount>): set<object>
  {
    set i | 0 <= i < |accs| :: accs[i]
  }

  /** The Funds slots of a sequence of accounts. */
  ghost function SlotsIn(accs: seq<DebitAccount>): set<object>
    reads AccountsIn(accs)
  {
    set i, f | 0 <= i < |accs| && f in accs[i].funds.Values :: f
  }

  /** The ledger states of a sequence of accounts. */
  ghost function StatesOf(accs: seq<DebitAccount>): (sts: seq<AccountState>)
    reads AccountsIn(accs), SlotsIn(accs)
    ensures |sts| == |accs|
    ensures forall i :: 0 <= i < |accs| ==> sts[i] == accs[i].State()
    decreases |accs|
  {
    if accs == [] then [] else StatesOf(accs[..|accs| - 1]) + [accs[|accs| - 1].State()]
  }

  class Bank {
    var registry: Registry
    var exchanger: ExchangerRateCurrency?
    var clients: map<ClientId, Client>
    var clientsAccounts: map<ClientId, seq<AccountId>>
    var accounts: seq<DebitAccount>

    ghost function Accounts(): set<object>
      reads this`accounts
    {
      AccountsIn(accounts)
    }

    /** The accounts and all their Funds slots. */
    ghost function Repr(): set<object>
      reads this`accounts, Accounts()
    {
      Accounts() + SlotsIn(accounts)
    }

    /** The bank object itself is never one of its accounts or slots. */
    lemma OutsideRepr()
      ensures this !in AccountsIn(accounts) && this !in SlotsIn(accounts) && this !in Repr()
    {
    }

    /** The rate table exists and belongs to this bank. */
    predicate Linked()
      reads this`exchanger
    {
      exchanger != null && exchanger.bank == this
    }

    ghost function View(): BankView
      reads this`registry, this`exchanger, exchanger
      requires Linked()
    {
      BankView(registry, exchanger.rates)
    }

    ghost predicate Valid()
      reads this, Accounts()
    {
      CurrencyTrait.Inv(registry) && Linked() && AccountsPlaced() && AccountsValid() && ClientsValid()
    }

    /** Account ids are positions in `accounts`, and every account belongs
        to this bank. */
    ghost predicate AccountsPlaced()
      reads this`accounts
    {
      forall i :: 0 <= i < |accounts| ==> accounts[i].bank == this && accounts[i].id == i
    }

    /** Every account is valid and owns its Funds slots alone. */
    ghost predicate AccountsValid()
      reads this`accounts, Accounts()
    {
      && (forall i :: 0 <= i < |accounts| ==> accounts[i].Valid())
      && (forall i, j :: 0 <= i < j < |accounts| ==> accounts[i].funds.Values !! accounts[j].funds.Values)
    }

    /** Each registered client is recorded under its own id, and its account
        ids lead to accounts of that client. */
    ghost predicate ClientsValid()
      reads this`clients, this`clientsAccounts, this`accounts
    {
      && clients.Keys == clientsAccounts.Keys
      && (forall id :: id in clients ==> clients[id].id == id)
      && (forall id, k :: id in clientsAccounts && 0 <= k < |clientsAccounts[id]| ==>
            clientsAccounts[id][k] < |accounts| && accounts[clientsAccounts[id][k]].client.id == id)
    }

    lemma ValidStates()
      requires Valid()
      ensures AllInv(StatesOf(accounts))
    {
      forall i | 0 <= i < |accounts|
        ensures Ledger.Inv(StatesOf(accounts)[i])
      {
        accounts[i].ValidState();
      }
    }

    constructor ()
      ensures Valid() && fresh(exchanger)
      ensures registry == Empty && exchanger.rates == map[]
      ensures clients == map[] && clientsAccounts == map[] && accounts == []
    {
      registry := Empty;
      clients := map[];
      clientsAccounts := map[];
      accounts := [];
      new;
      exchanger := new ExchangerRateCurrency(this);
      EmptyInv();
    }

    method AddCurrency(c: Currency) returns (o: Outcome)
      requires Valid()
      modifies this`registry
      ensures Valid()
      ensures var spec := CurrencyTrait.AddCurrency(old(registry), c);
        && (spec.Err? ==> o == Fail(spec.error) && registry == old(registry))
        && (spec.Ok? ==> o == Pass && registry == spec.value)
    {
      var r := CurrencyTrait.AddCurrency(registry, c);
      if r.Err? {
        return Fail(r.error);
      }
      AddCurrencyPreservesInv(registry, c);
      registry := r.value;
      o := Pass;
    }

    method SetMainCurrency(c: Currency) returns (o: Outcome)
      requires Valid()
      modifies this`registry
      ensures Valid()
      ensures var spec := CurrencyTrait.SetMainCurrency(old(registry), c);
        && (spec.Err? ==> o == Fail(spec.error) && registry == old(registry))
        && (spec.Ok? ==> o == Pass && registry == spec.value)
    {
      var r := CurrencyTrait.SetMainCurrency(registry, c);
      if r.Err? {
        return Fail(r.error);
      }
      SetMainCurrencyPreservesInv(registry, c);
      registry := r.value;
      o := Pass;
    }

    method GetMainCurrency() returns (r: Result<Currency>)
      ensures r == CurrencyTrait.GetMainCurrency(registry)
    {
      if registry.main.None? {
        return Err(MainCurrencyIsNotSet);
      }
      r := Ok(registry.main.value);
    }

    /** The account is built before the duplicate check, as in the source; on
        a registered client it is dropped and nothing changes. */
    method CreateAccount(client: Client) returns (r: Result<DebitAccount>)
      requires Valid()
      modifies this`clients, this`clientsAccounts, this`accounts
      ensures Valid()
      ensures old(client.id in clients) ==>
        r == Err(ClientIsExist) && clients == old(clients) && clientsAccounts == old(clientsAccounts) && accounts == old(accounts)
      ensures !old(client.id in clients) ==>
        && r.Ok? && fresh(r.value)
        && r.value.client == client && r.value.bank == this && r.value.State() == Opened
        && accounts == old(accounts) + [r.value]
        && clients == old(clients)[client.id := client]
        && clientsAccounts == old(clientsAccounts)[client.id := [r.value.id]]
    {
      OutsideRepr();
      var account := new DebitAccount(|accounts|, client, this);
      if client.id in clients {
        return Err(ClientIsExist);
      }
      clients := clients[client.id := client];
      clientsAccounts := clientsAccounts[client.id := [account.id]];
      accounts := accounts + [account];
      AccountAdded(account);
      r := Ok(account);
    }

    /** Appending a new valid account without slots, registered under a new
        client, keeps the bank valid. */
    twostate lemma AccountAdded(new a: DebitAccount)
      requires old(Valid()) && registry == old(registry) && exchanger == old(exchanger)
      requires accounts == old(accounts) + [a] && a.Valid() && a.funds == map[]
      requires a.bank == this && a.id == |old(accounts)| && a.client.id !in old(clients)
      requires clients == old(clients)[a.client.id := a.client]
      requires clientsAccounts == old(clientsAccounts)[a.client.id := [a.id]]
      requires forall j :: 0 <= j < |old(accounts)| ==> unchanged(old(accounts)[j])
      ensures Valid()
    {
      assert forall j :: 0 <= j < |old(accounts)| ==> accounts[j] == old(accounts)[j];
    }

    /** The accounts of a registered client, looked up by id. */
    method GetClientAccounts(client: Client) returns (r: Result<seq<DebitAccount>>)
      requires Valid()
      ensures client.id !in clients ==> r == Err(ClientNotExist)
      ensures client.id in clients ==>
        && r.Ok? && |r.value| == |clientsAccounts[client.id]|
        && forall k :: 0 <= k < |r.value| ==>
             r.value[k] in accounts && r.value[k].id == clientsAccounts[client.id][k] && r.value[k].client.id == client.id
    {
      if client.id !in clients {
        return Err(ClientNotExist);
      }
      var clientAccountsIds := clientsAccounts[client.id];
      var found: seq<DebitAccount> := [];
      for i := 0 to |clientAccountsIds|
        invariant |found| == i
        invariant forall k :: 0 <= k < i ==>
          found[k] in accounts && found[k].id == clientAccountsIds[k] && found[k].client.id == client.id
      {
        found := found + [accounts[clientAccountsIds[i]]];
      }
      r := Ok(found);
    }

    method GetAccounts() returns (r: seq<DebitAccount>)
      ensures r == accounts
    {
      r := accounts;
    }

    method GetExchangerRateCurrency() returns (r: ExchangerRateCurrency?)
      ensures r == exchanger
    {
      r := exchanger;
    }

    /** The first half of the removal loop's body for a holder: the bank's
        main currency is added to the account when missing and made its
        main. */
    method AdoptBankMain(account: DebitAccount) returns (o: Outcome)
      requires CurrencyTrait.Inv(registry) && account.Valid() && account.bank == this
      modifies account
      ensures account.Valid() && account.funds.Keys >= old(account.funds.Keys)
      ensures o.Pass? <==> AdoptMain(old(account.State()), registry).Ok?
      ensures o.Pass? ==> account.State() == AdoptMain(old(account.State()), registry).value.0
      ensures o.Fail? ==> o == Fail(AdoptMain(old(account.State()), registry).error) && account.State() == old(account.State())
      ensures forall d :: d in old(account.funds) ==> account.funds[d] == old(account.funds[d])
      ensures forall d :: d in account.funds && d !in old(account.funds) ==> fresh(account.funds[d])
    {
      account.ValidState();
      var main := GetMainCurrency();
      if main.Err? {
        return Fail(main.error);
      }
      if !CheckCurrencyExist(account.registry, main.value) {
        o := account.AddCurrency(main.value);
        if o.Fail? {
          return;
        }
      }
      o := account.SetMainCurrency(main.value);
    }

    /** `getBalance(c)` then `withdrawBalance(c, balance)` on a holder: the
        whole balance in c, handed out as fresh Funds. */
    method WithdrawHoldings(account: DebitAccount, c: Currency) returns (r: Result<Funds>)
      requires account.Valid()
      modifies account.funds.Values
      ensures account.Valid() && account.funds == old(account.funds)
      ensures var spec := WithdrawAll(old(account.State()), c);
        && (spec.Err? ==> r == Err(spec.error) && account.State() == old(account.State()))
        && (spec.Ok? ==> && r.Ok? && fresh(r.value) && account.State() == spec.value.0
                         && r.value.currency == c && r.value.amount == spec.value.1)
    {
      account.ValidState();
      var balance := account.GetBalance(Some(c), false);
      if balance.Err? {
        return Err(balance.error);
      }
      r := account.WithdrawBalance(c, balance.value.amount);
      // The whole balance can always be withdrawn.
      assert r.Ok?;
    }

    /** The second half for a holder: withdraw the whole balance in c,
        deposit it in the account's main currency, remove c. */
    method MoveHoldings(account: DebitAccount, c: Currency) returns (o: Outcome)
      requires Linked() && account.Valid() && account.bank == this
      modifies account`registry, account.funds.Values
      ensures account.Valid()
      ensures (account.State(), o) == Move(old(account.State()), View(), c)
    {
      account.ValidState();
      var funds := WithdrawHoldings(account, c);
      if funds.Err? {
        return Fail(funds.error);
      }
      o := DepositHoldings(account, c, funds.value);
    }

    /** The withdrawn Funds go into the account's main currency, then c is
        removed from the account. */
    method DepositHoldings(account: DebitAccount, c: Currency, f: Funds) returns (o: Outcome)
      requires Linked() && account.Valid() && account.bank == this && f.currency == c
      modifies account`registry, account.funds.Values
      ensures account.Valid()
      ensures (account.State(), o) == Deposit(old(account.State()), View(), c, old(f.amount))
    {
      account.ValidState();
      var accountMain := account.GetMainCurrency();
      if accountMain.Err? {
        return Fail(accountMain.error);
      }
      o := account.ReplenishBalance(accountMain.value, f);
      if o.Fail? {
        return;
      }
      o := account.RemoveCurrency(c);
    }

    /** The loop body's treatment of one account: swept when it holds c,
        otherwise left alone. */
    method CascadeAccount(account: DebitAccount, c: Currency) returns (o: Outcome)
      requires CurrencyTrait.Inv(registry) && Linked() && account.Valid() && account.bank == this
      modifies account, account.funds.Values
      ensures account.Valid() && Ledger.Inv(old(account.State()))
      ensures (account.State(), o) == Cascade(old(account.State()), View(), c)
      ensures forall d :: d in old(account.funds) ==> d in account.funds && account.funds[d] == old(account.funds[d])
      ensures forall d :: d in account.funds && d !in old(account.funds) ==> fresh(account.funds[d])
    {
      account.ValidState();
      if !CheckCurrencyExist(account.registry, c) {
        return Pass;
      }
      o := AdoptBankMain(account);
      if o.Pass? {
        o := MoveHoldings(account, c);
      }
    }

    /** A step that changed account i alone, leaving it valid with its old
        slots or fresh ones, keeps the bank valid and the other accounts'
        states as they were. */
    twostate lemma OneAccountChanged(i: nat)
      requires old(Valid()) && unchanged(this) && i < |accounts|
      requires accounts[i].Valid()
      requires forall f :: f in accounts[i].funds.Values ==> f in old(accounts[i].funds.Values) || fresh(f)
      requires forall j :: 0 <= j < |accounts| && j != i ==> unchanged(accounts[j])
      requires forall j, f :: 0 <= j < |accounts| && j != i && f in accounts[j].funds.Values ==> unchanged(f)
      ensures Valid()
      ensures forall j :: 0 <= j < |accounts| && j != i ==> accounts[j].State() == old(accounts[j].State())
    {
      forall j | 0 <= j < |accounts| && j != i
        ensures accounts[i].funds.Values !! accounts[j].funds.Values
      {
        assert accounts[j].funds == old(accounts[j].funds);
      }
      forall j | 0 <= j < |accounts| && j != i
        ensures accounts[j].State() == old(accounts[j].State())
      {
        assert accounts[j].Balances() == old(accounts[j].Balances());
      }
    }

    /** One iteration of the removal loop: the account at position i is
        cascaded; no other account changes. */
    method SweepAt(i: nat, c: Currency, ghost view: BankView, ghost start: seq<AccountState>,
                   ghost outs: seq<(AccountState, Outcome)>) returns (o: Outcome)
      requires Valid() && i < |accounts| && view == View()
      requires Outcomes(start, view, c, outs) && |start| == |accounts|
      requires forall j :: 0 <= j < |accounts| ==> accounts[j].State() == (if j < i then outs[j].0 else start[j])
      modifies accounts[i], accounts[i].funds.Values
      ensures Valid()
      ensures o == outs[i].1
      ensures forall j :: 0 <= j < |accounts| ==> accounts[j].State() == (if j <= i then outs[j].0 else start[j])
      ensures forall j :: 0 <= j < |accounts| && j != i ==> accounts[j].funds == old(accounts[j].funds)
    {
      OutsideRepr();
      var account := accounts[i];
      o := CascadeAccount(account, c);
      forall f | f in account.funds.Values
        ensures f in old(account.funds.Values) || fresh(f)
      {
        var d :| d in account.funds && account.funds[d] == f;
      }
      OneAccountChanged(i);
    }

    /** The removal loop: every account is cascaded in order, the first
        failure (at position n) stopping it. */
    method SweepLoop(c: Currency, ghost view: BankView, ghost start: seq<AccountState>,
                     ghost outs: seq<(AccountState, Outcome)>) returns (o: Outcome, ghost n: nat)
      requires Valid() && view == View()
      requires Outcomes(start, view, c, outs) && |start| == |accounts|
      requires forall j :: 0 <= j < |accounts| ==> accounts[j].State() == start[j]
      modifies Repr()
      ensures Valid() && View() == view && registry == old(registry) && accounts == old(accounts)
      ensures n <= |accounts| && (forall k :: 0 <= k < n ==> outs[k].1.Pass?)
      ensures o == (if n < |accounts| then outs[n].1 else Pass) && (n < |accounts| ==> o.Fail?)
      ensures forall j :: 0 <= j < |accounts| ==> accounts[j].State() == (if j <= n then outs[j].0 else start[j])
    {
      OutsideRepr();
      o := Pass;
      var i := 0;
      while i < |accounts|
        invariant 0 <= i <= |accounts| && View() == view && o == Pass
        invariant Valid()
        invariant forall k :: 0 <= k < i ==> outs[k].1.Pass?
        invariant forall j :: 0 <= j < |accounts| ==> accounts[j].State() == (if j < i then outs[j].0 else start[j])
        invariant forall j :: i <= j < |accounts| ==> accounts[j].funds == old(accounts[j].funds)
      {
        o := SweepAt(i, c, view, start, outs);
        if o.Fail? {
          n := i;
          return;
        }
        i := i + 1;
      }
      n := i;
    }

    /** The loop's final state and outcome, stated by Chain. */
    method SweepAll(c: Currency, ghost view: BankView, ghost start: seq<AccountState>,
                    ghost outs: seq<(AccountState, Outcome)>) returns (o: Outcome)
      requires Valid() && view == View()
      requires Outcomes(start, view, c, outs) && |start| == |accounts|
      requires forall j :: 0 <= j < |accounts| ==> accounts[j].State() == start[j]
      modifies Repr()
      ensures Valid() && View() == view && registry == old(registry) && accounts == old(accounts)
      ensures forall j :: 0 <= j < |accounts| ==> accounts[j].State() == Chain(start, outs).0[j]
      ensures o == Chain(start, outs).1
    {
      ghost var n;
      o, n := SweepLoop(c, view, start, outs);
      ChainFirstFailure(start, outs, n);
    }

    /** `removeCurrency`: both checks come before any account is touched;
        then every account is cascaded in order. Without a c-to-main rate the
        first holder of c stops the loop, after adopting the main currency
        and losing its balance in c; every other account is unchanged. Only
        a complete loop tombstones c at the bank. */
    method RemoveCurrency(c: Currency) returns (o: Outcome)
      requires Valid()
      modifies this`registry, Repr()
      ensures Valid() && accounts == old(accounts)
      ensures AllInv(old(StatesOf(accounts)))
      ensures !CheckCurrencyExist(old(registry), c) ==>
        && o == Fail(CurrencyNotExist("")) && registry == old(registry)
        && forall j :: 0 <= j < |accounts| ==> accounts[j].State() == old(accounts[j].State())
      ensures CheckCurrencyExist(old(registry), c) && old(registry).main == Some(c) ==>
        && o == Fail(CannotDeleteMainCurrency) && registry == old(registry)
        && forall j :: 0 <= j < |accounts| ==> accounts[j].State() == old(accounts[j].State())
      ensures CheckCurrencyExist(old(registry), c) && old(registry).main != Some(c) ==>
        && o == CascadeAll(old(StatesOf(accounts)), old(View()), c).1
        && (forall j :: 0 <= j < |accounts| ==>
              accounts[j].State() == CascadeAll(old(StatesOf(accounts)), old(View()), c).0[j])
        && registry == (if o.Pass? then Tombstone(old(registry), c) else old(registry))
    {
      ValidStates();
      if !CheckCurrencyExist(registry, c) {
        return Fail(CurrencyNotExist(""));
      }
      if registry.main == Some(c) {
        return Fail(CannotDeleteMainCurrency);
      }
      o := CascadeAndRetire(c);
    }

    /** The part of `removeCurrency` after both checks: the loop, then the
        tombstone when it completed. */
    method CascadeAndRetire(c: Currency) returns (o: Outcome)
      requires Valid() && CheckCurrencyExist(registry, c) && registry.main != Some(c)
      modifies this`registry, Repr()
      ensures Valid() && accounts == old(accounts)
      ensures AllInv(old(StatesOf(accounts)))
      ensures o == CascadeAll(old(StatesOf(accounts)), old(View()), c).1
      ensures forall j :: 0 <= j < |accounts| ==>
        accounts[j].State() == CascadeAll(old(StatesOf(accounts)), old(View()), c).0[j]
      ensures registry == (if o.Pass? then Tombstone(old(registry), c) else old(registry))
    {
      ValidStates();
      ghost var start := StatesOf(accounts);
      ghost var outs := Cascades(start, View(), c);
      CascadesOutcomes(start, View(), c);
      OutsideRepr();
      o := SweepAll(c, View(), start, outs);
      if o.Pass? {
        Retire(c);
      }
    }

    /** The bank's own tombstone for c, once every account has let go of it. */
    method Retire(c: Currency)
      requires Valid() && CheckCurrencyExist(registry, c) && registry.main != Some(c)
      modifies this`registry
      ensures Valid() && registry == Tombstone(old(registry), c)
      ensures forall j :: 0 <= j < |accounts| ==> accounts[j].State() == old(accounts[j].State())
    {
      TombstonePreservesInv(registry, c);
      OutsideRepr();
      registry := Tombstone(registry, c);
    }
  }
}
