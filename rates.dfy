/** The exchange-rate dictionary: directed entries keyed by "FROM/TO",
    reachable only while both currencies are active at the bank. */
module RateTable {
  import opened Errors
  import opened Currencies
  import opened Decimal
  import opened CurrencyTrait

  type Rates = map<string, real>

  const Delimiter: string := "/"

  /** `createRelationKey`: the two names joined by the delimiter. */
  function CreateRelationKey(from: Currency, to: Currency): (k: string)
    ensures |k| == 7 && k[..3] == Name(from) && k[3] == '/' && k[4..] == Name(to)
  {
    Name(from) + Delimiter + Name(to)
  }

  /** Different ordered pairs never share a key. */
  lemma RelationKeyInjective(a: Currency, b: Currency, c: Currency, d: Currency)
    ensures CreateRelationKey(a, b) == CreateRelationKey(c, d) <==> a == c && b == d
  {
    if CreateRelationKey(a, b) == CreateRelationKey(c, d) {
      assert Name(a) == CreateRelationKey(a, b)[..3] == Name(c);
      assert Name(b) == CreateRelationKey(a, b)[4..] == Name(d);
      NameInjective(a, c);
      NameInjective(b, d);
    }
  }

  lemma NameInjective(a: Currency, b: Currency)
    requires Name(a) == Name(b)
    ensures a == b
  {
    assert Name(a)[0] == Name(b)[0];
  }

  /** `checkBankCurrencies`: both endpoints must be active at the bank. */
  function CheckBankCurrencies(bank: Registry, from: Currency, to: Currency): (o: Outcome)
    ensures o.Pass? <==> CheckCurrencyExist(bank, from) && CheckCurrencyExist(bank, to)
    ensures o.Fail? ==> o.error == CurrencyNotExist("")
  {
    if !CheckCurrencyExist(bank, from) || !CheckCurrencyExist(bank, to) then Fail(CurrencyNotExist(""))
    else Pass
  }

  /** The reverse entry that `setRate` stores: 1/rate cut at ten decimals by
      bcdiv, then rounded to six. */
  function InverseRate(rate: real): (r: real)
    requires rate != 0.0
    ensures r == Round6(1.0 / rate)
    ensures HasSixDecimals(r)
    ensures rate > 0.0 ==> r >= 0.0
  {
    Round6AfterTrunc10(1.0 / rate);
    Round6(Trunc10(1.0 / rate))
  }

  /** `setRate`: after the currency check, the forward entry is written;
      bcdiv then throws on a zero rate, leaving the forward entry in place;
      otherwise the reverse entry is written too. */
  function SetRate(bank: Registry, rates: Rates, from: Currency, to: Currency, rate: real): (res: (Rates, Outcome))
    ensures CheckBankCurrencies(bank, from, to).Fail? ==> res == (rates, CheckBankCurrencies(bank, from, to))
    ensures res.1.Pass? <==> CheckBankCurrencies(bank, from, to).Pass? && rate != 0.0
  {
    match CheckBankCurrencies(bank, from, to)
    case Fail(e) => (rates, Fail(e))
    case Pass =>
      var rates1 := rates[CreateRelationKey(from, to) := rate];
      if rate == 0.0 then (rates1, Fail(DivisionByZero))
      else (rates1[CreateRelationKey(to, from) := InverseRate(rate)], Pass)
  }

  /** `getRate`: the entry under the exact ordered key, nothing derived. */
  function GetRate(bank: Registry, rates: Rates, from: Currency, to: Currency): (res: Result<real>)
    ensures !CheckCurrencyExist(bank, from) || !CheckCurrencyExist(bank, to) ==> res == Err(CurrencyNotExist(""))
    ensures CheckCurrencyExist(bank, from) && CheckCurrencyExist(bank, to) ==>
      res == if CreateRelationKey(from, to) in rates then Ok(rates[CreateRelationKey(from, to)])
             else Err(RateCurrencyNotExist)
  {
    match CheckBankCurrencies(bank, from, to)
    case Fail(e) => Err(e)
    case Pass =>
      var key := CreateRelationKey(from, to);
      if key in rates then Ok(rates[key]) else Err(RateCurrencyNotExist)
  }

  /** `convert`'s arithmetic: bcmul at scale 10, then round to two
      decimals. The cut at ten decimals never changes the cent the exact
      product rounds to, so the result is the exact product rounded to cents,
      halves away from zero. */
  function Converted(amount: real, rate: real): (r: real)
    ensures r == Round2(amount * rate)
    ensures HasTwoDecimals(r)
    ensures amount * rate >= 0.0 ==> r >= 0.0
  {
    Round2AfterTrunc10(amount * rate);
    Round2(Trunc10(amount * rate))
  }

  /** The amount `convert` puts into its fresh Funds: the stored rate for
      the exact pair applied to the amount, or the lookup's error. */
  function ConvertAmount(bank: Registry, rates: Rates, from: Currency, to: Currency, amount: real): (res: Result<real>)
    ensures res.Err? <==> GetRate(bank, rates, from, to).Err?
    ensures res.Err? ==> res.error == GetRate(bank, rates, from, to).error
    ensures res.Ok? ==> res.value == Converted(amount, GetRate(bank, rates, from, to).value)
  {
    match GetRate(bank, rates, from, to)
    case Err(e) => Err(e)
    case Ok(rate) => Ok(Converted(amount, rate))
  }

  // ---- properties of the table ---------------------------------------------

  /** Every stored rate is non-negative. */
  ghost predicate NonNegativeRates(rates: Rates)
  {
    forall k :: k in rates ==> rates[k] >= 0.0
  }

  /** A successful `setRate` on two different currencies makes the forward
      lookup return the rate and the reverse lookup its rounded inverse; no
      other key is touched. */
  lemma SetRateWritesBothDirections(bank: Registry, rates: Rates, from: Currency, to: Currency, rate: real)
    requires CheckCurrencyExist(bank, from) && CheckCurrencyExist(bank, to)
    requires from != to && rate != 0.0
    ensures var (rates', o) := SetRate(bank, rates, from, to, rate);
      && o == Pass
      && GetRate(bank, rates', from, to) == Ok(rate)
      && GetRate(bank, rates', to, from) == Ok(InverseRate(rate))
      && rates'.Keys == rates.Keys + {CreateRelationKey(from, to), CreateRelationKey(to, from)}
      && (forall k :: k in rates && k != CreateRelationKey(from, to) && k != CreateRelationKey(to, from) ==>
            rates'[k] == rates[k])
  {
    RelationKeyInjective(from, to, to, from);
  }

  /** `setRate` leaves every key other than its two own ones as it was. */
  lemma KeyUntouched(bank: Registry, rates: Rates, from: Currency, to: Currency, rate: real, a: Currency, b: Currency)
    requires !(a == from && b == to) && !(a == to && b == from)
    ensures var k, rates' := CreateRelationKey(a, b), SetRate(bank, rates, from, to, rate).0;
      && (k in rates' <==> k in rates)
      && (k in rates ==> rates'[k] == rates[k])
  {
    RelationKeyInjective(a, b, from, to);
    RelationKeyInjective(a, b, to, from);
  }

  /** With from == to the second write lands on the same key and wins. */
  lemma SetRateSameCurrency(bank: Registry, rates: Rates, c: Currency, rate: real)
    requires CheckCurrencyExist(bank, c) && rate != 0.0
    ensures SetRate(bank, rates, c, c, rate).1 == Pass
    ensures GetRate(bank, SetRate(bank, rates, c, c, rate).0, c, c) == Ok(InverseRate(rate))
  {
  }

  /** A zero rate is written forward, then the division fails and the
      reverse entry keeps its old value. */
  lemma SetRateZero(bank: Registry, rates: Rates, from: Currency, to: Currency)
    requires CheckCurrencyExist(bank, from) && CheckCurrencyExist(bank, to) && from != to
    ensures var (rates', o) := SetRate(bank, rates, from, to, 0.0);
      && o == Fail(DivisionByZero)
      && GetRate(bank, rates', from, to) == Ok(0.0)
      && GetRate(bank, rates', to, from) == GetRate(bank, rates, to, from)
  {
    RelationKeyInjective(from, to, to, from);
  }

  /** Positive rates keep every stored entry non-negative. */
  lemma SetRateKeepsNonNegative(bank: Registry, rates: Rates, from: Currency, to: Currency, rate: real)
    requires NonNegativeRates(rates) && rate > 0.0
    ensures NonNegativeRates(SetRate(bank, rates, from, to, rate).0)
  {
  }

  /** Converting a non-negative amount over a non-negative table gives a
      non-negative amount. */
  lemma ConvertNonNegative(bank: Registry, rates: Rates, from: Currency, to: Currency, amount: real)
    requires NonNegativeRates(rates) && amount >= 0.0
    ensures ConvertAmount(bank, rates, from, to, amount).Ok? ==> ConvertAmount(bank, rates, from, to, amount).value >= 0.0
  {
    if GetRate(bank, rates, from, to).Ok? {
      var rate := GetRate(bank, rates, from, to).value;
      assert rate >= 0.0;
      assert amount * rate >= 0.0;
    }
  }

  /** Entries of a currency the bank has tombstoned stay stored but every
      lookup through them fails with CurrencyNotExist. */
  lemma TombstonedRatesUnreachable(bank: Registry, rates: Rates, c: Currency, other: Currency)
    ensures GetRate(Tombstone(bank, c), rates, c, other) == Err(CurrencyNotExist(""))
    ensures GetRate(Tombstone(bank, c), rates, other, c) == Err(CurrencyNotExist(""))
  {
  }

  // ---- the scenario of the tests ------------------------------------------

  /** The bank of the tests: RUB, USD and EUR added in that order. */
  function TestBank(): (r: Registry)
    ensures Inv(r)
  {
    Registry([RUB, USD, EUR], map[RUB := true, USD := true, EUR := true], Some(RUB))
  }

  /** The tests' set-up (tests/Traits/Helper.php) adds RUB, USD and EUR to an
      empty bank in that order; each addition succeeds and the result is
      TestBank, with RUB as main because it came first. */
  lemma TestBankBuilt()
    ensures var r1 := AddCurrency(Empty, RUB);
      && r1.Ok?
      && var r2 := AddCurrency(r1.value, USD);
      && r2.Ok?
      && var r3 := AddCurrency(r2.value, EUR);
      && r3.Ok? && r3.value == TestBank()
  {
    var r1 := AddCurrency(Empty, RUB);
    assert r1.value == Registry([RUB], map[RUB := true], Some(RUB));
    var r2 := AddCurrency(r1.value, USD);
    assert r2.value == Registry([RUB, USD], map[RUB := true, USD := true], Some(RUB));
    var r3 := AddCurrency(r2.value, EUR);
    assert r3.value == Registry([RUB, USD, EUR], map[RUB := true, USD := true, EUR := true], Some(RUB));
  }

  function TestRates(): Rates
  {
    var r1 := SetRate(TestBank(), map[], EUR, RUB, 80.0).0;
    var r2 := SetRate(TestBank(), r1, USD, RUB, 70.0).0;
    SetRate(TestBank(), r2, EUR, USD, 1.0).0
  }

  /** With USD removed, the tests' bank lists RUB and EUR. */
  lemma TestBankWithoutUsd()
    ensures WellFormed(Tombstone(TestBank(), USD))
    ensures ListAvailableCurrencies(Tombstone(TestBank(), USD)) == [RUB, EUR]
  {
    var m := map[RUB := true, USD := false, EUR := true];
    assert Tombstone(TestBank(), USD) == Registry([RUB, USD, EUR], m, Some(RUB));
    PutWellFormed(TestBank(), USD, false);
    ActiveRubEur(m);
  }

  lemma ActiveRubEur(m: map<Currency, bool>)
    requires m == map[RUB := true, USD := false, EUR := true]
    ensures ActiveIn([RUB, USD, EUR], m) == [RUB, EUR]
  {
    assert [RUB, USD, EUR][1..] == [USD, EUR];
    assert [USD, EUR][1..] == [EUR];
    assert [EUR][1..] == [];
    assert ActiveIn([EUR], m) == [EUR];
  }

  /** The tests' table answers EUR to RUB with 80 and USD to RUB with 70. */
  lemma TestRatesToRub()
    ensures GetRate(TestBank(), TestRates(), EUR, RUB) == Ok(80.0)
    ensures GetRate(TestBank(), TestRates(), USD, RUB) == Ok(70.0)
  {
    var r1 := SetRate(TestBank(), map[], EUR, RUB, 80.0).0;
    var r2 := SetRate(TestBank(), r1, USD, RUB, 70.0).0;
    SetRateWritesBothDirections(TestBank(), map[], EUR, RUB, 80.0);
    SetRateWritesBothDirections(TestBank(), r1, USD, RUB, 70.0);
    KeyUntouched(TestBank(), r1, USD, RUB, 70.0, EUR, RUB);
    KeyUntouched(TestBank(), r2, EUR, USD, 1.0, EUR, RUB);
    KeyUntouched(TestBank(), r2, EUR, USD, 1.0, USD, RUB);
  }

  /** No identity rate is assumed: RUB to RUB is not stored by the tests' table. */
  lemma NoIdentityLookup()
    ensures GetRate(TestBank(), TestRates(), RUB, RUB) == Err(RateCurrencyNotExist)
  {
    var r1 := SetRate(TestBank(), map[], EUR, RUB, 80.0).0;
    var r2 := SetRate(TestBank(), r1, USD, RUB, 70.0).0;
    KeyUntouched(TestBank(), map[], EUR, RUB, 80.0, RUB, RUB);
    KeyUntouched(TestBank(), r1, USD, RUB, 70.0, RUB, RUB);
    KeyUntouched(TestBank(), r2, EUR, USD, 1.0, RUB, RUB);
  }

  /** No path is searched: with EUR/RUB and RUB/USD stored, EUR to USD fails. */
  lemma NoPathLookup()
    ensures var rates := SetRate(TestBank(), SetRate(TestBank(), map[], EUR, RUB, 80.0).0, RUB, USD, 70.0).0;
      && GetRate(TestBank(), rates, EUR, RUB) == Ok(80.0)
      && GetRate(TestBank(), rates, RUB, USD) == Ok(70.0)
      && GetRate(TestBank(), rates, EUR, USD) == Err(RateCurrencyNotExist)
  {
    var r1 := SetRate(TestBank(), map[], EUR, RUB, 80.0).0;
    SetRateWritesBothDirections(TestBank(), map[], EUR, RUB, 80.0);
    SetRateWritesBothDirections(TestBank(), r1, RUB, USD, 70.0);
    KeyUntouched(TestBank(), r1, RUB, USD, 70.0, EUR, RUB);
    KeyUntouched(TestBank(), map[], EUR, RUB, 80.0, EUR, USD);
    KeyUntouched(TestBank(), r1, RUB, USD, 70.0, EUR, USD);
  }

  /** BankTest: after EUR/RUB is set to 150, 50 EUR convert to 7500 RUB. */
  lemma EditedRateConverts()
    ensures var rates := SetRate(TestBank(), TestRates(), EUR, RUB, 150.0).0;
      ConvertAmount(TestBank(), rates, EUR, RUB, 50.0) == Ok(7500.0)
  {
    SetRateWritesBothDirections(TestBank(), TestRates(), EUR, RUB, 150.0);
    assert Trunc10(7500.0) == 7500.0;
    assert Round2(7500.0) == 7500.0;
  }

  /** The reverse entry of 150 is 0.006667, so 1000 RUB convert to 6.67 EUR. */
  lemma ReverseOfEditedRate()
    ensures InverseRate(150.0) == 0.006667
    ensures var rates := SetRate(TestBank(), TestRates(), EUR, RUB, 150.0).0;
      ConvertAmount(TestBank(), rates, RUB, EUR, 1000.0) == Ok(6.67)
  {
    assert TruncTowardZero(10000000000.0 / 150.0) == 66666666;
    assert Trunc10(1.0 / 150.0) == 0.0066666666;
    assert RoundHalfAwayFromZero(6666.6666) == 6667;
    SetRateWritesBothDirections(TestBank(), TestRates(), EUR, RUB, 150.0);
    assert 1000.0 * 0.006667 == 6.667;
    assert TruncTowardZero(66670000000.0) == 66670000000;
    assert RoundHalfAwayFromZero(666.7) == 667;
  }
}
