/** The currency bookkeeping shared by the bank and by every account: a
    dictionary from currency to an "active" flag, kept in first-insertion key
    order as a PHP array is, and a main-currency slot that starts unset.
    Removal writes `false` into the slot (a tombstone) instead of deleting it. */
module CurrencyTrait {
  import opened Errors
  import opened Currencies

  datatype Option<+T> = None | Some(value: T)

  /** `order` lists the dictionary's keys in the order they were first
      written; `currencies` holds the flag of each key; `main` is the
      main-currency property, None while it is uninitialised. */
  datatype Registry = Registry(order: seq<Currency>, currencies: map<Currency, bool>, main: Option<Currency>)

  const Empty: Registry := Registry([], map[], None)

  /** The keys are listed once each, and exactly the dictionary's keys. */
  ghost predicate WellFormed(r: Registry)
  {
    && (forall i, j :: 0 <= i < j < |r.order| ==> r.order[i] != r.order[j])
    && (forall c :: c in r.currencies <==> c in r.order)
  }

  /** The registry invariant: once a currency has been added the main
      currency is set, and the main currency is always an active one. */
  ghost predicate Inv(r: Registry)
  {
    && WellFormed(r)
    && (r.main.Some? ==> CheckCurrencyExist(r, r.main.value))
    && (|r.order| > 0 ==> r.main.Some?)
  }

  /** The slot of c holds `true`; never-added and tombstoned both read false. */
  predicate CheckCurrencyExist(r: Registry, c: Currency): (b: bool)
    ensures c !in r.currencies ==> !b
    ensures c in r.currencies ==> (b <==> r.currencies[c])
  {
    c in r.currencies && r.currencies[c]
  }

  /** Under the invariant, the main currency is set exactly when some
      currency has ever been added. */
  predicate MainCurrencyIsSet(r: Registry): (b: bool)
    ensures Inv(r) ==> (b <==> |r.order| > 0)
  {
    r.main.Some?
  }

  /** `$currencies[c] = flag`: a new key goes to the end, an existing key
      keeps its position. */
  function Put(r: Registry, c: Currency, flag: bool): (r': Registry)
    ensures r'.main == r.main
    ensures r'.currencies == r.currencies[c := flag]
    ensures c in r.currencies ==> r'.order == r.order
    ensures c !in r.currencies ==> r'.order == r.order + [c]
  {
    Registry(if c in r.currencies then r.order else r.order + [c], r.currencies[c := flag], r.main)
  }

  lemma PutWellFormed(r: Registry, c: Currency, flag: bool)
    requires WellFormed(r)
    ensures WellFormed(Put(r, c, flag))
  {
    var r' := Put(r, c, flag);
    if c !in r.currencies {
      forall i, j | 0 <= i < j < |r'.order| ensures r'.order[i] != r'.order[j] {
        if j == |r.order| {
          assert r'.order[i] == r.order[i];
        }
      }
    }
  }

  /** Trait `setMainCurrency`: only an active currency can become main. */
  function SetMainCurrency(r: Registry, c: Currency): (res: Result<Registry>)
    ensures res.Err? <==> !CheckCurrencyExist(r, c)
    ensures res.Err? ==> res.error == CurrencyNotExist("")
    ensures res.Ok? ==> res.value == r.(main := Some(c))
  {
    if !CheckCurrencyExist(r, c) then Err(CurrencyNotExist(""))
    else Ok(r.(main := Some(c)))
  }

  function CurrencyExistMessage(c: Currency): string
  {
    "The " + Name(c) + " currency has already been added"
  }

  /** Trait `addCurrency`: refuses an active currency; otherwise marks it
      active and, while no main currency is set, makes it the main one. */
  function AddCurrency(r: Registry, c: Currency): (res: Result<Registry>)
    ensures res.Err? <==> CheckCurrencyExist(r, c)
    ensures res.Err? ==> res.error == CurrencyExist(CurrencyExistMessage(c))
    ensures res.Ok? ==> res.value.currencies == r.currencies[c := true]
    ensures res.Ok? ==> res.value.order == Put(r, c, true).order
    ensures res.Ok? ==> res.value.main == if r.main.None? then Some(c) else r.main
  {
    if CheckCurrencyExist(r, c) then Err(CurrencyExist(CurrencyExistMessage(c)))
    else
      var r1 := Put(r, c, true);
      if !MainCurrencyIsSet(r1) then SetMainCurrency(r1, c) else Ok(r1)
  }

  /** Trait `getMainCurrency`. */
  function GetMainCurrency(r: Registry): (res: Result<Currency>)
    ensures res.Err? <==> r.main.None?
    ensures res.Err? ==> res.error == MainCurrencyIsNotSet
    ensures res.Ok? ==> r.main == Some(res.value)
  {
    if !MainCurrencyIsSet(r) then Err(MainCurrencyIsNotSet) else Ok(r.main.value)
  }

  /** `$currencies[c] = false`, the tombstone written by both removals. */
  function Tombstone(r: Registry, c: Currency): (r': Registry)
    ensures !CheckCurrencyExist(r', c)
    ensures forall d :: d != c ==> CheckCurrencyExist(r', d) == CheckCurrencyExist(r, d)
    ensures r'.main == r.main
  {
    Put(r, c, false)
  }

  /** The active keys of `order`, in order. */
  function ActiveIn(order: seq<Currency>, currencies: map<Currency, bool>): (s: seq<Currency>)
    ensures forall c :: c in s <==> c in order && c in currencies && currencies[c]
    ensures |s| <= |order|
  {
    if order == [] then []
    else
      var rest := ActiveIn(order[1..], currencies);
      if order[0] in currencies && currencies[order[0]] then [order[0]] + rest else rest
  }

  /** Trait `listAvailableCurrencies`: `array_keys(array_filter(...))`. */
  function ListAvailableCurrencies(r: Registry): (s: seq<Currency>)
    requires WellFormed(r)
    ensures forall c :: c in s <==> CheckCurrencyExist(r, c)
  {
    ActiveIn(r.order, r.currencies)
  }

  /** s is obtained from t by deleting elements, keeping their order. */
  predicate IsSubsequence(s: seq<Currency>, t: seq<Currency>)
  {
    if s == [] then true
    else if t == [] then false
    else if s[0] == t[0] then IsSubsequence(s[1..], t[1..])
    else IsSubsequence(s, t[1..])
  }

  /** order with every occurrence of c dropped. */
  function Without(s: seq<Currency>, c: Currency): (s': seq<Currency>)
    ensures forall d :: d in s' <==> d in s && d != c
  {
    if s == [] then [] else if s[0] == c then Without(s[1..], c) else [s[0]] + Without(s[1..], c)
  }

  // ---- invariant preservation -------------------------------------------

  lemma EmptyInv()
    ensures Inv(Empty) && ListAvailableCurrencies(Empty) == []
  {
  }

  lemma AddCurrencyPreservesInv(r: Registry, c: Currency)
    requires Inv(r)
    ensures AddCurrency(r, c).Ok? ==> Inv(AddCurrency(r, c).value)
  {
    PutWellFormed(r, c, true);
  }

  lemma SetMainCurrencyPreservesInv(r: Registry, c: Currency)
    requires Inv(r)
    ensures SetMainCurrency(r, c).Ok? ==> Inv(SetMainCurrency(r, c).value)
  {
  }

  /** Both holders refuse to tombstone their main currency; every other
      tombstone keeps the invariant. */
  lemma TombstonePreservesInv(r: Registry, c: Currency)
    requires Inv(r) && CheckCurrencyExist(r, c) && r.main != Some(c)
    ensures Inv(Tombstone(r, c))
  {
    PutWellFormed(r, c, false);
  }

  // ---- listing ------------------------------------------------------------

  lemma {:induction false} ActiveInSubsequence(order: seq<Currency>, currencies: map<Currency, bool>)
    ensures IsSubsequence(ActiveIn(order, currencies), order)
  {
    if order != [] {
      ActiveInSubsequence(order[1..], currencies);
    }
  }

  lemma {:induction false} ActiveInDistinct(order: seq<Currency>, currencies: map<Currency, bool>)
    requires forall i, j :: 0 <= i < j < |order| ==> order[i] != order[j]
    ensures forall i, j :: 0 <= i < j < |ActiveIn(order, currencies)| ==>
      ActiveIn(order, currencies)[i] != ActiveIn(order, currencies)[j]
  {
    if order != [] {
      ActiveInDistinct(order[1..], currencies);
      var rest := ActiveIn(order[1..], currencies);
      assert order[0] !in order[1..];
      assert order[0] !in rest;
      var s := ActiveIn(order, currencies);
      if order[0] in currencies && currencies[order[0]] {
        assert s == [order[0]] + rest;
        forall i, j | 0 <= i < j < |s| ensures s[i] != s[j] {
          if i == 0 {
            assert s[j] == rest[j - 1];
          } else {
            assert s[i] == rest[i - 1] && s[j] == rest[j - 1];
          }
        }
      }
    }
  }

  /** The list holds exactly the active currencies, each once, in the order
      their keys were first written. */
  lemma ListAvailableInKeyOrder(r: Registry)
    requires WellFormed(r)
    ensures var s := ListAvailableCurrencies(r);
      && (forall c :: c in s <==> CheckCurrencyExist(r, c))
      && (forall i, j :: 0 <= i < j < |s| ==> s[i] != s[j])
      && IsSubsequence(s, r.order)
  {
    ActiveInSubsequence(r.order, r.currencies);
    ActiveInDistinct(r.order, r.currencies);
  }

  lemma {:induction false} ActiveInTombstone(order: seq<Currency>, currencies: map<Currency, bool>, c: Currency)
    ensures ActiveIn(order, currencies[c := false]) == Without(ActiveIn(order, currencies), c)
  {
    if order != [] {
      ActiveInTombstone(order[1..], currencies, c);
    }
  }

  lemma {:induction false} WithoutAbsent(s: seq<Currency>, c: Currency)
    requires c !in s
    ensures Without(s, c) == s
  {
    if s != [] {
      WithoutAbsent(s[1..], c);
    }
  }

  /** A tombstone drops exactly c from the list; the others keep their order. */
  lemma TombstoneList(r: Registry, c: Currency)
    requires WellFormed(r)
    ensures WellFormed(Tombstone(r, c))
    ensures ListAvailableCurrencies(Tombstone(r, c)) == Without(ListAvailableCurrencies(r), c)
  {
    PutWellFormed(r, c, false);
    if c in r.currencies {
      ActiveInTombstone(r.order, r.currencies, c);
    } else {
      var s := ActiveIn(r.order, r.currencies);
      assert ActiveIn(r.order + [c], r.currencies[c := false]) == s by {
        ActiveInAppendInactive(r.order, r.currencies, c);
      }
      WithoutAbsent(s, c);
    }
  }

  lemma {:induction false} ActiveInAppendInactive(order: seq<Currency>, currencies: map<Currency, bool>, c: Currency)
    requires c !in order
    ensures ActiveIn(order + [c], currencies[c := false]) == ActiveIn(order, currencies)
  {
    if order == [] {
      assert order + [c] == [c];
      assert [c][1..] == [];
    } else {
      assert (order + [c])[1..] == order[1..] + [c];
      ActiveInAppendInactive(order[1..], currencies, c);
    }
  }

  /** Removing a currency and adding it again restores the registry: the
      tombstoned key keeps its original position. */
  lemma ReAddRestores(r: Registry, c: Currency)
    requires Inv(r) && CheckCurrencyExist(r, c) && r.main != Some(c)
    ensures AddCurrency(Tombstone(r, c), c) == Ok(r)
  {
    assert r.currencies[c := false][c := true] == r.currencies;
  }
}
