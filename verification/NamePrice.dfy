/** What a name costs a particular pubkey, and the one free name per account. */
module NamePrice {
  import opened AddressTables
  import opened Registry

  /** A catalog read: the row's price, no such row, or a failed query. */
  datatype Lookup = Found(price: int) | NotFound | LookupFailed

  const FALLBACK_ADDITIONAL_PRICE := 1000

  datatype NamePrice = NamePrice(sats: int, additional: bool)

  function AdditionalAddressPrice(catalog: Lookup): Option<int> {
    match catalog
    case Found(price) => Some(price)
    case NotFound => Some(FALLBACK_ADDITIONAL_PRICE)
    case LookupFailed => None
  }

  /** `base` is the length tier's price, None if that lookup failed; counting the claimed
      addresses may fail too. The empty pubkey is an anonymous caller. */
  function PriceNameFor(rows: seq<Row>, p: Pubkey, base: Option<int>, countFails: bool, catalog: Lookup)
    : Option<NamePrice>
  {
    if base.None? then None
    else if base.value != 0 || p == "" then Some(NamePrice(base.value, false))
    else if countFails then None
    else if !HasReal(rows, p) then Some(NamePrice(0, false))
    else
      match AdditionalAddressPrice(catalog)
      case Some(additional) => Some(NamePrice(additional, true))
      case None => None
  }

  /** Of the whole registry only whether p has claimed an address enters the price, and
      that only for a name free by length: for any other name, and for a p without one,
      the quote an anonymous caller gets, the price of the length tier, is what p pays. */
  lemma PriceDependsOnClaims(rows: seq<Row>, rows': seq<Row>, p: Pubkey, base: Option<int>, catalog: Lookup)
    ensures HasReal(rows, p) == HasReal(rows', p) ==>
              PriceNameFor(rows, p, base, false, catalog) == PriceNameFor(rows', p, base, false, catalog)
    ensures base != Some(0) || !HasReal(rows, p) ==>
              && PriceNameFor(rows, p, base, false, catalog) == PriceNameFor(rows', "", base, false, catalog)
              && (base.Some? ==> PriceNameFor(rows, p, base, false, catalog) == Some(NamePrice(base.value, false)))
  {
  }

  /** What a name costs, in numbers: its length tier's price; but a name free by length
      costs a pubkey with a claimed address what the catalog says, or 1000 sats where the
      catalog does not say. */
  ghost predicate Costs(rows: seq<Row>, p: Pubkey, base: int, catalog: Lookup, sats: int) {
    if base != 0 then sats == base
    else if p != "" && exists i | 0 <= i < |rows| :: ActiveOf(rows, p, i) && !rows[i].auto
    then (catalog.Found? && sats == catalog.price) || (catalog.NotFound? && sats == 1000)
    else sats == 0
  }

  lemma PriceInNumbers(rows: seq<Row>, p: Pubkey, base: Option<int>, countFails: bool, catalog: Lookup)
    ensures var price := PriceNameFor(rows, p, base, countFails, catalog);
            && (price.Some? ==>
                  && base.Some? && Costs(rows, p, base.value, catalog, price.value.sats)
                  && (price.value.additional <==> base == Some(0) && p != "" && HasReal(rows, p)))
            && (price.None? ==>
                  base.None? || (base == Some(0) && p != "" && (countFails || catalog.LookupFailed?)))
  {
  }

  /** Failures fail closed: whichever lookups fail, the answer is the one without failures
      or none at all, so no failure ever shows as a price of 0; and it is none exactly if
      a lookup the price depends on failed. */
  lemma FailuresNeverChangePrice(rows: seq<Row>, p: Pubkey, base: int, catalog: Lookup,
                                 baseFails: bool, countFails: bool, catalogFails: bool)
    requires !catalog.LookupFailed?
    ensures var found := if baseFails then None else Some(base);
            var answer := PriceNameFor(rows, p, found, countFails, if catalogFails then LookupFailed else catalog);
            var truth := PriceNameFor(rows, p, Some(base), false, catalog);
            && truth.Some? && (answer.Some? ==> answer == truth)
            && (answer.None? <==>
                baseFails || (base == 0 && p != "" && (countFails || (catalogFails && truth.value.additional))))
  {
  }

  // ---- runs of purchases among everything else --------------------------------

  /** A self-serve purchase of a name whose tier costs `base`, or any other step. */
  datatype Step = Buy(owner: Pubkey, name: Name, base: int, countFails: bool, now: int) | Other(op: Op)

  predicate CostsNothing(price: Option<NamePrice>) {
    price.Some? && price.value.sats == 0
  }

  /** A purchase priced at 0 registers at once; a priced one registers, if ever, by an
      `Other` step, once paid for. */
  predicate GotFree(t: Tables, step: Step, catalog: Lookup) {
    && step.Buy?
    && CostsNothing(PriceNameFor(t.rows, step.owner, Some(step.base), step.countFails, catalog))
    && RegisterTx(t, step.name, step.owner, false, step.now).0.Committed?
  }

  function Take(t: Tables, step: Step, catalog: Lookup): Tables {
    match step
    case Buy(owner, name, _, _, now) =>
      if GotFree(t, step, catalog) then RegisterTx(t, name, owner, false, now).1 else t
    case Other(op) => Apply(t, op).1
  }

  function TakeAll(t: Tables, steps: seq<Step>, catalog: Lookup): Tables {
    if steps == [] then t
    else Take(TakeAll(t, steps[..|steps| - 1], catalog), steps[|steps| - 1], catalog)
  }

  function FreeNames(t: Tables, steps: seq<Step>, catalog: Lookup, p: Pubkey): nat {
    if steps == [] then 0
    else
      var init, last := steps[..|steps| - 1], steps[|steps| - 1];
      FreeNames(t, init, catalog, p) +
      if GotFree(TakeAll(t, init, catalog), last, catalog) && last.owner == p then 1 else 0
  }

  /** The step transfers an address of p to somebody else, or revokes one. */
  predicate TakesFrom(t: Tables, op: Op, p: Pubkey) {
    match op
    case Transfer(id, to, _, _) => id < |t.rows| && t.rows[id].owner == p && to != p
    case Revoke(name, _) => Find(t.rows, name).Some? && t.rows[Find(t.rows, name).value].owner == p
    case _ => false
  }

  ghost predicate Keeps(t: Tables, steps: seq<Step>, catalog: Lookup, p: Pubkey) {
    steps == [] ||
    var init, last := steps[..|steps| - 1], steps[|steps| - 1];
    && Keeps(t, init, catalog, p)
    && (last.Other? ==> !TakesFrom(TakeAll(t, init, catalog), last.op, p))
  }

  lemma ApplyKeepsReal(t: Tables, op: Op, p: Pubkey)
    requires HasReal(t.rows, p) && !TakesFrom(t, op, p)
    ensures HasReal(Apply(t, op).1.rows, p)
  {
    var t' := Apply(t, op).1;
    var i :| 0 <= i < |t.rows| && ActiveOf(t.rows, p, i) && !t.rows[i].auto;
    assert ActiveOf(t'.rows, p, i) && !t'.rows[i].auto;
  }

  /** Nothing but a name costing 0 by length goes for 0, and only to a pubkey that
      holds no active claimed name, however many auto-assigned addresses it has. */
  lemma FreeExactlyWhen(t: Tables, step: Step, catalog: Lookup)
    requires step.Buy? && step.owner != ""
    requires AdditionalAddressPrice(catalog).Some? ==> AdditionalAddressPrice(catalog).value != 0
    ensures GotFree(t, step, catalog) <==>
            && step.base == 0 && !step.countFails && !HasReal(t.rows, step.owner)
            && RegisterTx(t, step.name, step.owner, false, step.now).0.Committed?
    ensures GotFree(t, step, catalog) ==> HasReal(Take(t, step, catalog).rows, step.owner)
  {
    if GotFree(t, step, catalog) {
      var t' := Take(t, step, catalog);
      assert ActiveOf(t'.rows, step.owner, |t.rows|) && !t'.rows[|t.rows|].auto;
    }
  }

  /** One free name: a pubkey none of whose addresses is transferred away or revoked
      gets at most one name for 0 sats in any serial run. */
  lemma {:induction false} OneFreeName(t: Tables, steps: seq<Step>, catalog: Lookup, p: Pubkey)
    requires p != "" && Keeps(t, steps, catalog, p)
    requires AdditionalAddressPrice(catalog).Some? ==> AdditionalAddressPrice(catalog).value != 0
    ensures FreeNames(t, steps, catalog, p) <= 1
    ensures FreeNames(t, steps, catalog, p) == 1 ==> HasReal(TakeAll(t, steps, catalog).rows, p)
  {
    if steps == [] {
    } else {
      var init, last := steps[..|steps| - 1], steps[|steps| - 1];
      OneFreeName(t, init, catalog, p);
      var before := TakeAll(t, init, catalog);
      match last
      case Buy(owner, name, _, _, now) =>
        if owner == p {
          FreeExactlyWhen(before, last, catalog);
        } else if HasReal(before.rows, p) {
          ApplyKeepsReal(before, Register(name, owner, false, now), p);
        }
      case Other(op) =>
        if HasReal(before.rows, p) {
          ApplyKeepsReal(before, op, p);
        }
    }
  }

  /** The catalog may price the additional name at 0, and then nothing limits the
      free names: the purchase is free whatever the pubkey holds. */
  lemma FreeCatalogHasNoLimit(t: Tables, step: Step)
    requires step.Buy? && step.base == 0 && !step.countFails
    ensures GotFree(t, step, Found(0)) <==> RegisterTx(t, step.name, step.owner, false, step.now).0.Committed?
  {
  }

  // ---- purchases that interleave ----------------------------------------------

  /** A purchase of a name free by length: priced when `pricedAt` of the operations had
      run, and registered by operation `registeredAt`. */
  datatype Sale = Sale(name: Name, pricedAt: nat, registeredAt: nat)

  predicate Sold(t: Tables, ops: seq<Op>, p: Pubkey, sale: Sale) {
    && sale.pricedAt <= sale.registeredAt < |ops|
    && var op := ops[sale.registeredAt];
       op.Register? && op.name == sale.name && op.owner == p && !op.auto
       && Apply(After(t, ops[..sale.registeredAt]), op).0.Committed?
  }

  predicate SoldFree(t: Tables, ops: seq<Op>, p: Pubkey, sale: Sale, catalog: Lookup)
    requires sale.pricedAt <= |ops|
  {
    CostsNothing(PriceNameFor(After(t, ops[..sale.pricedAt]).rows, p, Some(0), false, catalog))
  }

  predicate NothingTaken(t: Tables, ops: seq<Op>, p: Pubkey) {
    forall k | 0 <= k < |ops| :: !TakesFrom(After(t, ops[..k]), ops[k], p)
  }

  /** Whether p held a claimed address once `n` operations had run. */
  predicate RealAt(t: Tables, ops: seq<Op>, p: Pubkey, n: nat)
    requires n <= |ops|
  {
    HasReal(After(t, ops[..n]).rows, p)
  }

  lemma RealStep(t: Tables, ops: seq<Op>, p: Pubkey, j: nat)
    requires j < |ops| && NothingTaken(t, ops, p) && RealAt(t, ops, p, j)
    ensures RealAt(t, ops, p, j + 1)
  {
    assert ops[..j + 1][..j] == ops[..j];
    ApplyKeepsReal(After(t, ops[..j]), ops[j], p);
  }

  lemma {:induction false} RealPersists(t: Tables, ops: seq<Op>, p: Pubkey, i: nat, j: nat)
    requires i <= j <= |ops| && NothingTaken(t, ops, p) && RealAt(t, ops, p, i)
    ensures RealAt(t, ops, p, j)
  {
    if i == j {
    } else {
      RealPersists(t, ops, p, i, j - 1);
      RealStep(t, ops, p, j - 1);
    }
  }

  lemma SaleMakesReal(t: Tables, ops: seq<Op>, p: Pubkey, sale: Sale)
    requires Sold(t, ops, p, sale)
    ensures RealAt(t, ops, p, sale.registeredAt + 1)
  {
    var j := sale.registeredAt;
    var before := After(t, ops[..j]);
    assert ops[..j + 1][..j] == ops[..j];
    var after := Apply(before, ops[j]).1;
    assert ActiveOf(after.rows, p, |before.rows|) && !after.rows[|before.rows|].auto;
  }

  lemma RealStays(t: Tables, ops: seq<Op>, p: Pubkey, i: nat, j: nat)
    requires i <= |ops| && j <= |ops| && NothingTaken(t, ops, p)
    ensures i <= j && RealAt(t, ops, p, i) ==> RealAt(t, ops, p, j)
  {
    if i <= j && RealAt(t, ops, p, i) {
      RealPersists(t, ops, p, i, j);
    }
  }

  lemma SoldFreeIff(t: Tables, ops: seq<Op>, p: Pubkey, sale: Sale, catalog: Lookup)
    requires p != "" && sale.pricedAt <= |ops|
    requires AdditionalAddressPrice(catalog).Some? ==> AdditionalAddressPrice(catalog).value != 0
    ensures SoldFree(t, ops, p, sale, catalog) <==> !RealAt(t, ops, p, sale.pricedAt)
  {
  }

  /** Two concurrent purchases can both be free. Exactly: the later one was priced before
      the earlier one was registered, and p held no claimed address when either was. */
  lemma TwoFreeNamesIff(t: Tables, ops: seq<Op>, p: Pubkey, a: Sale, b: Sale, catalog: Lookup)
    requires p != "" && Sold(t, ops, p, a) && Sold(t, ops, p, b) && a.registeredAt < b.registeredAt
    requires NothingTaken(t, ops, p)
    requires AdditionalAddressPrice(catalog).Some? ==> AdditionalAddressPrice(catalog).value != 0
    ensures SoldFree(t, ops, p, a, catalog) && SoldFree(t, ops, p, b, catalog) <==>
            && b.pricedAt <= a.registeredAt
            && !RealAt(t, ops, p, if a.pricedAt < b.pricedAt then b.pricedAt else a.pricedAt)
  {
    SaleMakesReal(t, ops, p, a);
    SoldFreeIff(t, ops, p, a, catalog);
    SoldFreeIff(t, ops, p, b, catalog);
    RealStays(t, ops, p, a.registeredAt + 1, b.pricedAt);
    RealStays(t, ops, p, a.pricedAt, b.pricedAt);
    RealStays(t, ops, p, b.pricedAt, a.pricedAt);
  }
}
