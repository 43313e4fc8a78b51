/** Settling invoices: what an invoice's metadata buys, the grant loop of a product, and
    what any series of deliveries of one invoice leaves behind. */
module Settlement {
  import opened AddressTables
  import opened StoreFaults
  import opened Quota
  import opened Tenancy

  /** The reserved key of a product's payload: the grant window in days, not a quota. */
  const EXPIRES_DAYS := "expires_days"

  const KIND_ADDRESS := "address"
  const KIND_PRODUCT := "product"

  // ---- what was bought --------------------------------------------------------

  /** The string-valued metadata of an invoice. */
  type Metadata = map<string, string>

  predicate Present(meta: Metadata, key: string) {
    key in meta && meta[key] != ""
  }

  function SettlementKind(meta: Metadata): string {
    if Present(meta, "kind") then meta["kind"]
    else if Present(meta, "product_id") then KIND_PRODUCT
    else if Present(meta, "username") then KIND_ADDRESS
    else ""
  }

  /** What the webhook does with a settled invoice. A dropped one is acknowledged and
      nothing is handed over for it. */
  datatype Order =
    | AddressOrder(payer: Pubkey, username: string)
    | ProductOrder(payer: Pubkey, product: string)
    | Dropped

  function Dispatch(meta: Metadata): Order {
    if !Present(meta, "pubkey") then Dropped
    else if SettlementKind(meta) == KIND_PRODUCT then
      ProductOrder(meta["pubkey"], if "product_id" in meta then meta["product_id"] else "")
    else if SettlementKind(meta) == KIND_ADDRESS && Present(meta, "username") then
      AddressOrder(meta["pubkey"], meta["username"])
    else Dropped
  }

  /** The metadata the two purchase handlers put on an invoice. Invoices of addresses
      minted before the kind existed lack it. */
  function Minted(order: Order, lightning: Option<string>): Metadata
    requires !order.Dropped?
  {
    match order
    case AddressOrder(payer, username) =>
      var meta := map["kind" := KIND_ADDRESS, "username" := username, "pubkey" := payer];
      if lightning.Some? && lightning.value != "" then meta["lightning_address" := lightning.value] else meta
    case ProductOrder(payer, product) =>
      map["kind" := KIND_PRODUCT, "product_id" := product, "pubkey" := payer]
  }

  const DISPATCH_KEYS := {"kind", "username", "pubkey", "product_id"}

  /** No payment is lost between minting and settlement: an invoice comes back as the very
      order it was minted for, with its kind or, as before kinds existed, without, and
      whatever else the metadata carries. */
  lemma MintedOrderComesBack(order: Order, lightning: Option<string>, extra: Metadata)
    requires !order.Dropped? && order.payer != ""
    requires order.AddressOrder? ==> order.username != ""
    requires order.ProductOrder? ==> order.product != ""
    requires extra.Keys !! DISPATCH_KEYS
    ensures Dispatch(Minted(order, lightning) + extra) == order
    ensures Dispatch(Minted(order, lightning) - {"kind"} + extra) == order
  {
    var meta := Minted(order, lightning);
    KeysDecide(meta, meta + extra);
    KeysDecide(meta - {"kind"}, meta - {"kind"} + extra);
  }

  /** And nothing is settled that was not bought: what is handed over, and to whom, is what
      the metadata names, of the kind it names; metadata of another kind is dropped. */
  lemma OrderIsInMetadata(meta: Metadata)
    ensures var order := Dispatch(meta);
            && (!order.Dropped? ==> "pubkey" in meta && order.payer == meta["pubkey"] != "")
            && (order.AddressOrder? ==>
                  && "username" in meta && order.username == meta["username"] != ""
                  && ("kind" in meta ==> meta["kind"] in {"address", ""}))
            && (order.ProductOrder? ==>
                  && ("product_id" in meta ==> order.product == meta["product_id"])
                  && ("kind" in meta ==> meta["kind"] in {"product", ""}))
  {
  }

  /** Dispatch reads nothing but its own keys. */
  lemma KeysDecide(meta: Metadata, meta': Metadata)
    requires forall key | key in DISPATCH_KEYS ::
               (key in meta <==> key in meta') && (key in meta ==> meta[key] == meta'[key])
    ensures Dispatch(meta') == Dispatch(meta)
  {
    assert "kind" in DISPATCH_KEYS && "username" in DISPATCH_KEYS;
    assert "pubkey" in DISPATCH_KEYS && "product_id" in DISPATCH_KEYS;
  }

  // ---- one delivery -----------------------------------------------------------

  datatype Window = Permanent | Until(at: int) | Unreadable

  /** Days are added as whole days to the day count `now`. */
  function GrantWindow(now: int, quotas: map<string, int>): Window {
    if EXPIRES_DAYS !in quotas then Permanent
    else if quotas[EXPIRES_DAYS] <= 0 then Unreadable
    else Until(now + quotas[EXPIRES_DAYS])
  }

  function Expiry(w: Window): Option<int> {
    if w.Until? then Some(w.at) else None
  }

  datatype Outcome = Granted | AlreadyApplied | Errored

  /** A delivery and the faults it meets: the lookup of earlier grants may fail, the
      product may be unknown or unreadable, and the insert of some types may go wrong. */
  datatype Attempt = Attempt(
    invoice: string, owner: Pubkey, product: Option<map<string, int>>, now: int,
    lookupFails: bool, inserts: map<string, Fault>)

  function FaultOf(a: Attempt, quotaType: string): Fault {
    if quotaType in a.inserts then a.inserts[quotaType] else NoFault
  }

  function Grantable(quotas: map<string, int>): set<string> {
    quotas.Keys - {EXPIRES_DAYS}
  }

  predicate Recorded(grants: seq<Grant>, invoice: string) {
    exists k | 0 <= k < |grants| :: grants[k].ref == invoice
  }

  function GrantOf(a: Attempt, quotaType: string): Grant
    requires a.product.Some? && quotaType in a.product.value
  {
    Grant(a.owner, quotaType, a.product.value[quotaType], "purchase", a.invoice,
          Expiry(GrantWindow(a.now, a.product.value)))
  }

  /** `added` holds one grant for each type in `done`, in any order. */
  predicate GrantsFor(a: Attempt, added: seq<Grant>, done: set<string>)
    requires a.product.Some? && done <= Grantable(a.product.value)
  {
    && (forall k | 0 <= k < |added| :: added[k].quotaType in done && added[k] == GrantOf(a, added[k].quotaType))
    && (forall k, l | 0 <= k < l < |added| :: added[k].quotaType != added[l].quotaType)
    && (forall q | q in done :: Adds(added, q))
  }

  predicate Adds(added: seq<Grant>, q: string) {
    exists k | 0 <= k < |added| :: added[k].quotaType == q
  }

  /** Whether the delivery gets as far as inserting. */
  predicate Inserts(a: Attempt, grants: seq<Grant>) {
    && !a.lookupFails && !Recorded(grants, a.invoice)
    && a.product.Some? && |a.product.value| != 0 && !GrantWindow(a.now, a.product.value).Unreadable?
  }

  /** What a delivery may do; the order of Go's map iteration is arbitrary, so after the
      first failed insert any of the other types may or may not have been granted. */
  ghost predicate Settles(a: Attempt, grants: seq<Grant>, outcome: Outcome, grants': seq<Grant>) {
    if !Inserts(a, grants) then
      && grants' == grants
      && outcome == if !a.lookupFails && Recorded(grants, a.invoice) then AlreadyApplied else Errored
    else exists done: set<string>, added: seq<Grant> :: SettlesBy(a, grants, outcome, grants', done, added)
  }

  /** The insert of q was the first to fail: without effect if q was not granted, else
      with its reply lost. */
  predicate StoppedAt(a: Attempt, done: set<string>, q: string) {
    && FaultOf(a, q) == (if q in done then LostReply else NoEffect)
    && forall r | r in done && r != q :: FaultOf(a, r).NoFault?
  }

  predicate SettlesBy(a: Attempt, grants: seq<Grant>, outcome: Outcome, grants': seq<Grant>,
                      done: set<string>, added: seq<Grant>)
    requires a.product.Some?
  {
    var types := Grantable(a.product.value);
    && done <= types && grants' == grants + added
    && GrantsFor(a, added, done)
    && if outcome.Granted? then done == types != {} && forall q | q in done :: FaultOf(a, q).NoFault?
       else
         && outcome.Errored?
         && (types == {} || exists q | q in types :: StoppedAt(a, done, q))
  }

  class QuotaStore {
    var rows: seq<Row>
    var usage: seq<Usage>
    var grants: seq<Grant>
    var members: set<Member>
    var tenants: set<string>
    var tenantQuotas: map<(string, string), int>
    var overrides: map<(Pubkey, string), int>
    var quotaTypes: map<string, QuotaType>

    function Contents(): Db
      reads this
    {
      Db(rows, usage, grants, members, tenantQuotas, overrides, quotaTypes)
    }

    /** Membership is idempotent, and of existing tenants only; nothing stops a pubkey from
        joining a second one. A new member brings its usage into the pool. */
    method AddTenantMember(tenant: string, p: Pubkey) returns (ok: bool)
      modifies this`members
      ensures ok <==> tenant in tenants
      ensures Contents() == if ok then Tenancy.Apply(old(Contents()), Join(tenant, p)) else old(Contents())
      ensures ok && Member(tenant, p) !in old(members) ==>
                forall q, now | (tenant, q) in tenantQuotas ::
                  Effective(Contents(), Some(tenant), p, q, now).used ==
                  old(AnswerOf(Contents(), Pool(tenant), q, now).used + Individual(Contents(), p, q, now).used)
    {
      if tenant !in tenants {
        return false;
      }
      ghost var before := Contents();
      if Member(tenant, p) !in members {
        members := members + {Member(tenant, p)};
        forall q, now | (tenant, q) in tenantQuotas
          ensures Effective(Contents(), Some(tenant), p, q, now).used ==
                  AnswerOf(before, Pool(tenant), q, now).used + Individual(before, p, q, now).used
        {
          JoiningPool(before, tenant, p, q, now);
        }
      }
      assert members == Tenancy.Apply(before, Join(tenant, p)).members;
      ok := true;
    }

    /** A member that leaves takes its usage out of the pool. */
    method RemoveTenantMember(tenant: string, p: Pubkey)
      modifies this`members
      ensures Contents() == Tenancy.Apply(old(Contents()), Leave(tenant, p))
      ensures Member(tenant, p) in old(members) ==>
                forall q, now | (tenant, q) in tenantQuotas ::
                  AnswerOf(Contents(), Pool(tenant), q, now).used ==
                  old(AnswerOf(Contents(), Pool(tenant), q, now).used - Individual(Contents(), p, q, now).used)
    {
      ghost var before := Contents();
      members := members - {Member(tenant, p)};
      if Member(tenant, p) in before.members {
        assert Tenancy.Apply(Contents(), Join(tenant, p)) == before;
        forall q, now | (tenant, q) in tenantQuotas
          ensures AnswerOf(Contents(), Pool(tenant), q, now).used ==
                  AnswerOf(before, Pool(tenant), q, now).used - Individual(before, p, q, now).used
        {
          JoiningPool(Contents(), tenant, p, q, now);
        }
      }
    }

    /** From here on the pool answers with the new limit, and no other answer changes. */
    method SetTenantQuota(tenant: string, q: string, limit: int) returns (ok: bool)
      modifies this`tenantQuotas
      ensures ok <==> tenant in tenants
      ensures !ok ==> tenantQuotas == old(tenantQuotas)
      ensures ok ==> forall p: Pubkey, now ::
                Effective(Contents(), Some(tenant), p, q, now).limit ==
                if limit == 0 then 0 else limit + Quota.Granted(grants, MembersOf(Contents(), tenant), q, now)
      ensures var before := old(Contents());
              forall found, p: Pubkey, q', now :: found != Some(tenant) || q' != q ==>
                Effective(Contents(), found, p, q', now) == Effective(before, found, p, q', now)
    {
      if tenant !in tenants {
        return false;
      }
      ghost var before := Contents();
      tenantQuotas := tenantQuotas[(tenant, q) := limit];
      forall now {
        SettingQuota(before, tenant, q, limit, now);
      }
      ok := true;
    }

    /** One component changes, by the delta clamped at zero. */
    method RecordServiceUsage(k: Key, delta: int)
      modifies this`usage
      ensures forall k' ::
                Component(usage, k') ==
                if k' == k then Some(Max(0, Bytes(old(usage), k) + delta)) else Component(old(usage), k')
    {
      forall k' {
        RecordComponent(usage, k, delta, k');
      }
      usage := Record(usage, k, delta);
    }

    method AddQuotaGrant(g: Grant, fault: Fault) returns (ok: bool)
      modifies this`grants
      ensures ok <==> fault.NoFault?
      ensures grants == if fault.NoEffect? then old(grants) else old(grants) + [g]
    {
      if !fault.NoEffect? {
        grants := grants + [g];
      }
      ok := fault.NoFault?;
    }

    method SettleProduct(a: Attempt) returns (outcome: Outcome)
      modifies this`grants
      ensures Settles(a, old(grants), outcome, grants)
    {
      if a.lookupFails {
        return Errored;
      }
      if Recorded(grants, a.invoice) {
        return AlreadyApplied;
      }
      if a.product.None? || |a.product.value| == 0 {
        return Errored;
      }
      if GrantWindow(a.now, a.product.value).Unreadable? {
        return Errored;
      }
      ghost var done, added;
      outcome, done, added := GrantTypes(a);
    }

    /** One turn of the loop. */
    method GrantType(a: Attempt, q: string, expires: Option<int>, ghost added: seq<Grant>, ghost done: set<string>)
      returns (ok: bool, ghost added': seq<Grant>, ghost done': set<string>)
      requires a.product.Some? && done <= Grantable(a.product.value) && GrantsFor(a, added, done)
      requires q in Grantable(a.product.value) && q !in done
      requires expires == Expiry(GrantWindow(a.now, a.product.value))
      modifies this`grants
      ensures ok <==> FaultOf(a, q).NoFault?
      ensures done' == if FaultOf(a, q).NoEffect? then done else done + {q}
      ensures added <= added' && grants == old(grants) + added'[|added|..] && GrantsFor(a, added', done')
    {
      var bytes := a.product.value[q];
      ok := AddQuotaGrant(Grant(a.owner, q, bytes, "purchase", a.invoice, expires), FaultOf(a, q));
      added', done' := added, done;
      if !FaultOf(a, q).NoEffect? {
        GrantOneMore(a, added, done, q);
        added', done' := added + [GrantOf(a, q)], done + {q};
      }
    }

    /** The loop over the product's payload. */
    method GrantTypes(a: Attempt) returns (outcome: Outcome, ghost done: set<string>, ghost added: seq<Grant>)
      requires Inserts(a, grants)
      modifies this`grants
      ensures SettlesBy(a, old(grants), outcome, grants, done, added)
    {
      var quotas := a.product.value;
      var expires := Expiry(GrantWindow(a.now, quotas));
      added, done := [], {};
      var todo, granted := quotas.Keys, {};
      while todo != {}
        invariant done == Grantable(quotas) - todo && granted == done
        invariant forall q | q in done :: FaultOf(a, q).NoFault?
        invariant grants == old(grants) + added && GrantsFor(a, added, done)
        decreases todo
      {
        var quotaType :| quotaType in todo;
        if quotaType != EXPIRES_DAYS {
          var ok;
          ok, added, done := GrantType(a, quotaType, expires, added, done);
          if !ok {
            assert StoppedAt(a, done, quotaType);
            return Errored, done, added;
          }
          granted := granted + {quotaType};
        }
        todo := todo - {quotaType};
      }
      outcome := if granted == {} then Errored else Granted;
    }
  }

  lemma GrantOneMore(a: Attempt, added: seq<Grant>, done: set<string>, q: string)
    requires a.product.Some? && done <= Grantable(a.product.value) && GrantsFor(a, added, done)
    requires q in Grantable(a.product.value) && q !in done
    ensures GrantsFor(a, added + [GrantOf(a, q)], done + {q})
  {
    var added' := added + [GrantOf(a, q)];
    forall r | r in done + {q} ensures Adds(added', r) {
      if r in done {
        assert Adds(added, r);
        var k :| 0 <= k < |added| && added[k].quotaType == r;
        assert added'[k].quotaType == r;
      } else {
        assert added'[|added|].quotaType == r;
      }
    }
  }

  // ---- any series of deliveries -----------------------------------------------

  /** The grants of one invoice: no type twice, never the reserved key, one expiry. */
  ghost predicate Tidy(grants: seq<Grant>, invoice: string) {
    && (forall k, l | 0 <= k < l < |grants| && grants[k].ref == invoice && grants[l].ref == invoice ::
          grants[k].quotaType != grants[l].quotaType && grants[k].expires == grants[l].expires)
    && (forall k | 0 <= k < |grants| && grants[k].ref == invoice :: grants[k].quotaType != EXPIRES_DAYS)
  }

  lemma DeliveryKeepsTidy(a: Attempt, grants: seq<Grant>, outcome: Outcome, grants': seq<Grant>, invoice: string)
    requires Tidy(grants, invoice) && Settles(a, grants, outcome, grants')
    ensures Tidy(grants', invoice)
  {
    if Inserts(a, grants) {
      var done: set<string>, added: seq<Grant> :| SettlesBy(a, grants, outcome, grants', done, added);
      if a.invoice == invoice {
        assert forall k | 0 <= k < |grants| :: grants'[k] == grants[k] && grants[k].ref != invoice;
      }
    }
  }

  /** Over any serial deliveries, of this invoice and of others, whatever fails. */
  lemma {:induction false} GrantsStayTidy(attempts: seq<Attempt>, outcomes: seq<Outcome>, states: seq<seq<Grant>>,
                                          invoice: string)
    requires |states| == |attempts| + 1 && |outcomes| == |attempts| && !Recorded(states[0], invoice)
    requires forall i | 0 <= i < |attempts| :: Settles(attempts[i], states[i], outcomes[i], states[i + 1])
    ensures Tidy(states[|attempts|], invoice)
  {
    var n := |attempts| - 1;
    if attempts == [] {
    } else {
      GrantsStayTidy(attempts[..n], outcomes[..n], states[..n + 1], invoice);
      DeliveryKeepsTidy(attempts[n], states[n], outcomes[n], states[n + 1], invoice);
    }
  }

  /** "Granted" is said exactly once the product's non-reserved types, no fewer and no
      others, have been inserted for the invoice, each with its bytes. */
  lemma GrantedIsComplete(a: Attempt, grants: seq<Grant>, grants': seq<Grant>)
    requires Settles(a, grants, Granted, grants')
    ensures a.product.Some? && !Recorded(grants, a.invoice)
    ensures forall q: string ::
              (exists k | 0 <= k < |grants'| :: grants'[k].ref == a.invoice && grants'[k].quotaType == q)
              <==> q in Grantable(a.product.value)
    ensures forall k | 0 <= k < |grants'| && grants'[k].ref == a.invoice ::
              var g, quotas := grants'[k], a.product.value;
              && g.quotaType in quotas && g.bytes == quotas[g.quotaType]
              && g.owner == a.owner && g.source == "purchase"
              && g.expires == if EXPIRES_DAYS in quotas then Some(a.now + quotas[EXPIRES_DAYS]) else None
  {
    var done: set<string>, added: seq<Grant> :| SettlesBy(a, grants, Granted, grants', done, added);
    var n := |grants|;
    assert forall k | 0 <= k < n :: grants'[k] == grants[k];
    assert forall k | n <= k < |grants'| :: grants'[k] == added[k - n];
    forall q: string | q in Grantable(a.product.value)
      ensures exists k | 0 <= k < |grants'| :: grants'[k].ref == a.invoice && grants'[k].quotaType == q
    {
      assert Adds(added, q);
      var k :| 0 <= k < |added| && added[k].quotaType == q;
      assert grants'[n + k].ref == a.invoice && grants'[n + k].quotaType == q;
    }
  }

  /** What was bought is what the quota shows: a granted invoice adds each of its types
      to the buyer's grants exactly once, from now until the window ends. */
  lemma GrantedRaisesQuota(a: Attempt, grants: seq<Grant>, grants': seq<Grant>, q: string, at: int)
    requires Settles(a, grants, Outcome.Granted, grants') && a.product.Some?
    ensures var quotas := a.product.value;
            var live := EXPIRES_DAYS !in quotas || at < a.now + quotas[EXPIRES_DAYS];
            Quota.Granted(grants', {a.owner}, q, at) ==
            Quota.Granted(grants, {a.owner}, q, at) +
            if q in quotas && q != EXPIRES_DAYS && live then quotas[q] else 0
  {
    var done: set<string>, added: seq<Grant> :| SettlesBy(a, grants, Outcome.Granted, grants', done, added);
    GrantedAppend(grants, added, {a.owner}, q, at);
    GrantedOfTypes(a, added, q, at);
    assert q in done ==> Adds(added, q);
  }

  lemma {:induction false} GrantedAppend(grants: seq<Grant>, added: seq<Grant>, owners: set<Pubkey>, q: string, at: int)
    ensures Quota.Granted(grants + added, owners, q, at) ==
            Quota.Granted(grants, owners, q, at) + Quota.Granted(added, owners, q, at)
  {
    if added == [] {
      assert grants + added == grants;
    } else {
      var n := |added| - 1;
      GrantedAppend(grants, added[..n], owners, q, at);
      assert (grants + added)[..|grants + added| - 1] == grants + added[..n];
    }
  }

  lemma {:induction false} GrantedOfTypes(a: Attempt, added: seq<Grant>, q: string, at: int)
    requires a.product.Some?
    requires forall k | 0 <= k < |added| ::
               added[k].quotaType in a.product.value && added[k] == GrantOf(a, added[k].quotaType)
    requires forall k, l | 0 <= k < l < |added| :: added[k].quotaType != added[l].quotaType
    ensures Quota.Granted(added, {a.owner}, q, at) ==
            if Adds(added, q) && Live(GrantOf(a, q), at) then a.product.value[q] else 0
  {
    if added != [] {
      var n := |added| - 1;
      GrantedOfTypes(a, added[..n], q, at);
      assert Adds(added, q) <==> Adds(added[..n], q) || added[n].quotaType == q;
      assert Adds(added[..n], q) ==> added[n].quotaType != q;
    }
  }

  /** No insert of the delivery would go wrong. */
  ghost predicate Faultless(a: Attempt) {
    !a.lookupFails && forall q :: FaultOf(a, q).NoFault?
  }

  /** A product can be settled: it holds a quota that is not the reserved key, and its
      window, if any, is a positive number of days. */
  predicate Grantworthy(product: Option<map<string, int>>) {
    && product.Some?
    && (exists q | q in product.value :: q != EXPIRES_DAYS)
    && (EXPIRES_DAYS in product.value ==> product.value[EXPIRES_DAYS] > 0)
  }

  /** How a fault free delivery ends: it acknowledges an invoice granted before, grants a
      product that can be settled, and errs on any other, to be delivered again. */
  lemma FaultlessOutcome(a: Attempt, grants: seq<Grant>, outcome: Outcome, grants': seq<Grant>)
    requires Settles(a, grants, outcome, grants') && Faultless(a)
    ensures outcome.AlreadyApplied? <==> Recorded(grants, a.invoice)
    ensures outcome.Granted? <==> !Recorded(grants, a.invoice) && Grantworthy(a.product)
    ensures !outcome.Granted? ==> grants' == grants
  {
    if a.product.Some? {
      var quotas := a.product.value;
      forall q | q in Grantable(quotas) ensures q in quotas && q != EXPIRES_DAYS {
      }
      assert Grantable(quotas) != {} <==> exists q | q in quotas :: q != EXPIRES_DAYS by {
        if Grantable(quotas) != {} {
          var q :| q in Grantable(quotas);
          assert q in quotas && q != EXPIRES_DAYS;
        }
        if q :| q in quotas && q != EXPIRES_DAYS {
          assert q in Grantable(quotas);
        }
      }
      if Inserts(a, grants) {
        var done: set<string>, added: seq<Grant> :| SettlesBy(a, grants, outcome, grants', done, added);
        AddedOfNone(a, added, done);
      }
    }
  }

  lemma AddedOfNone(a: Attempt, added: seq<Grant>, done: set<string>)
    requires a.product.Some? && done <= Grantable(a.product.value) && GrantsFor(a, added, done)
    ensures done == {} ==> added == []
  {
    assert |added| > 0 ==> added[0].quotaType in done;
  }

  /** A lookup that fails changes nothing and asks for a redelivery. */
  lemma FailedLookupOutcome(a: Attempt, grants: seq<Grant>, outcome: Outcome, grants': seq<Grant>)
    requires Settles(a, grants, outcome, grants') && a.lookupFails
    ensures outcome.Errored? && grants' == grants
  {
  }

  /** A fault free delivery grants everything exactly when nothing was granted before:
      an attempt cut short after its first insert can never be completed. */
  lemma RedeliveryCompletesIff(a: Attempt, grants: seq<Grant>, outcome: Outcome, grants': seq<Grant>)
    requires Settles(a, grants, outcome, grants')
    requires Faultless(a) && a.product.Some? && Grantable(a.product.value) != {}
    requires !GrantWindow(a.now, a.product.value).Unreadable?
    ensures outcome.Granted? <==> !Recorded(grants, a.invoice)
    ensures Recorded(grants, a.invoice) ==> outcome.AlreadyApplied? && grants' == grants
  {
    assert |a.product.value| != 0 by {
      var q :| q in Grantable(a.product.value);
      assert q in a.product.value;
    }
  }

  /** With two types that does happen: half a product, and every retry acknowledged. */
  lemma HalfGrantedForGood(invoice: string, owner: Pubkey, now: int)
    ensures exists a: Attempt, grants: seq<Grant>, retry: Attempt ::
              && a.invoice == retry.invoice == invoice && a.product == retry.product
              && Settles(a, [], Errored, grants) && |grants| == 1
              && Faultless(retry) && a.product.Some? && |Grantable(a.product.value)| == 2
              && Settles(retry, grants, AlreadyApplied, grants)
  {
    var quotas := map["storage_bytes" := 10, "mail_bytes" := 20];
    var a := Attempt(invoice, owner, Some(quotas), now, false, map["mail_bytes" := NoEffect]);
    var grants := [GrantOf(a, "storage_bytes")];
    assert Grantable(quotas) == {"storage_bytes", "mail_bytes"};
    assert StoppedAt(a, {"storage_bytes"}, "mail_bytes");
    assert [] + grants == grants && Adds(grants, "storage_bytes") by {
      assert grants[0].quotaType == "storage_bytes";
    }
    assert |quotas| != 0 by { assert "storage_bytes" in quotas; }
    assert SettlesBy(a, [], Errored, grants, {"storage_bytes"}, grants);
    var retry := a.(inserts := map[]);
    assert grants[0].ref == invoice;
    assert Settles(retry, grants, AlreadyApplied, grants);
  }

  function Count(grants: seq<Grant>, invoice: string): nat {
    if grants == [] then 0
    else Count(grants[..|grants| - 1], invoice) + if grants[|grants| - 1].ref == invoice then 1 else 0
  }

  lemma {:induction false} NotRecordedCountsZero(grants: seq<Grant>, invoice: string)
    ensures Count(grants, invoice) == 0 <==> !Recorded(grants, invoice)
  {
    if grants != [] {
      NotRecordedCountsZero(grants[..|grants| - 1], invoice);
    }
  }

  /** For a product of a single type an attempt grants once or changes nothing. One that
      errs has granted exactly if it got to the insert and lost the reply. */
  lemma SingleTypeAllOrNothing(a: Attempt, grants: seq<Grant>, outcome: Outcome, grants': seq<Grant>, q: string)
    requires Settles(a, grants, outcome, grants')
    requires a.product.Some? && Grantable(a.product.value) == {q}
    ensures grants' == grants || (Count(grants, a.invoice) == 0 && Count(grants', a.invoice) == 1)
    ensures outcome.Granted? ==> grants' != grants
    ensures outcome.AlreadyApplied? ==> grants' == grants && Recorded(grants, a.invoice)
    ensures outcome.Errored? ==> (grants' != grants <==> Inserts(a, grants) && FaultOf(a, q).LostReply?)
  {
    NotRecordedCountsZero(grants, a.invoice);
    if Inserts(a, grants) {
      var done: set<string>, added: seq<Grant> :| SettlesBy(a, grants, outcome, grants', done, added);
      AddedOfOne(a, added, done, q);
      assert grants'[..|grants|] == grants;
    }
  }

  lemma AddedOfOne(a: Attempt, added: seq<Grant>, done: set<string>, q: string)
    requires a.product.Some? && Grantable(a.product.value) == {q} && done <= {q}
    requires GrantsFor(a, added, done)
    ensures added == if q in done then [GrantOf(a, q)] else []
    ensures done == if q in done then {q} else {}
  {
    assert |added| > 0 ==> added[0].quotaType in done;
    if q in done {
      assert Adds(added, q);
      assert added[0].quotaType == added[|added| - 1].quotaType;
    }
  }

  /** The delivery acknowledged the invoice, or granted something although it failed. */
  predicate Took(outcome: Outcome, grants: seq<Grant>, grants': seq<Grant>) {
    !outcome.Errored? || grants' != grants
  }

  lemma SingleTypeStep(a: Attempt, grants: seq<Grant>, outcome: Outcome, grants': seq<Grant>, q: string)
    requires Settles(a, grants, outcome, grants') && Count(grants, a.invoice) <= 1
    requires a.product.Some? && Grantable(a.product.value) == {q}
    ensures Count(grants', a.invoice) <= 1
    ensures Count(grants', a.invoice) == 1 <==> Count(grants, a.invoice) == 1 || Took(outcome, grants, grants')
  {
    NotRecordedCountsZero(grants, a.invoice);
    SingleTypeAllOrNothing(a, grants, outcome, grants', q);
  }

  /** For single-type products any failed deliveries, lost replies included, followed by an
      acknowledged one leave exactly one grant; before that there is one exactly if some
      failed delivery granted after all. */
  lemma {:induction false} SingleTypeExactlyOne(attempts: seq<Attempt>, outcomes: seq<Outcome>,
                                                states: seq<seq<Grant>>, invoice: string, q: string)
    requires |states| == |attempts| + 1 && |outcomes| == |attempts| && !Recorded(states[0], invoice)
    requires forall i | 0 <= i < |attempts| ::
               && attempts[i].invoice == invoice
               && attempts[i].product.Some? && Grantable(attempts[i].product.value) == {q}
               && Settles(attempts[i], states[i], outcomes[i], states[i + 1])
    ensures Count(states[|attempts|], invoice) <= 1
    ensures Count(states[|attempts|], invoice) == 1 <==>
              exists i | 0 <= i < |attempts| :: Took(outcomes[i], states[i], states[i + 1])
  {
    var n := |attempts| - 1;
    if attempts == [] {
      NotRecordedCountsZero(states[0], invoice);
    } else {
      SingleTypeExactlyOne(attempts[..n], outcomes[..n], states[..n + 1], invoice, q);
      SingleTypeStep(attempts[n], states[n], outcomes[n], states[n + 1], q);
      assert forall i | 0 <= i < n ::
          Took(outcomes[..n][i], states[..n + 1][i], states[..n + 1][i + 1]) ==
          Took(outcomes[i], states[i], states[i + 1]);
    }
  }
}
