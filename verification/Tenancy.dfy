/** Quotas pooled over the members of a tenant: what a pool answers, what joining and
    leaving change, and when checked additions keep a pool within its limit. */
module Tenancy {
  import opened AddressTables
  import opened Quota

  // ---- effective_quota --------------------------------------------------------

  /** What the lookup of p's tenant may answer: any one of p's tenants, as the primary key
      admits several, and none exactly if p has none. */
  predicate Finds(db: Db, p: Pubkey, found: Option<string>) {
    match found
    case Some(tenant) => Member(tenant, p) in db.members
    case None => forall m | m in db.members :: m.owner != p
  }

  function MembersOf(db: Db, tenant: string): set<Pubkey> {
    set m | m in db.members && m.tenant == tenant :: m.owner
  }

  /** Whose usage and grants count: a tenant's members together, or a pubkey alone. */
  datatype Scope = Pool(tenant: string) | Own(owner: Pubkey)

  function ScopeOf(db: Db, found: Option<string>, p: Pubkey, q: string): Scope {
    if found.Some? && (found.value, q) in db.tenantQuotas then Pool(found.value) else Own(p)
  }

  function Sharers(db: Db, scope: Scope): set<Pubkey> {
    match scope
    case Pool(tenant) => MembersOf(db, tenant)
    case Own(p) => {p}
  }

  function LimitOf(db: Db, scope: Scope, q: string): int
    requires scope.Pool? ==> (scope.tenant, q) in db.tenantQuotas
  {
    match scope
    case Pool(tenant) => db.tenantQuotas[(tenant, q)]
    case Own(p) => BaseLimit(db, p, q)
  }

  function AnswerOf(db: Db, scope: Scope, q: string, now: int): Answer
    requires scope.Pool? ==> (scope.tenant, q) in db.tenantQuotas
  {
    var owners := Sharers(db, scope);
    Resolve(LimitOf(db, scope, q), Granted(db.grants, owners, q, now), Used(db.usage, owners, q))
  }

  /** The function of migration 010, given what its lookup found. */
  function Effective(db: Db, found: Option<string>, p: Pubkey, q: string, now: int): Answer {
    AnswerOf(db, ScopeOf(db, found, p, q), q, now)
  }

  predicate CheckQuota(db: Db, found: Option<string>, p: Pubkey, q: string, additional: int, now: int) {
    var e := Effective(db, found, p, q, now);
    e.limit == 0 || e.used + Max(0, additional) <= e.limit
  }

  // ---- pools are sums ---------------------------------------------------------

  function UseSum(db: Db, members: seq<Pubkey>, q: string, now: int): int {
    if members == [] then 0
    else UseSum(db, members[..|members| - 1], q, now) + Individual(db, members[|members| - 1], q, now).used
  }

  function GrantSum(db: Db, members: seq<Pubkey>, q: string, now: int): int {
    if members == [] then 0
    else GrantSum(db, members[..|members| - 1], q, now) + Granted(db.grants, {members[|members| - 1]}, q, now)
  }

  lemma {:induction false} SumsOverSet(db: Db, members: seq<Pubkey>, q: string, now: int)
    requires forall i, j | 0 <= i < j < |members| :: members[i] != members[j]
    ensures var owners := set m | m in members;
            Used(db.usage, owners, q) == UseSum(db, members, q, now)
            && Granted(db.grants, owners, q, now) == GrantSum(db, members, q, now)
  {
    var owners := set m | m in members;
    if members == [] {
      assert owners == {};
      NobodyUses(db.usage, db.grants, q, now);
    } else {
      var init, last := members[..|members| - 1], members[|members| - 1];
      var before := set m | m in init;
      SumsOverSet(db, init, q, now);
      assert owners == before + {last} && last !in before;
      UsedSplits(db.usage, before, {last}, q);
      GrantedSplits(db.grants, before, {last}, q, now);
    }
  }

  /** Every pubkey whose lookup finds the tenant gets the same answer: its usage is the sum
      of what the members use by themselves, and its limit, unless unlimited, the tenant's
      plus the sum of their unexpired grants. */
  lemma PoolIsSumOverMembers(db: Db, tenant: string, p: Pubkey, q: string, now: int, members: seq<Pubkey>)
    requires (tenant, q) in db.tenantQuotas
    requires forall i, j | 0 <= i < j < |members| :: members[i] != members[j]
    requires forall m :: m in members <==> Member(tenant, m) in db.members
    ensures Effective(db, Some(tenant), p, q, now) ==
            Resolve(db.tenantQuotas[(tenant, q)], GrantSum(db, members, q, now), UseSum(db, members, q, now))
  {
    SumsOverSet(db, members, q, now);
    assert MembersOf(db, tenant) == set m | m in members;
  }

  /** A pubkey alone, and one whose tenant has no quota row for the type, gets the answer
      of migration 007. */
  lemma OwnIsIndividual(db: Db, found: Option<string>, p: Pubkey, q: string, now: int)
    requires found.Some? ==> (found.value, q) !in db.tenantQuotas
    ensures Effective(db, found, p, q, now) == Individual(db, p, q, now)
  {
  }

  // ---- joining and leaving ----------------------------------------------------

  datatype Change = Join(tenant: string, owner: Pubkey) | Leave(tenant: string, owner: Pubkey)

  function Apply(db: Db, c: Change): Db {
    match c
    case Join(tenant, p) => db.(members := db.members + {Member(tenant, p)})
    case Leave(tenant, p) => db.(members := db.members - {Member(tenant, p)})
  }

  /** A pubkey joining a tenant it is not in adds exactly its own usage and its unexpired
      grants to the pool; leaving restores the tables. */
  lemma JoiningPool(db: Db, tenant: string, p: Pubkey, q: string, now: int)
    requires Member(tenant, p) !in db.members && (tenant, q) in db.tenantQuotas
    ensures var db' := Apply(db, Join(tenant, p));
            var e, e' := AnswerOf(db, Pool(tenant), q, now), AnswerOf(db', Pool(tenant), q, now);
            && e'.used == e.used + Individual(db, p, q, now).used
            && e'.limit == (if db.tenantQuotas[(tenant, q)] == 0 then 0
                            else e.limit + Granted(db.grants, {p}, q, now))
            && Finds(db', p, Some(tenant))
            && Apply(db', Leave(tenant, p)) == db
  {
    var db' := Apply(db, Join(tenant, p));
    assert Apply(db', Leave(tenant, p)).members == db.members;
    assert MembersOf(db', tenant) == MembersOf(db, tenant) + {p} by {
      assert Member(tenant, p) in db'.members;
    }
    assert p !in MembersOf(db, tenant);
    UsedSplits(db.usage, MembersOf(db, tenant), {p}, q);
    GrantedSplits(db.grants, MembersOf(db, tenant), {p}, q, now);
  }

  /** A change of one tenant's members leaves the lookup of every other pubkey as it was,
      and the answer of every scope but that tenant's pool. */
  lemma OthersUnaffected(db: Db, c: Change, o: Pubkey, found: Option<string>, q: string, now: int)
    ensures o != c.owner ==> (Finds(Apply(db, c), o, found) <==> Finds(db, o, found))
    ensures found != Some(c.tenant) || (c.tenant, q) !in db.tenantQuotas ==>
              Effective(Apply(db, c), found, o, q, now) == Effective(db, found, o, q, now)
  {
    var db' := Apply(db, c);
    if found.None? && o != c.owner {
      assert forall m: Member | m.owner == o :: m in db'.members <==> m in db.members;
    }
    if found.Some? && found.value != c.tenant {
      assert MembersOf(db', found.value) == MembersOf(db, found.value);
    }
  }

  /** A pubkey removed from a tenant gets its individual answer for good, whatever the
      lookup finds, if and only if none of its other tenants has a quota for the type. */
  lemma RemovedFallsBackIff(db: Db, tenant: string, p: Pubkey, q: string)
    ensures var db' := Apply(db, Leave(tenant, p));
            (forall found | Finds(db', p, found) :: ScopeOf(db', found, p, q) == Own(p)) <==>
            (forall m | m in db.members && m.owner == p && m.tenant != tenant :: (m.tenant, q) !in db.tenantQuotas)
    ensures var db' := Apply(db, Leave(tenant, p));
            forall found, now | ScopeOf(db', found, p, q) == Own(p) ::
              Effective(db', found, p, q, now) == Individual(db, p, q, now)
  {
    var db' := Apply(db, Leave(tenant, p));
    forall m | m in db.members && m.owner == p && m.tenant != tenant
      ensures Finds(db', p, Some(m.tenant))
    {
      assert m == Member(m.tenant, p);
    }
    assert forall m | m in db.members && m.owner == p && m.tenant != tenant ::
        ScopeOf(db', Some(m.tenant), p, q) == Own(p) <==> (m.tenant, q) !in db.tenantQuotas;
  }

  /** Setting a tenant's quota sets the limit of every answer that finds the tenant, from
      unlimited at 0 up, and moves no usage and no other pool. */
  lemma SettingQuota(db: Db, tenant: string, q: string, limit: int, now: int)
    ensures var db' := db.(tenantQuotas := db.tenantQuotas[(tenant, q) := limit]);
            var owners := MembersOf(db, tenant);
            && (forall p: Pubkey ::
                  && Effective(db', Some(tenant), p, q, now).used == Used(db.usage, owners, q)
                  && Effective(db', Some(tenant), p, q, now).limit ==
                     if limit == 0 then 0 else limit + Granted(db.grants, owners, q, now))
            && (forall found, p: Pubkey, q' :: found != Some(tenant) || q' != q ==>
                  Effective(db', found, p, q', now) == Effective(db, found, p, q', now))
  {
    var db' := db.(tenantQuotas := db.tenantQuotas[(tenant, q) := limit]);
    assert forall t :: MembersOf(db', t) == MembersOf(db, t);
    assert forall p: Pubkey, q' :: BaseLimit(db', p, q') == BaseLimit(db, p, q');
  }

  // ---- admission --------------------------------------------------------------

  /** check_quota and `remaining` agree except for an unlimited quota asked for more,
      and for an overdrawn one asked for nothing. */
  lemma CheckAgreesWithRemainingIff(db: Db, found: Option<string>, p: Pubkey, q: string, additional: int, now: int)
    ensures var e := Effective(db, found, p, q, now);
            (CheckQuota(db, found, p, q, additional, now) <==> Max(0, additional) <= e.remaining)
            <==>
            if e.limit == 0 then additional <= 0 else e.used <= e.limit || additional > 0
    ensures var e := Effective(db, found, p, q, now);
            e.limit != 0 && e.used <= e.limit ==>
            (CheckQuota(db, found, p, q, additional, now) <==> Max(0, additional) <= e.remaining)
  {
  }

  predicate Within(db: Db, scope: Scope, q: string, now: int)
    requires scope.Pool? ==> (scope.tenant, q) in db.tenantQuotas
  {
    var e := AnswerOf(db, scope, q, now);
    e.limit == 0 || e.used <= e.limit
  }

  /** A change of usage, and the tenant the check's lookup found. */
  datatype Request = Request(delta: Delta, found: Option<string>)

  predicate Possible(db: Db, r: Request) {
    Finds(db, r.delta.key.owner, r.found)
  }

  /** A service adds usage only after check_quota passed, and releases it freely. */
  function Admit(db: Db, r: Request, now: int): Db {
    var d := r.delta;
    if d.bytes > 0 && !CheckQuota(db, r.found, d.key.owner, d.key.quotaType, d.bytes, now) then db
    else db.(usage := Record(db.usage, d.key, d.bytes))
  }

  function AdmitAll(db: Db, requests: seq<Request>, now: int): Db {
    if requests == [] then db
    else Admit(AdmitAll(db, requests[..|requests| - 1], now), requests[|requests| - 1], now)
  }

  /** Whoever counts against the scope can only be checked against it. */
  ghost predicate Exclusive(db: Db, scope: Scope, q: string) {
    forall o, found | o in Sharers(db, scope) && Finds(db, o, found) :: ScopeOf(db, found, o, q) == scope
  }

  /** For a pool that means: no member is in another tenant. */
  lemma ExclusivePoolIff(db: Db, tenant: string, q: string)
    requires (tenant, q) in db.tenantQuotas
    ensures Exclusive(db, Pool(tenant), q) <==>
            forall m, n | m in db.members && n in db.members && m.tenant == tenant && n.owner == m.owner ::
              n.tenant == tenant
  {
    if forall m, n | m in db.members && n in db.members && m.tenant == tenant && n.owner == m.owner ::
        n.tenant == tenant
    {
      forall o, found | o in MembersOf(db, tenant) && Finds(db, o, found)
        ensures ScopeOf(db, found, o, q) == Pool(tenant)
      {
        assert Member(tenant, o) in db.members;
        assert found.Some? ==> Member(found.value, o) in db.members;
      }
    }
    if Exclusive(db, Pool(tenant), q) {
      forall m, n | m in db.members && n in db.members && m.tenant == tenant && n.owner == m.owner
        ensures n.tenant == tenant
      {
        assert m.owner in MembersOf(db, tenant) && n == Member(n.tenant, m.owner);
        assert Finds(db, m.owner, Some(n.tenant));
      }
    }
  }

  lemma AdmitKeepsWithin(db: Db, r: Request, scope: Scope, q: string, now: int)
    requires scope.Pool? ==> (scope.tenant, q) in db.tenantQuotas
    requires Exclusive(db, scope, q) && Possible(db, r) && NonNegative(db.usage) && Within(db, scope, q, now)
    ensures NonNegative(Admit(db, r, now).usage) && Within(Admit(db, r, now), scope, q, now)
  {
    var d, db' := r.delta, Admit(db, r, now);
    if db' != db {
      var owners := Sharers(db, scope);
      RecordKeepsNonNegative(db.usage, d.key, d.bytes);
      RecordUsed(db.usage, d.key, d.bytes, owners, q);
      assert Sharers(db', scope) == owners && LimitOf(db', scope, q) == LimitOf(db, scope, q);
    }
  }

  /** However members, outsiders, services and releases mix, a pool none of whose members
      is in another tenant, or a pubkey in no pool, never exceeds its limit. */
  lemma {:induction false} PoolsNeverExceed(db: Db, requests: seq<Request>, scope: Scope, q: string, now: int)
    requires scope.Pool? ==> (scope.tenant, q) in db.tenantQuotas
    requires Exclusive(db, scope, q) && NonNegative(db.usage) && Within(db, scope, q, now)
    requires forall k | 0 <= k < |requests| :: Possible(db, requests[k])
    ensures var db' := AdmitAll(db, requests, now);
            && db' == db.(usage := db'.usage) && NonNegative(db'.usage) && Within(db', scope, q, now)
            && AnswerOf(db', scope, q, now).limit == AnswerOf(db, scope, q, now).limit
  {
    if requests == [] {
    } else {
      var init, last := requests[..|requests| - 1], requests[|requests| - 1];
      PoolsNeverExceed(db, init, scope, q, now);
      var mid := AdmitAll(db, init, now);
      assert Exclusive(mid, scope, q) by { SameMembersSameScopes(db, mid, scope, q); }
      assert Possible(mid, last);
      AdmitKeepsWithin(mid, last, scope, q, now);
      assert Sharers(AdmitAll(db, requests, now), scope) == Sharers(db, scope);
    }
  }

  lemma SameMembersSameScopes(db: Db, db': Db, scope: Scope, q: string)
    requires db'.members == db.members && db'.tenantQuotas.Keys == db.tenantQuotas.Keys
    ensures Sharers(db', scope) == Sharers(db, scope)
    ensures Exclusive(db', scope, q) <==> Exclusive(db, scope, q)
  {
    assert forall o, found :: Finds(db', o, found) <==> Finds(db, o, found);
    assert forall o, found :: ScopeOf(db', found, o, q) == ScopeOf(db, found, o, q);
  }

  /** Whatever the limits, usage and grants, an admitted request keeps the scope within
      its limit. Only who is a member, and which pools exist, is fixed. */
  ghost predicate Safe(db: Db, scope: Scope, q: string)
    requires scope.Pool? ==> (scope.tenant, q) in db.tenantQuotas
  {
    forall db': Db, r: Request, now: int |
      && db'.members == db.members && db'.tenantQuotas.Keys == db.tenantQuotas.Keys
      && NonNegative(db'.usage) && Possible(db', r) && Within(db', scope, q, now) ::
      Within(Admit(db', r, now), scope, q, now)
  }

  /** The limit of a scope as an administrator would set it. */
  function SetLimit(db: Db, scope: Scope, q: string, limit: int): Db {
    match scope
    case Pool(tenant) => db.(tenantQuotas := db.tenantQuotas[(tenant, q) := limit])
    case Own(p) => db.(overrides := db.overrides[(p, q) := limit])
  }

  /** A pubkey counted in one scope and checked against another, unlimited one overruns
      the first at once. */
  lemma ElsewhereCheckedOverruns(db: Db, scope: Scope, q: string, o: Pubkey, found: Option<string>, now: int)
    returns (db': Db, r: Request)
    requires scope.Pool? ==> (scope.tenant, q) in db.tenantQuotas
    requires o in Sharers(db, scope) && Finds(db, o, found) && ScopeOf(db, found, o, q) != scope
    ensures db'.members == db.members && db'.tenantQuotas.Keys == db.tenantQuotas.Keys
    ensures NonNegative(db'.usage) && Possible(db', r) && Within(db', scope, q, now)
    ensures r.delta.key.owner == o && r.found == found
    ensures !Within(Admit(db', r, now), scope, q, now)
  {
    var other := ScopeOf(db, found, o, q);
    db' := SetLimit(SetLimit(db.(usage := [], grants := []), scope, q, 1), other, q, 0);
    r := Request(Delta(Key(o, q, "any"), 2), found);
    assert db'.tenantQuotas.Keys == db.tenantQuotas.Keys;
    assert Sharers(db', scope) == Sharers(db, scope);
    assert ScopeOf(db', found, o, q) == other;
    assert LimitOf(db', scope, q) == 1 && LimitOf(db', other, q) == 0;
    var after := Admit(db', r, now);
    assert after.usage == [Usage(r.delta.key, 2)];
    assert Sharers(after, scope) == Sharers(db, scope);
    assert after.usage[..0] == [];
    assert Used(after.usage, Sharers(db, scope), q) == 2;
  }

  /** Exactly the memberships under which checked additions are safe. The primary key
      does not enforce them: a member of a second tenant can overrun the first. */
  lemma AdmissionIsSafeIff(db: Db, scope: Scope, q: string)
    requires scope.Pool? ==> (scope.tenant, q) in db.tenantQuotas
    ensures Safe(db, scope, q) <==> Exclusive(db, scope, q)
  {
    if Exclusive(db, scope, q) {
      forall db': Db, r: Request, now: int |
        && db'.members == db.members && db'.tenantQuotas.Keys == db.tenantQuotas.Keys
        && NonNegative(db'.usage) && Possible(db', r) && Within(db', scope, q, now)
        ensures Within(Admit(db', r, now), scope, q, now)
      {
        SameMembersSameScopes(db, db', scope, q);
        AdmitKeepsWithin(db', r, scope, q, now);
      }
    } else {
      var o, found :| o in Sharers(db, scope) && Finds(db, o, found) && ScopeOf(db, found, o, q) != scope;
      var db', r := ElsewhereCheckedOverruns(db, scope, q, o, found, 0);
    }
  }

  // ---- one tenant per pubkey --------------------------------------------------

  /** No pubkey is in two tenants. */
  ghost predicate SingleTenant(db: Db) {
    forall m, n | m in db.members && n in db.members && m.owner == n.owner :: m == n
  }

  /** What a caller of AddTenantMember would have to check: the pubkey is in no other tenant. */
  predicate Guarded(db: Db, c: Change) {
    c.Join? ==> forall m | m in db.members && m.owner == c.owner :: m.tenant == c.tenant
  }

  lemma ChangeKeepsSingleIff(db: Db, c: Change)
    requires SingleTenant(db)
    ensures SingleTenant(Apply(db, c)) <==> Guarded(db, c)
  {
    if c.Join? && SingleTenant(Apply(db, c)) {
      forall m | m in db.members && m.owner == c.owner ensures m.tenant == c.tenant {
        assert m in Apply(db, c).members && Member(c.tenant, c.owner) in Apply(db, c).members;
      }
    }
  }

  function ApplyAll(db: Db, changes: seq<Change>): Db {
    if changes == [] then db
    else Apply(ApplyAll(db, changes[..|changes| - 1]), changes[|changes| - 1])
  }

  predicate GuardedAt(db: Db, changes: seq<Change>, k: nat)
    requires k < |changes|
  {
    Guarded(ApplyAll(db, changes[..k]), changes[k])
  }

  ghost predicate SingleAt(db: Db, changes: seq<Change>, k: nat)
    requires k <= |changes|
  {
    SingleTenant(ApplyAll(db, changes[..k]))
  }

  lemma {:induction false} GuardedStaysSingle(db: Db, changes: seq<Change>, n: nat)
    requires SingleTenant(db) && n <= |changes|
    requires forall k | 0 <= k < n :: GuardedAt(db, changes, k)
    ensures SingleAt(db, changes, n)
  {
    if n == 0 {
      assert changes[..0] == [];
    } else {
      GuardedStaysSingle(db, changes, n - 1);
      assert changes[..n][..n - 1] == changes[..n - 1];
      ChangeKeepsSingleIff(ApplyAll(db, changes[..n - 1]), changes[n - 1]);
      assert GuardedAt(db, changes, n - 1);
    }
  }

  /** Over every run of joins and leaves: no pubkey is ever in two tenants if and only if
      every join is of a pubkey that is in no other tenant at that time. */
  lemma SingleTenantThroughoutIff(db: Db, changes: seq<Change>)
    requires SingleTenant(db)
    ensures (forall k | 0 <= k <= |changes| :: SingleAt(db, changes, k)) <==>
            (forall k | 0 <= k < |changes| :: GuardedAt(db, changes, k))
  {
    if forall k | 0 <= k <= |changes| :: SingleAt(db, changes, k) {
      forall k | 0 <= k < |changes| ensures GuardedAt(db, changes, k) {
        assert SingleAt(db, changes, k) && SingleAt(db, changes, k + 1);
        assert changes[..k + 1][..k] == changes[..k];
        ChangeKeepsSingleIff(ApplyAll(db, changes[..k]), changes[k]);
      }
    }
    if forall k | 0 <= k < |changes| :: GuardedAt(db, changes, k) {
      forall k | 0 <= k <= |changes| ensures SingleAt(db, changes, k) {
        GuardedStaysSingle(db, changes, k);
      }
    }
  }

  /** And then every pubkey's lookup has one answer, and every scope it is checked
      against is safe. */
  lemma SingleTenantIsSafe(db: Db, p: Pubkey, found: Option<string>, q: string)
    requires SingleTenant(db) && Finds(db, p, found)
    ensures forall again :: Finds(db, p, again) ==> again == found
    ensures Safe(db, ScopeOf(db, found, p, q), q)
  {
    var scope := ScopeOf(db, found, p, q);
    forall again | Finds(db, p, again) ensures again == found {
      if again.Some? && found.Some? {
        assert Member(again.value, p) == Member(found.value, p);
      }
    }
    forall o, again | o in Sharers(db, scope) && Finds(db, o, again) ensures ScopeOf(db, again, o, q) == scope {
      if scope.Pool? {
        assert Member(scope.tenant, o) in db.members;
        assert again.Some? ==> Member(again.value, o) == Member(scope.tenant, o);
      }
    }
    AdmissionIsSafeIff(db, scope, q);
  }
}
