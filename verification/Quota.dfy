/** Quotas of a single pubkey: clamped usage counters, grants, limits. */
module Quota {
  import opened AddressTables
  import Registry

  datatype Key = Key(owner: Pubkey, quotaType: string, service: string)

  /** A row of user_quota_usage. */
  datatype Usage = Usage(key: Key, bytes: int)

  datatype Grant = Grant(
    owner: Pubkey, quotaType: string, bytes: int, source: string, ref: string, expires: Option<int>)

  datatype Member = Member(tenant: string, owner: Pubkey)

  datatype QuotaType = QuotaType(limit: int, freeLimit: int)

  datatype Db = Db(
    rows: seq<Row>,
    usage: seq<Usage>,
    grants: seq<Grant>,
    members: set<Member>,
    tenantQuotas: map<(string, string), int>,
    overrides: map<(Pubkey, string), int>,
    quotaTypes: map<string, QuotaType>)

  /** Limit 0 means unlimited. */
  datatype Answer = Answer(limit: int, used: int, remaining: int)

  function Max(a: int, b: int): int { if a >= b then a else b }

  function Min(a: int, b: int): int { if a <= b then a else b }

  // ---- usage counters ---------------------------------------------------------

  /** The upsert of RecordServiceUsage. The order of rows carries no meaning. */
  function Record(usage: seq<Usage>, k: Key, delta: int): (r: seq<Usage>) {
    if usage == [] then [Usage(k, Max(0, delta))]
    else
      var init, last := usage[..|usage| - 1], usage[|usage| - 1];
      if last.key == k then init + [Usage(k, Max(0, last.bytes + delta))]
      else Record(init, k, delta) + [last]
  }

  function Component(usage: seq<Usage>, k: Key): Option<int> {
    if usage == [] then None
    else if usage[|usage| - 1].key == k then Some(usage[|usage| - 1].bytes)
    else Component(usage[..|usage| - 1], k)
  }

  function Bytes(usage: seq<Usage>, k: Key): int {
    if Component(usage, k).Some? then Component(usage, k).value else 0
  }

  ghost predicate NonNegative(usage: seq<Usage>) {
    forall i | 0 <= i < |usage| :: usage[i].bytes >= 0
  }

  lemma {:induction false} RecordComponent(usage: seq<Usage>, k: Key, delta: int, k': Key)
    ensures Component(Record(usage, k, delta), k') ==
            if k' == k then Some(Max(0, Bytes(usage, k) + delta)) else Component(usage, k')
  {
    if usage != [] {
      var init, last := usage[..|usage| - 1], usage[|usage| - 1];
      var r := Record(usage, k, delta);
      if last.key == k {
        assert r[..|r| - 1] == init;
      } else {
        RecordComponent(init, k, delta, k');
        assert r[..|r| - 1] == Record(init, k, delta);
      }
    }
  }

  lemma {:induction false} RecordKeepsNonNegative(usage: seq<Usage>, k: Key, delta: int)
    requires NonNegative(usage)
    ensures NonNegative(Record(usage, k, delta))
    ensures Bytes(usage, k) >= 0
  {
    if usage != [] {
      RecordKeepsNonNegative(usage[..|usage| - 1], k, delta);
    }
  }

  // ---- the closed form of a clamped counter -----------------------------------

  datatype Delta = Delta(key: Key, bytes: int)

  function RecordAll(usage: seq<Usage>, deltas: seq<Delta>): seq<Usage> {
    if deltas == [] then usage
    else
      var last := deltas[|deltas| - 1];
      Record(RecordAll(usage, deltas[..|deltas| - 1]), last.key, last.bytes)
  }

  /** The deltas meant for component k, in order. */
  function Of(deltas: seq<Delta>, k: Key): seq<int> {
    if deltas == [] then []
    else
      var before, last := Of(deltas[..|deltas| - 1], k), deltas[|deltas| - 1];
      if last.key == k then before + [last.bytes] else before
  }

  function Sum(ds: seq<int>): int {
    if ds == [] then 0 else Sum(ds[..|ds| - 1]) + ds[|ds| - 1]
  }

  /** The least sum of a prefix, the empty one included. */
  function MinPrefix(ds: seq<int>): int {
    if ds == [] then 0 else Min(MinPrefix(ds[..|ds| - 1]), Sum(ds))
  }

  /** However deltas to many components interleave, each component holds its own total
      minus its own least prefix sum. */
  lemma {:induction false} ClampedClosedForm(deltas: seq<Delta>, k: Key)
    ensures var ds := Of(deltas, k);
            Component(RecordAll([], deltas), k) == if ds == [] then None else Some(Sum(ds) - MinPrefix(ds))
  {
    if deltas != [] {
      var init, last := deltas[..|deltas| - 1], deltas[|deltas| - 1];
      ClampedClosedForm(init, k);
      RecordComponent(RecordAll([], init), last.key, last.bytes, k);
      if last.key == k {
        var before, ds := Of(init, k), Of(deltas, k);
        assert ds == before + [last.bytes] && ds[..|ds| - 1] == before;
      }
    }
  }

  /** So a counter is never negative, never below the unclamped total, and equal to it
      exactly when no prefix of the deltas dips below zero. */
  lemma {:induction false} ClampedBounds(ds: seq<int>)
    ensures MinPrefix(ds) <= 0 && MinPrefix(ds) <= Sum(ds)
    ensures MinPrefix(ds) == 0 <==> forall i | 0 <= i <= |ds| :: Sum(ds[..i]) >= 0
  {
    if ds == [] {
    } else {
      var init := ds[..|ds| - 1];
      ClampedBounds(init);
      assert forall i | 0 <= i <= |init| :: ds[..i] == init[..i];
      assert ds[..|ds|] == ds;
    }
  }

  // ---- sums over pubkeys ------------------------------------------------------

  function Used(usage: seq<Usage>, owners: set<Pubkey>, q: string): int {
    if usage == [] then 0
    else
      var last := usage[|usage| - 1];
      Used(usage[..|usage| - 1], owners, q) +
      if last.key.owner in owners && last.key.quotaType == q then last.bytes else 0
  }

  predicate Live(g: Grant, now: int) {
    g.expires.None? || g.expires.value > now
  }

  function Granted(grants: seq<Grant>, owners: set<Pubkey>, q: string, now: int): int {
    if grants == [] then 0
    else
      var last := grants[|grants| - 1];
      Granted(grants[..|grants| - 1], owners, q, now) +
      if last.owner in owners && last.quotaType == q && Live(last, now) then last.bytes else 0
  }

  lemma {:induction false} RecordUsed(usage: seq<Usage>, k: Key, delta: int, owners: set<Pubkey>, q: string)
    ensures Used(Record(usage, k, delta), owners, q) == Used(usage, owners, q) +
            if k.owner in owners && k.quotaType == q then Max(0, Bytes(usage, k) + delta) - Bytes(usage, k) else 0
  {
    var r := Record(usage, k, delta);
    if usage == [] {
      assert r[..0] == [];
    } else {
      var init, last := usage[..|usage| - 1], usage[|usage| - 1];
      if last.key == k {
        assert r[..|r| - 1] == init;
      } else {
        RecordUsed(init, k, delta, owners, q);
        assert r[..|r| - 1] == Record(init, k, delta);
      }
    }
  }

  lemma {:induction false} UsedSplits(usage: seq<Usage>, a: set<Pubkey>, b: set<Pubkey>, q: string)
    requires a !! b
    ensures Used(usage, a + b, q) == Used(usage, a, q) + Used(usage, b, q)
  {
    if usage != [] {
      UsedSplits(usage[..|usage| - 1], a, b, q);
    }
  }

  lemma {:induction false} GrantedSplits(grants: seq<Grant>, a: set<Pubkey>, b: set<Pubkey>, q: string, now: int)
    requires a !! b
    ensures Granted(grants, a + b, q, now) == Granted(grants, a, q, now) + Granted(grants, b, q, now)
  {
    if grants != [] {
      GrantedSplits(grants[..|grants| - 1], a, b, q, now);
    }
  }

  lemma {:induction false} NobodyUses(usage: seq<Usage>, grants: seq<Grant>, q: string, now: int)
    ensures Used(usage, {}, q) == 0 && Granted(grants, {}, q, now) == 0
    decreases |usage| + |grants|
  {
    if usage != [] {
      NobodyUses(usage[..|usage| - 1], grants, q, now);
    } else if grants != [] {
      NobodyUses(usage, grants[..|grants| - 1], q, now);
    }
  }

  // ---- the answer for one pubkey ----------------------------------------------

  function Resolve(base: int, granted: int, used: int): Answer {
    var limit := if base == 0 then 0 else base + granted;
    Answer(limit, used, if limit == 0 then 0 else Max(0, limit - used))
  }

  /** Override, else the named or the free default; an unknown type is unlimited. */
  function BaseLimit(db: Db, p: Pubkey, q: string): int {
    if (p, q) in db.overrides then db.overrides[(p, q)]
    else if q !in db.quotaTypes then 0
    else if HasReal(db.rows, p) then db.quotaTypes[q].limit
    else db.quotaTypes[q].freeLimit
  }

  /** The function of migration 007. */
  function Individual(db: Db, p: Pubkey, q: string, now: int): Answer {
    Resolve(BaseLimit(db, p, q), Granted(db.grants, {p}, q, now), Used(db.usage, {p}, q))
  }

  /** The individual answer in numbers. An override sets the limit whatever the pubkey
      claimed; without one an unknown type is unlimited, and a known one has the named
      default exactly for a pubkey with an active claimed address. Unexpired grants add to
      any limit but an unlimited one. */
  lemma IndividualInNumbers(db: Db, p: Pubkey, q: string, now: int)
    ensures var answer, granted := Individual(db, p, q, now), Granted(db.grants, {p}, q, now);
            var named := exists i | 0 <= i < |db.rows| ::
                           db.rows[i].owner == p && db.rows[i].active && !db.rows[i].auto;
            && ((p, q) in db.overrides ==>
                  answer.limit == if db.overrides[(p, q)] == 0 then 0 else db.overrides[(p, q)] + granted)
            && ((p, q) !in db.overrides && q !in db.quotaTypes ==> answer.limit == 0)
            && ((p, q) !in db.overrides && q in db.quotaTypes ==>
                  var base := if named then db.quotaTypes[q].limit else db.quotaTypes[q].freeLimit;
                  answer.limit == if base == 0 then 0 else base + granted)
            && answer.used == Used(db.usage, {p}, q)
            && (answer.limit != 0 ==>
                  answer.remaining >= 0 && answer.remaining >= answer.limit - answer.used
                  && (answer.remaining == 0 || answer.remaining == answer.limit - answer.used))
            && (answer.limit == 0 ==> answer.remaining == 0)
  {
    if HasReal(db.rows, p) {
      var i :| 0 <= i < |db.rows| && ActiveOf(db.rows, p, i) && !db.rows[i].auto;
      assert db.rows[i].owner == p && db.rows[i].active;
    }
    forall i | 0 <= i < |db.rows| && db.rows[i].owner == p && db.rows[i].active && !db.rows[i].auto
      ensures HasReal(db.rows, p)
    {
      assert ActiveOf(db.rows, p, i);
    }
  }

  /** An auto-assigned address confers no named tier, and the first claimed one does:
      registering moves the base limit of a pubkey without override from the free to the
      named default exactly if the name was claimed, whatever it held before. */
  lemma NamedTierOnlyByClaim(db: Db, t: Tables, name: Name, p: Pubkey, auto: bool, at: int, q: string)
    requires db.rows == t.rows && q in db.quotaTypes && (p, q) !in db.overrides
    requires Registry.RegisterTx(t, name, p, auto, at).0.Committed?
    ensures var db' := db.(rows := Registry.RegisterTx(t, name, p, auto, at).1.rows);
            && BaseLimit(db', p, q) ==
               (if auto then db.quotaTypes[q].freeLimit else db.quotaTypes[q].limit)
            && (auto ==> BaseLimit(db', p, q) == BaseLimit(db, p, q))
  {
    var rows' := Registry.RegisterTx(t, name, p, auto, at).1.rows;
    var n := |t.rows|;
    assert ActiveOf(rows', p, n) && rows'[n].auto == auto;
    assert forall i | 0 <= i < n :: ActiveOf(rows', p, i) == ActiveOf(t.rows, p, i) && rows'[i].auto == t.rows[i].auto;
  }
}
