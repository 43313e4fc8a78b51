/** Concurrent calls of ensurePrimaryAddress for one fresh pubkey. Every read is its
    own step and may be stale by the time of the next; insert and commit are one
    step, with the unique indexes as the only guard. */
module EnsureRace {
  import opened AddressTables
  import opened Registry
  import opened RegistryFlags

  /** Where a call has got to. `Tried` is back from EnsureAutoAddress with the row it
      made, if any; an error there and (nil, nil) are treated alike by the caller. */
  datatype Call =
    | Start
    | Missed
    | Counted
    | Named(name: Name)
    | Untaken(name: Name)
    | Cleared(name: Name)
    | Tried(made: Option<nat>)
    | Done(address: Option<nat>, created: bool)

  datatype System = System(t: Tables, calls: seq<Call>)

  /** The pubkey being ensured, and the names username.Generate may propose for it. */
  datatype Setting = Setting(p: Pubkey, names: set<Name>)

  /** What GetPrimaryAddressByPubkey may answer. */
  predicate ReadsPrimary(rows: seq<Row>, p: Pubkey, answer: Option<nat>) {
    if answer.Some? then ActiveFlagged(rows, p, Primary, answer.value)
    else forall i | 0 <= i < |rows| :: !ActiveFlagged(rows, p, Primary, i)
  }

  ghost predicate CallStep(e: Setting, t: Tables, c: Call, t': Tables, c': Call) {
    match c
    case Start =>
      && t' == t
      && ((c'.Done? && c'.address.Some? && !c'.created && ReadsPrimary(t.rows, e.p, c'.address))
          || (c' == Missed && ReadsPrimary(t.rows, e.p, None)))
    case Missed =>
      t' == t && c' == if HasActive(t.rows, e.p) then Tried(None) else Counted
    case Counted =>
      t' == t && c'.Named? && c'.name in e.names && !NameActive(t.rows, c'.name)
    case Named(name) =>
      t' == t && c' == if NameActive(t.rows, name) || name.username in t.reserved then Tried(None) else Untaken(name)
    case Untaken(name) =>
      t' == t && c' == if HasActive(t.rows, e.p) then Tried(None) else Cleared(name)
    case Cleared(name) =>
      exists now: int ::
        var (outcome, after) := Claim(t, true, false, name, e.p, true, now);
        t' == after && c' == Tried(if outcome.Committed? then Some(|t.rows|) else None)
    case Tried(made) =>
      && t' == t && c'.Done? && ReadsPrimary(t.rows, e.p, c'.address)
      && c'.created == (made.Some? && c'.address == made)
    case Done(_, _) => false
  }

  /** Whatever other requests commit meanwhile: they leave p's rows alone and do not
      take a name proposed for p. */
  predicate OthersAct(e: Setting, t: Tables, t': Tables) {
    && IndexesHold(t'.rows) && t'.reserved == t.reserved && |t.rows| <= |t'.rows|
    && (forall i | 0 <= i < |t.rows| ::
          t'.rows[i].name == t.rows[i].name
          && (t.rows[i].owner == e.p || t'.rows[i].owner == e.p ==> t'.rows[i] == t.rows[i]))
    && (forall i | |t.rows| <= i < |t'.rows| :: t'.rows[i].owner != e.p && t'.rows[i].name !in e.names)
  }

  ghost predicate CallMoves(e: Setting, s: System, s': System, i: nat) {
    && i < |s.calls| == |s'.calls|
    && CallStep(e, s.t, s.calls[i], s'.t, s'.calls[i])
    && s'.calls == s.calls[i := s'.calls[i]]
  }

  ghost predicate Next(e: Setting, s: System, s': System) {
    || (exists i: nat :: CallMoves(e, s, s', i))
    || (OthersAct(e, s.t, s'.t) && s'.calls == s.calls)
  }

  ghost predicate Init(e: Setting, s: System) {
    && IndexesHold(s.t.rows)
    && (forall i | 0 <= i < |s.t.rows| :: s.t.rows[i].owner != e.p && s.t.rows[i].name !in e.names)
    && (forall n | n in e.names :: n.username !in s.t.reserved)
    && (forall i | 0 <= i < |s.calls| :: s.calls[i] == Start)
  }

  ghost predicate IsRun(e: Setting, run: seq<System>) {
    && run != [] && Init(e, run[0])
    && forall k | 0 <= k < |run| - 1 :: Next(e, run[k], run[k + 1])
  }

  // ---- who made the address ---------------------------------------------------

  /** The call whose insert committed: it still carries the row, or reported `created`. */
  predicate Maker(c: Call) {
    (c.Tried? && c.made.Some?) || (c.Done? && c.created)
  }

  function Makers(calls: seq<Call>): nat {
    if calls == [] then 0
    else Makers(calls[..|calls| - 1]) + if Maker(calls[|calls| - 1]) then 1 else 0
  }

  lemma {:induction false} MakersUpdate(calls: seq<Call>, i: nat, c: Call)
    requires i < |calls|
    ensures Makers(calls[i := c]) + (if Maker(calls[i]) then 1 else 0) == Makers(calls) + if Maker(c) then 1 else 0
  {
    var n := |calls| - 1;
    var calls' := calls[i := c];
    if i < n {
      assert calls'[..n] == calls[..n][i := c];
      MakersUpdate(calls[..n], i, c);
    } else {
      assert calls'[..n] == calls[..n];
    }
  }

  lemma {:induction false} NoMakers(calls: seq<Call>)
    ensures Makers(calls) == 0 <==> forall i | 0 <= i < |calls| :: !Maker(calls[i])
  {
    if calls != [] {
      NoMakers(calls[..|calls| - 1]);
    }
  }

  lemma {:induction false} OneMaker(calls: seq<Call>) returns (w: nat)
    requires Makers(calls) == 1
    ensures w < |calls| && Maker(calls[w])
    ensures forall i | 0 <= i < |calls| && i != w :: !Maker(calls[i])
  {
    var n := |calls| - 1;
    if Maker(calls[n]) {
      NoMakers(calls[..n]);
      w := n;
    } else {
      w := OneMaker(calls[..n]);
    }
  }

  // ---- the invariant ----------------------------------------------------------

  ghost predicate CallOk(e: Setting, t: Tables, c: Call) {
    match c
    case Named(name) => name in e.names
    case Untaken(name) => name in e.names
    case Cleared(name) => name in e.names
    case Tried(made) => HasActive(t.rows, e.p) && (made.Some? ==> ActiveOf(t.rows, e.p, made.value))
    case Done(address, _) => address.Some? && ActiveOf(t.rows, e.p, address.value)
    case _ => true
  }

  ghost predicate Invariant(e: Setting, s: System) {
    && IndexesHold(s.t.rows)
    && (forall i | 0 <= i < |s.t.rows| && s.t.rows[i].owner == e.p ::
          s.t.rows[i].active && s.t.rows[i].flags == BOTH_FLAGS)
    && (forall i | 0 <= i < |s.t.rows| && s.t.rows[i].name in e.names :: s.t.rows[i].owner == e.p)
    && (forall n | n in e.names :: n.username !in s.t.reserved)
    && (forall i | 0 <= i < |s.calls| :: CallOk(e, s.t, s.calls[i]))
    && Makers(s.calls) == if HasActive(s.t.rows, e.p) then 1 else 0
  }

  lemma OnlyRow(e: Setting, s: System, i: nat, j: nat)
    requires Invariant(e, s) && ActiveOf(s.t.rows, e.p, i) && ActiveOf(s.t.rows, e.p, j)
    ensures i == j
  {
    assert OnePerOwner(s.t.rows, Primary);
  }

  lemma InsertKeepsInvariant(e: Setting, s: System, s': System, i: nat, now: int)
    requires Invariant(e, s) && i < |s.calls| == |s'.calls| && s.calls[i].Cleared?
    requires var (outcome, after) := Claim(s.t, true, false, s.calls[i].name, e.p, true, now);
             s'.t == after && s'.calls == s.calls[i := Tried(if outcome.Committed? then Some(|s.t.rows|) else None)]
    ensures Invariant(e, s')
  {
    var name, n := s.calls[i].name, |s.t.rows|;
    var (outcome, after) := Claim(s.t, true, false, name, e.p, true, now);
    MakersUpdate(s.calls, i, s'.calls[i]);
    if outcome.Committed? {
      ClaimKeepsIndexes(s.t, true, false, name, e.p, true, now);
      assert forall k | 0 <= k < n :: after.rows[k] == s.t.rows[k];
      assert ActiveOf(after.rows, e.p, n);
      assert !HasActive(s.t.rows, e.p);
      forall k | 0 <= k < |s'.calls| ensures CallOk(e, s'.t, s'.calls[k]) {
        assert CallOk(e, s.t, s.calls[k]);
      }
    } else {
      // the index that objected was hit by a row p already has
      if NameUsed(s.t.rows, name) {
        var k :| 0 <= k < n && s.t.rows[k].name == name;
        assert ActiveOf(s.t.rows, e.p, k);
      } else {
        var k :| 0 <= k < n && s.t.rows[k].owner == e.p && s.t.rows[k].flags != {};
        assert ActiveOf(s.t.rows, e.p, k);
      }
    }
  }

  lemma CallKeepsInvariant(e: Setting, s: System, s': System, i: nat)
    requires Invariant(e, s) && CallMoves(e, s, s', i)
    ensures Invariant(e, s')
  {
    var c, c' := s.calls[i], s'.calls[i];
    assert CallOk(e, s.t, c);
    MakersUpdate(s.calls, i, c');
    match c
    case Cleared(name) =>
      var now: int :| var (outcome, after) := Claim(s.t, true, false, name, e.p, true, now);
                      s'.t == after && c' == Tried(if outcome.Committed? then Some(|s.t.rows|) else None);
      InsertKeepsInvariant(e, s, s', i, now);
    case Named(name) =>
      if k :| 0 <= k < |s.t.rows| && s.t.rows[k].name == name && s.t.rows[k].active {
        assert ActiveOf(s.t.rows, e.p, k);
      }
    case Tried(made) =>
      var k :| 0 <= k < |s.t.rows| && ActiveOf(s.t.rows, e.p, k);
      assert ActiveFlagged(s.t.rows, e.p, Primary, k);
      OnlyRow(e, s, k, c'.address.value);
      if made.Some? {
        OnlyRow(e, s, k, made.value);
      }
    case _ =>
  }

  lemma OthersKeepInvariant(e: Setting, s: System, s': System)
    requires Invariant(e, s) && OthersAct(e, s.t, s'.t) && s'.calls == s.calls
    ensures Invariant(e, s')
  {
    assert forall i | 0 <= i < |s'.t.rows| ::
        ActiveOf(s'.t.rows, e.p, i) <==> i < |s.t.rows| && ActiveOf(s.t.rows, e.p, i);
    if HasActive(s.t.rows, e.p) {
      var i :| 0 <= i < |s.t.rows| && ActiveOf(s.t.rows, e.p, i);
      assert ActiveOf(s'.t.rows, e.p, i);
    }
    forall k | 0 <= k < |s'.calls| ensures CallOk(e, s'.t, s'.calls[k]) {
      assert CallOk(e, s.t, s.calls[k]);
    }
  }

  lemma {:induction false} InvariantHolds(e: Setting, run: seq<System>, k: nat)
    requires IsRun(e, run) && k < |run|
    ensures Invariant(e, run[k]) && |run[k].calls| == |run[0].calls|
  {
    if k == 0 {
      NoMakers(run[0].calls);
    } else {
      InvariantHolds(e, run, k - 1);
      var s, s' := run[k - 1], run[k];
      assert Next(e, s, run[k - 1 + 1]);
      if i: nat :| CallMoves(e, s, s', i) {
        CallKeepsInvariant(e, s, s', i);
      } else {
        OthersKeepInvariant(e, s, s');
      }
    }
  }

  // ---- the results ------------------------------------------------------------

  /** However n >= 1 concurrent ensures interleave, once all have answered the pubkey
      has exactly one active row, every call returned it, and exactly one call
      reported having created it. */
  lemma EnsureConverges(e: Setting, run: seq<System>) returns (row: nat, winner: nat)
    requires IsRun(e, run)
    requires var calls := run[|run| - 1].calls; calls != [] && forall i | 0 <= i < |calls| :: calls[i].Done?
    ensures var s := run[|run| - 1];
            && ActiveFlagged(s.t.rows, e.p, Primary, row) && s.t.rows[row].name in e.names
            && (forall i | 0 <= i < |s.t.rows| && s.t.rows[i].owner == e.p :: i == row)
            && winner < |s.calls|
            && (forall i | 0 <= i < |s.calls| :: s.calls[i] == Done(Some(row), i == winner))
  {
    var s := run[|run| - 1];
    InvariantHolds(e, run, |run| - 1);
    assert CallOk(e, s.t, s.calls[0]);
    row := s.calls[0].address.value;
    winner := OneMaker(s.calls);
    forall i | 0 <= i < |s.calls| ensures s.calls[i] == Done(Some(row), i == winner) {
      assert CallOk(e, s.t, s.calls[i]);
      OnlyRow(e, s, row, s.calls[i].address.value);
    }
    forall i | 0 <= i < |s.t.rows| && s.t.rows[i].owner == e.p ensures i == row {
      OnlyRow(e, s, row, i);
    }
    RowsAreProposed(e, run, |run| - 1);
  }

  lemma {:induction false} RowsAreProposed(e: Setting, run: seq<System>, k: nat)
    requires IsRun(e, run) && k < |run|
    ensures forall i | 0 <= i < |run[k].t.rows| && run[k].t.rows[i].owner == e.p :: run[k].t.rows[i].name in e.names
  {
    if k != 0 {
      RowsAreProposed(e, run, k - 1);
      InvariantHolds(e, run, k - 1);
      var s, s' := run[k - 1], run[k];
      assert Next(e, s, run[k - 1 + 1]);
      if i: nat :| CallMoves(e, s, s', i) {
        assert CallOk(e, s.t, s.calls[i]);
      }
    }
  }

  /** Steps a call has left. */
  function Rank(c: Call): nat {
    match c
    case Start => 7
    case Missed => 6
    case Counted => 5
    case Named(_) => 4
    case Untaken(_) => 3
    case Cleared(_) => 2
    case Tried(_) => 1
    case Done(_, _) => 0
  }

  /** No call waits for another: while some proposed name is free, each unfinished
      call has a next step, and each of its steps brings it closer to its answer. */
  lemma CallAdvances(e: Setting, s: System, i: nat, free: Name)
    requires Invariant(e, s) && i < |s.calls| && !s.calls[i].Done?
    requires free in e.names && !NameActive(s.t.rows, free)
    ensures exists s': System :: CallMoves(e, s, s', i)
    ensures forall s': System :: CallMoves(e, s, s', i) ==> Rank(s'.calls[i]) < Rank(s.calls[i])
  {
    var c, rows := s.calls[i], s.t.rows;
    assert CallOk(e, s.t, c);
    var c': Call;
    var t' := s.t;
    var primary: Option<nat> := None;
    if k: nat :| k < |rows| && ActiveFlagged(rows, e.p, Primary, k) {
      primary := Some(k);
    }
    assert ReadsPrimary(rows, e.p, primary);
    match c {
      case Start => c' := if primary.Some? then Done(primary, false) else Missed;
      case Missed => c' := if HasActive(rows, e.p) then Tried(None) else Counted;
      case Counted => c' := Named(free);
      case Named(name) =>
        c' := if NameActive(rows, name) || name.username in s.t.reserved then Tried(None) else Untaken(name);
      case Untaken(name) => c' := if HasActive(rows, e.p) then Tried(None) else Cleared(name);
      case Cleared(name) =>
        var (outcome, after) := Claim(s.t, true, false, name, e.p, true, 0);
        t', c' := after, Tried(if outcome.Committed? then Some(|rows|) else None);
      case Tried(made) => c' := Done(primary, made.Some? && primary == made);
    }
    assert CallStep(e, s.t, c, t', c');
    assert CallMoves(e, s, System(t', s.calls[i := c']), i);
  }

  // ---- one call alone ---------------------------------------------------------

  datatype Moment = Moment(t: Tables, c: Call)

  ghost predicate Follows(e: Setting, a: Moment, b: Moment) {
    CallStep(e, a.t, a.c, b.t, b.c)
  }

  ghost predicate Trail(e: Setting, trail: seq<Moment>) {
    trail != [] && forall k | 0 <= k < |trail| - 1 :: Follows(e, trail[k], trail[k + 1])
  }

  /** The call run by itself, as `AddressStore.Store.EnsurePrimaryAddress` runs it, is a
      course the call's own steps can take: from the start to the same tables, the same
      address and the same `created`. */
  lemma SerialEnsureIsTrail(e: Setting, t: Tables, candidate: Name, now: int, id: Option<nat>, created: bool)
    returns (trail: seq<Moment>)
    requires FlagInvariant(t.rows) && candidate in e.names && !NameActive(t.rows, candidate)
    requires var tx := RegisterTx(t, candidate, e.p, true, now);
             var t' := if HasActive(t.rows, e.p) then t else tx.1;
             && (id.Some? <==> HasActive(t'.rows, e.p))
             && (id.Some? ==> ActiveFlagged(t'.rows, e.p, Primary, id.value))
             && (created <==> !HasActive(t.rows, e.p) && tx.0.Committed?)
    ensures Trail(e, trail) && trail[0] == Moment(t, Start)
    ensures trail[|trail| - 1] ==
            Moment(if HasActive(t.rows, e.p) then t else RegisterTx(t, candidate, e.p, true, now).1, Done(id, created))
  {
    if HasActive(t.rows, e.p) {
      trail := [Moment(t, Start), Moment(t, Done(id, false))];
    } else {
      var (outcome, t') := RegisterTx(t, candidate, e.p, true, now);
      assert forall i | 0 <= i < |t.rows| :: !ActiveOf(t.rows, e.p, i);
      var start := [Moment(t, Start), Moment(t, Missed), Moment(t, Counted), Moment(t, Named(candidate))];
      if candidate.username in t.reserved {
        trail := start + [Moment(t, Tried(None)), Moment(t, Done(None, false))];
      } else {
        var made := if outcome.Committed? then Some(|t.rows|) else None;
        assert Follows(e, Moment(t, Cleared(candidate)), Moment(t', Tried(made)));
        forall i | 0 <= i < |t'.rows| && ActiveOf(t'.rows, e.p, i) ensures made == Some(i) {
          assert i < |t.rows| ==> !ActiveOf(t.rows, e.p, i);
        }
        assert outcome.Committed? ==> ActiveOf(t'.rows, e.p, |t.rows|);
        trail := start + [Moment(t, Untaken(candidate)), Moment(t, Cleared(candidate)),
                          Moment(t', Tried(made)), Moment(t', Done(id, created))];
      }
    }
  }
}
