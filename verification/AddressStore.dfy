/** The registry's transactions as the service runs them: one statement after the
    other, each checked against the unique indexes, with a rollback on error. Every
    method is proved to compute the closed form in `Registry`. */
module AddressStore {
  import opened AddressTables
  import opened Registry
  import opened RegistryFlags
  import RegistryEffects

  // ---- the indexes at the intermediate statements of a transfer ----------------

  lemma MoveGuardIsIndexes(rows: seq<Row>, id: nat, to: Pubkey)
    requires IndexesHold(rows) && id < |rows|
    ensures IndexesHold(Moved(rows, id, to)) <==>
            !TransferBlocked(rows, id, to)
  {
    var rows' := Moved(rows, id, to);
    if !HasActive(rows, to) {
      if i :| 0 <= i < |rows| && i != id && rows[i].owner == to && rows[i].flags != {} {
        FlagsNonEmpty(rows[i].flags);
        assert rows'[i].owner == rows'[id].owner && rows'[id].flags == BOTH_FLAGS;
      }
    }
  }

  /** After the row has left, the old owner's remaining rows are the ones it had. */
  ghost predicate LikeMoved(rows: seq<Row>, before: seq<Row>, id: nat, to: Pubkey)
    requires id < |before|
  {
    && |rows| == |before|
    && forall i | 0 <= i < |rows| ::
         rows[i].name == before[i].name && rows[i].active == before[i].active
         && rows[i].created == before[i].created
         && rows[i].owner == if i == id then to else before[i].owner
  }

  lemma OthersRemain(rows: seq<Row>, before: seq<Row>, id: nat, to: Pubkey)
    requires id < |before| && LikeMoved(rows, before, id, to)
    requires HasOtherActive(before, before[id].owner, id)
    ensures HasOtherActive(rows, before[id].owner, id)
  {
    var k :| 0 <= k < |before| && k != id && ActiveOf(before, before[id].owner, k);
    assert ActiveOf(rows, before[id].owner, k);
  }

  /** The promotion for the old owner picks what it would have picked before the move,
      and no index objects: only the row that left carried the flag. */
  lemma HeirIsAccepted(rows: seq<Row>, before: seq<Row>, id: nat, to: Pubkey, f: Flag, k: nat)
    requires IndexesHold(before) && IndexesHold(rows)
    requires id < |before| && LikeMoved(rows, before, id, to)
    requires f in before[id].flags && HasOtherActive(before, before[id].owner, id)
    requires forall i | 0 <= i < |rows| :: f in rows[i].flags <==> f in Moved(before, id, to)[i].flags
    requires OldestOther(rows, before[id].owner, id, k)
    ensures OldestOther(before, before[id].owner, id, k)
    ensures IndexesHold(Raised(rows, f, k))
  {
    var from := before[id].owner;
    assert forall j | 0 <= j < |rows| && j != id :: ActiveOf(rows, from, j) == ActiveOf(before, from, j);
    assert f == Primary || f == Nip05;
    assert forall j | 0 <= j < |rows| && j != id && before[j].owner == from :: f !in before[j].flags;
    assert to == from ==> HasActive(before, to);
    assert forall j | 0 <= j < |rows| && rows[j].owner == from :: f !in rows[j].flags;
    RaisedKeepsIndexes(rows, f, k);
  }

  ghost function AnyHeir(rows: seq<Row>, p: Pubkey, except: nat): (k: nat)
    ensures HasOtherActive(rows, p, except) ==> OldestOther(rows, p, except, k)
  {
    if HasOtherActive(rows, p, except) then
      OldestOtherExists(rows, p, except);
      var k: nat :| k < |rows| && OldestOther(rows, p, except, k); k
    else 0
  }

  class Store {
    var rows: seq<Row>
    var history: seq<Interval>
    const reserved: set<string>

    constructor (reserved: set<string>)
      ensures Valid() && Contents() == Run(reserved, [])
    {
      this.rows, this.history, this.reserved := [], [], reserved;
    }

    /** All the database itself guarantees: its unique indexes. */
    predicate Valid()
      reads this
    {
      IndexesHold(rows)
    }

    function Contents(): Tables
      reads this
    {
      Tables(rows, history, reserved)
    }

    // ---- statements -------------------------------------------------------------

    /** One INSERT or UPDATE on addresses: it errs exactly when an index objects. */
    method Write(rows': seq<Row>) returns (ok: bool)
      modifies this`rows
      ensures ok <==> IndexesHold(rows')
      ensures rows == if ok then rows' else old(rows)
    {
      ok := IndexesHold(rows');
      if ok {
        rows := rows';
      }
    }

    method OpenOwnership(name: Name, owner: Pubkey, now: int)
      modifies this`history
      ensures history == old(history) + [Interval(name, owner, now, None)]
    {
      history := history + [Interval(name, owner, now, None)];
    }

    method CloseOwnership(name: Name, owner: Pubkey, now: int)
      modifies this`history
      ensures history == Closed(old(history), name, owner, now)
    {
      history := Closed(history, name, owner, now);
    }

    /** promotePrimaryAddress and promoteNIP05Address; without another active row the
        update matches none. */
    method Promote(f: Flag, p: Pubkey, except: nat) returns (ok: bool, k: nat)
      modifies this`rows
      ensures !HasOtherActive(old(rows), p, except) ==> ok && rows == old(rows)
      ensures HasOtherActive(old(rows), p, except) ==>
                && OldestOther(old(rows), p, except, k)
                && (ok <==> IndexesHold(Raised(old(rows), f, k)))
                && rows == if ok then Raised(old(rows), f, k) else old(rows)
    {
      if !HasOtherActive(rows, p, except) {
        return true, 0;
      }
      OldestOtherExists(rows, p, except);
      k :| 0 <= k < |rows| && OldestOther(rows, p, except, k);
      ok := Write(Raised(rows, f, k));
    }

    // ---- transactions -----------------------------------------------------------

    method AtomicRegisterAddress(name: Name, owner: Pubkey, auto: bool, now: int) returns (outcome: Outcome)
      requires Valid()
      modifies this
      ensures Valid()
      ensures (outcome, Contents()) == RegisterTx(old(Contents()), name, owner, auto, now)
    {
      var saved := rows;
      if NameActive(rows, name) {
        return Refused;
      }
      if name.username in reserved {
        return Refused;
      }
      var existingActive, existingReal := HasActive(rows, owner), HasReal(rows, owner);
      if auto && existingActive {
        return Refused;
      }
      var isFirst := !existingActive;
      var promote := !isFirst && !auto && !existingReal;
      var makePrimary := isFirst || promote;
      ClaimGuardIsIndexes(Contents(), isFirst, promote, name, owner, auto, now);
      if promote {
        var demoted := Write(Demoted(rows, owner));
      }
      var row := Row(name, owner, true, if makePrimary then BOTH_FLAGS else {}, auto, now);
      var ok := Write(rows + [row]);
      if !ok {
        rows := saved;
        return Failed;
      }
      OpenOwnership(name, owner, now);
      outcome := Committed;
    }

    /** RegisterAddress runs the same statements. */
    method AdminGrantAddress(name: Name, owner: Pubkey, now: int) returns (outcome: Outcome)
      requires Valid()
      modifies this
      ensures Valid()
      ensures (outcome, Contents()) == GrantTx(old(Contents()), name, owner, now)
    {
      var isFirst := !HasActive(rows, owner);
      ClaimGuardIsIndexes(Contents(), isFirst, false, name, owner, false, now);
      var ok := Write(rows + [Row(name, owner, true, if isFirst then BOTH_FLAGS else {}, false, now)]);
      if !ok {
        return Failed;
      }
      OpenOwnership(name, owner, now);
      outcome := Committed;
    }

    /** The UPDATE of a transfer. */
    method MoveRow(id: nat, to: Pubkey, isFirstForTarget: bool) returns (ok: bool)
      requires Valid() && id < |rows| && isFirstForTarget == !HasActive(rows, to)
      modifies this`rows
      ensures Valid()
      ensures ok <==> !TransferBlocked(old(rows), id, to)
      ensures rows == if ok then Moved(old(rows), id, to) else old(rows)
      ensures ok ==> LikeMoved(rows, old(rows), id, to)
    {
      MoveGuardIsIndexes(rows, id, to);
      ok := Write(rows[id := rows[id].(owner := to, flags := if isFirstForTarget then BOTH_FLAGS else {})]);
    }

    /** One of the two promotions of a transfer: if the row that left carried f and
        others remain, an oldest of them takes f over, and no index objects. */
    method PassOn(f: Flag, ghost before: seq<Row>, row: Row, id: nat, ghost to: Pubkey, fromOthers: bool)
      returns (ghost k: nat)
      requires IndexesHold(before) && id < |before| && row == before[id]
      requires fromOthers == HasOtherActive(before, row.owner, id)
      requires Valid() && LikeMoved(rows, before, id, to)
      requires forall i | 0 <= i < |rows| :: f in rows[i].flags <==> f in Moved(before, id, to)[i].flags
      modifies this`rows
      ensures Valid() && LikeMoved(rows, before, id, to)
      ensures fromOthers ==> OldestOther(before, row.owner, id, k)
      ensures rows == PassedOn(old(rows), before, id, f, Picks(k, k))
    {
      k := AnyHeir(before, row.owner, id);
      if f in row.flags && fromOthers {
        OthersRemain(rows, before, id, to);
        ghost var moved := rows;
        var promoted, picked := Promote(f, row.owner, id);
        HeirIsAccepted(moved, before, id, to, f, picked);
        k := picked;
      }
    }

    method TransferAddress(id: nat, newOwner: Pubkey, now: int) returns (outcome: Outcome, ghost picks: Picks)
      requires Valid()
      modifies this
      ensures Valid()
      ensures LegalPicks(old(rows), id, picks)
      ensures (outcome, Contents()) == TransferTx(old(Contents()), id, newOwner, picks, now)
    {
      if id >= |rows| {
        return Failed, Picks(0, 0);
      }
      ghost var before := rows;
      var row := rows[id];
      var fromOthers := HasOtherActive(rows, row.owner, id);
      var isFirstForTarget := !HasActive(rows, newOwner);
      var ok := MoveRow(id, newOwner, isFirstForTarget);
      if !ok {
        ghost var k := AnyHeir(before, row.owner, id);
        return Failed, Picks(k, k);
      }
      ghost var primary := PassOn(Primary, before, row, id, newOwner, fromOthers);
      ghost var nip05 := PassOn(Nip05, before, row, id, newOwner, fromOthers);
      CloseOwnership(row.name, row.owner, now);
      OpenOwnership(row.name, newOwner, now);
      outcome, picks := Committed, Picks(primary, nip05);
    }

    method AdminTransferAddress(name: Name, to: Pubkey, now: int)
      returns (outcome: Outcome, ghost id: nat, ghost picks: Picks)
      requires Valid()
      modifies this
      ensures Valid()
      ensures LegalPicks(old(rows), id, picks)
      ensures (outcome, Contents()) == TransferTx(old(Contents()), id, to, picks, now)
      ensures id == if Find(old(rows), name).Some? then Find(old(rows), name).value else |old(rows)|
    {
      var found := Find(rows, name);
      match found
      case None =>
        outcome, id, picks := Failed, |rows|, Picks(0, 0);
      case Some(i) =>
        id := i;
        outcome, picks := TransferAddress(i, to, now);
    }

    method AdminRevokeAddress(name: Name, now: int) returns (outcome: Outcome)
      requires Valid()
      modifies this
      ensures Valid()
      ensures (outcome, Contents()) == RevokeTx(old(Contents()), name, now)
    {
      var saved := (rows, history);
      var found := Find(rows, name);
      if found.None? {
        return Failed;
      }
      var id := found.value;
      var row := rows[id];
      ghost var before := rows;
      var ok := Write(rows[id := row.(active := false)]);
      CloseOwnership(name, row.owner, now);
      assert HasOtherActive(rows, row.owner, id) == HasOtherActive(before, row.owner, id) by {
        assert forall i | 0 <= i < |rows| && i != id :: ActiveOf(rows, row.owner, i) == ActiveOf(before, row.owner, i);
      }
      if Primary in row.flags && HasOtherActive(rows, row.owner, id) {
        var k;
        ok, k := Promote(Primary, row.owner, id);
        if !ok {
          rows, history := saved.0, saved.1;
          return Failed;
        }
        CollidesWithRevoked(before, id, Primary, k);
      }
      if Nip05 in row.flags && HasOtherActive(rows, row.owner, id) {
        var k;
        ok, k := Promote(Nip05, row.owner, id);
        if !ok {
          rows, history := saved.0, saved.1;
          return Failed;
        }
        CollidesWithRevoked(before, id, Nip05, k);
      }
      FlagsNonEmpty(row.flags);
      outcome := Committed;
    }

    /** SetAddressPrimary and SetAddressNIP05 differ only in the flag. */
    method SetAddressFlag(f: Flag, name: Name, owner: Pubkey) returns (outcome: Outcome)
      requires Valid()
      modifies this
      ensures Valid()
      ensures (outcome, Contents()) == SetFlagTx(old(Contents()), f, name, owner)
    {
      var found := Find(rows, name);
      if found.None? || !rows[found.value].active {
        return Failed;
      }
      var id := found.value;
      if rows[id].owner != owner {
        return Failed;
      }
      ReflagKeepsIndexes(rows, f, owner, id);
      var ok := Write(Unflagged(rows, f, owner));
      ok := Write(Raised(rows, f, id));
      outcome := Committed;
    }

    // ---- reads, and ensuring an address -----------------------------------------

    method GetPrimaryAddressByPubkey(p: Pubkey) returns (id: Option<nat>)
      ensures id.Some? ==> ActiveFlagged(rows, p, Primary, id.value)
      ensures id.None? ==> forall i | 0 <= i < |rows| :: !ActiveFlagged(rows, p, Primary, i)
    {
      if i: nat :| i < |rows| && ActiveFlagged(rows, p, Primary, i) {
        return Some(i);
      }
      return None;
    }

    /** `candidate` is the name username.Generate came up with. */
    method EnsureAutoAddress(p: Pubkey, candidate: Name, now: int) returns (made: Option<nat>)
      requires Valid()
      modifies this
      ensures Valid()
      ensures Contents() == if HasActive(old(rows), p) then old(Contents())
                            else RegisterTx(old(Contents()), candidate, p, true, now).1
      ensures made == if !HasActive(old(rows), p) && RegisterTx(old(Contents()), candidate, p, true, now).0.Committed?
                      then Some(|old(rows)|) else None
    {
      if HasActive(rows, p) {
        return None;
      }
      var next := |rows|;
      var outcome := AtomicRegisterAddress(candidate, p, true, now);
      made := if outcome.Committed? then Some(next) else None;
    }

    /** In a state of any tame run, ensuring never changes who holds an address
        already, names the primary address whenever the pubkey ends up active, and
        reports `created` exactly when this call made that address. */
    method EnsurePrimaryAddress(p: Pubkey, candidate: Name, now: int) returns (id: Option<nat>, created: bool)
      requires Valid() && FlagInvariant(rows)
      modifies this
      ensures FlagInvariant(rows)
      ensures HasActive(old(rows), p) ==> Contents() == old(Contents())
      ensures id.Some? <==> HasActive(rows, p)
      ensures id.Some? ==> ActiveFlagged(rows, p, Primary, id.value)
      // it is made exactly for a pubkey without active address or flag on a revoked row,
      // and a candidate nobody ever held
      ensures created <==>
                && !HasActive(old(rows), p)
                && (forall i | 0 <= i < |old(rows)| :: old(rows)[i].name != candidate)
                && candidate.username !in reserved
                && (forall i | 0 <= i < |old(rows)| && old(rows)[i].owner == p :: old(rows)[i].flags == {})
      ensures created ==>
                && id == Some(|old(rows)|)
                && rows == old(rows) + [Row(candidate, p, true, BOTH_FLAGS, true, now)]
                && history == old(history) + [Interval(candidate, p, now, None)]
      ensures !created ==> Contents() == old(Contents())
    {
      id := GetPrimaryAddressByPubkey(p);
      assert HasActive(rows, p) ==> id.Some? by { assert CoveredFor(rows, p, Primary); }
      if id.Some? {
        return id, false;
      }
      ghost var before := Contents();
      StepKeepsFlagInvariantIff(before, Register(candidate, p, true, now));
      FirstAddressEffect(before, p, candidate, now);
      var made := EnsureAutoAddress(p, candidate, now);
      assert made.Some? ==> ActiveFlagged(rows, p, Primary, made.value);
      id := GetPrimaryAddressByPubkey(p);
      created := made.Some? && id.Some? && made == id;
    }
  }

  /** Registering an automatic address for a pubkey that has none. */
  lemma FirstAddressEffect(t: Tables, p: Pubkey, candidate: Name, now: int)
    requires !HasActive(t.rows, p)
    ensures var (outcome, t') := RegisterTx(t, candidate, p, true, now);
            && (outcome.Committed? <==>
                && (forall i | 0 <= i < |t.rows| :: t.rows[i].name != candidate)
                && candidate.username !in t.reserved
                && (forall i | 0 <= i < |t.rows| && t.rows[i].owner == p :: t.rows[i].flags == {}))
            && (outcome.Committed? ==>
                  && t'.rows == t.rows + [Row(candidate, p, true, BOTH_FLAGS, true, now)]
                  && t'.history == t.history + [Interval(candidate, p, now, None)])
            && (!outcome.Committed? ==> t' == t)
  {
    RegistryEffects.RegisterEffect(t, candidate, p, true, now);
    assert forall i | 0 <= i < |t.rows| :: !ActiveOf(t.rows, p, i);
    forall i | 0 <= i < |t.rows| && t.rows[i].owner == p ensures !t.rows[i].active {
      assert !ActiveOf(t.rows, p, i);
    }
    assert !HasReal(t.rows, p);
  }

  lemma CollidesWithRevoked(before: seq<Row>, id: nat, f: Flag, k: nat)
    requires IndexesHold(before) && id < |before| && f in before[id].flags
    requires OldestOther(before[id := before[id].(active := false)], before[id].owner, id, k)
    ensures !IndexesHold(Raised(before[id := before[id].(active := false)], f, k))
  {
    var rows := Raised(before[id := before[id].(active := false)], f, k);
    assert f == Primary || f == Nip05;
    assert rows[k].owner == rows[id].owner && f in rows[k].flags && f in rows[id].flags;
  }
}
