/** What a revocation leaves behind: the flags stay on the revoked row, and while that row
    stays with its owner the owner can be given no other address. */
module LockOut {
  import opened AddressTables
  import opened Registry
  import opened RegistryFlags

  /** p has no active address, and its revoked row i still carries both flags. */
  predicate LockedOut(rows: seq<Row>, p: Pubkey, i: nat) {
    && i < |rows| && rows[i].owner == p && !rows[i].active && rows[i].flags == BOTH_FLAGS
    && !HasActive(rows, p)
  }

  /** The operation would give p an active address it does not have. */
  predicate Gives(rows: seq<Row>, op: Op, p: Pubkey) {
    match op
    case Register(_, owner, _, _) => owner == p
    case Grant(_, owner, _) => owner == p
    case Transfer(id, to, _, _) => to == p && id < |rows| && rows[id].owner != p
    case _ => false
  }

  /** The operation transfers row i from p to somebody else. */
  predicate MovesAway(t: Tables, op: Op, p: Pubkey, i: nat) {
    op.Transfer? && op.id == i && op.to != p && Apply(t, op).0.Committed?
  }

  lemma BothIff(flags: set<Flag>)
    ensures flags == BOTH_FLAGS <==> Primary in flags && Nip05 in flags
  {
    forall f: Flag | f in flags ensures f in BOTH_FLAGS {
      assert f == Primary || f == Nip05;
    }
    assert forall f: Flag | f in BOTH_FLAGS :: f == Primary || f == Nip05;
  }

  /** Revoking a flagged active address of a pubkey, where it commits, locks it out. */
  lemma RevocationLocksOut(t: Tables, name: Name, now: int)
    requires FlagInvariant(t.rows) && RevokeTx(t, name, now).0.Committed?
    requires var i := Find(t.rows, name).value; t.rows[i].active && t.rows[i].flags != {}
    ensures var i := Find(t.rows, name).value;
            LockedOut(RevokeTx(t, name, now).1.rows, t.rows[i].owner, i)
  {
    var i := Find(t.rows, name).value;
    var rows, p := t.rows, t.rows[i].owner;
    var rows' := RevokeTx(t, name, now).1.rows;
    assert !HasOtherActive(rows, p, i);
    forall f: Flag ensures f in rows[i].flags {
      assert ActiveOf(rows, p, i) && CoveredFor(rows, p, f);
      var k :| 0 <= k < |rows| && ActiveFlagged(rows, p, f, k);
      assert k == i;
    }
    BothIff(rows[i].flags);
    assert forall k | 0 <= k < |rows| && k != i :: ActiveOf(rows', p, k) == ActiveOf(rows, p, k);
  }

  /** Nothing gives a locked out pubkey an address. */
  lemma LockedOutGetsNothing(t: Tables, op: Op, p: Pubkey, i: nat)
    requires LockedOut(t.rows, p, i) && Gives(t.rows, op, p)
    ensures !Apply(t, op).0.Committed?
  {
    assert t.rows[i].flags != {} by { assert Primary in t.rows[i].flags; }
    match op
    case Register(name, owner, auto, now) => assert Blocked(t.rows, p, false);
    case Grant(name, owner, now) => assert Blocked(t.rows, p, false);
    case Transfer(id, to, picks, now) => assert i != id && TransferBlocked(t.rows, id, p);
  }

  /** One step ends the lock-out if and only if it moves the revoked row away; the pubkey
      can then be granted any unused name. */
  lemma LockOutEndsIff(t: Tables, op: Op, p: Pubkey, i: nat)
    requires IndexesHold(t.rows) && LockedOut(t.rows, p, i) && Legal(t, op)
    ensures LockedOut(Apply(t, op).1.rows, p, i) <==> !MovesAway(t, op, p, i)
    ensures MovesAway(t, op, p, i) ==>
              forall name, now :: !NameUsed(t.rows, name) ==> GrantTx(Apply(t, op).1, name, p, now).0.Committed?
  {
    var rows, rows' := t.rows, Apply(t, op).1.rows;
    if Apply(t, op).0.Committed? && Gives(rows, op, p) {
      LockedOutGetsNothing(t, op, p, i);
    }
    if Apply(t, op).0.Committed? {
      match op
      case Transfer(id, to, picks, now) => TransferFromLocked(t, id, to, picks, now, p, i);
      case Register(name, owner, auto, now) => ClaimKeepsLockOut(t, op, p, i);
      case Grant(name, owner, now) => ClaimKeepsLockOut(t, op, p, i);
      case Revoke(name, now) =>
        assert forall k | 0 <= k < |rows| :: ActiveOf(rows', p, k) ==> ActiveOf(rows, p, k);
      case SetFlag(f, name, owner, now) =>
        assert owner != p by { assert !ActiveOf(rows, p, Find(rows, name).value); }
        assert forall k | 0 <= k < |rows| :: ActiveOf(rows', p, k) == ActiveOf(rows, p, k);
    }
  }

  /** Claims of others leave p's rows alone. */
  lemma ClaimKeepsLockOut(t: Tables, op: Op, p: Pubkey, i: nat)
    requires LockedOut(t.rows, p, i) && (op.Register? || op.Grant?) && op.owner != p
    ensures LockedOut(Apply(t, op).1.rows, p, i)
  {
    var rows, rows' := t.rows, Apply(t, op).1.rows;
    assert forall k | 0 <= k < |rows| :: rows[k].owner == p ==> rows'[k] == rows[k];
    forall k | 0 <= k < |rows'| ensures !ActiveOf(rows', p, k) {
      assert k < |rows| ==> !ActiveOf(rows, p, k);
    }
  }

  lemma TransferFromLocked(t: Tables, id: nat, to: Pubkey, picks: Picks, now: int, p: Pubkey, i: nat)
    requires IndexesHold(t.rows) && LockedOut(t.rows, p, i) && LegalPicks(t.rows, id, picks)
    requires TransferTx(t, id, to, picks, now).0.Committed?
    requires to == p ==> t.rows[id].owner == p
    ensures var t' := TransferTx(t, id, to, picks, now).1;
            && (LockedOut(t'.rows, p, i) <==> !(id == i && to != p))
            && (id == i && to != p ==>
                forall name, later :: !NameUsed(t.rows, name) ==> GrantTx(t', name, p, later).0.Committed?)
  {
    var rows, t' := t.rows, TransferTx(t, id, to, picks, now).1;
    TransferRows(t, id, to, picks, now);
    forall k | 0 <= k < |rows| ensures !ActiveOf(t'.rows, p, k) {
      assert !ActiveOf(rows, p, k) && !ActiveOf(rows, p, id);
    }
    if id == i && to != p {
      assert OnePerOwner(rows, Primary) && OnePerOwner(rows, Nip05);
      forall k | 0 <= k < |rows| && t'.rows[k].owner == p ensures t'.rows[k].flags == {} {
        assert !HasOtherActive(rows, p, i);
        FlagsNonEmpty(t'.rows[k].flags);
      }
      assert forall name :: NameUsed(t'.rows, name) ==> NameUsed(rows, name);
    } else if id == i {
      BothIff(t'.rows[i].flags);
    } else {
      LockKeepsFlags(t, id, to, picks, now, p, i);
    }
  }

  /** A transfer of another row takes no flag from the revoked one. */
  lemma LockKeepsFlags(t: Tables, id: nat, to: Pubkey, picks: Picks, now: int, p: Pubkey, i: nat)
    requires LockedOut(t.rows, p, i) && LegalPicks(t.rows, id, picks) && id != i
    requires TransferTx(t, id, to, picks, now).0.Committed?
    ensures TransferTx(t, id, to, picks, now).1.rows[i].flags == BOTH_FLAGS
  {
    var rows' := TransferTx(t, id, to, picks, now).1.rows;
    TransferRows(t, id, to, picks, now);
    BothIff(rows'[i].flags);
  }

  ghost predicate LegalFrom(t: Tables, ops: seq<Op>) {
    forall k | 0 <= k < |ops| :: Legal(After(t, ops[..k]), ops[k])
  }

  predicate LockedAt(t: Tables, ops: seq<Op>, p: Pubkey, i: nat, k: nat)
    requires k <= |ops|
  {
    LockedOut(After(t, ops[..k]).rows, p, i)
  }

  predicate MovedAwayAt(t: Tables, ops: seq<Op>, p: Pubkey, i: nat, k: nat)
    requires k < |ops|
  {
    MovesAway(After(t, ops[..k]), ops[k], p, i)
  }

  /** Operation k gives p an address, and commits. */
  predicate GivenAt(t: Tables, ops: seq<Op>, p: Pubkey, k: nat)
    requires k < |ops|
  {
    Gives(After(t, ops[..k]).rows, ops[k], p) && Apply(After(t, ops[..k]), ops[k]).0.Committed?
  }

  lemma {:induction false} IndexesStay(t: Tables, ops: seq<Op>, k: nat)
    requires IndexesHold(t.rows) && LegalFrom(t, ops) && k <= |ops|
    ensures IndexesHold(After(t, ops[..k]).rows)
  {
    if k == 0 {
    } else {
      IndexesStay(t, ops, k - 1);
      assert ops[..k][..k - 1] == ops[..k - 1];
      ApplyKeepsIndexes(After(t, ops[..k - 1]), ops[k - 1]);
    }
  }

  lemma LockedStep(t: Tables, ops: seq<Op>, p: Pubkey, i: nat, k: nat)
    requires IndexesHold(t.rows) && LegalFrom(t, ops) && k < |ops| && LockedAt(t, ops, p, i, k)
    ensures LockedAt(t, ops, p, i, k + 1) <==> !MovedAwayAt(t, ops, p, i, k)
    ensures !GivenAt(t, ops, p, k)
  {
    IndexesStay(t, ops, k);
    var before := After(t, ops[..k]);
    assert ops[..k + 1][..k] == ops[..k];
    LockOutEndsIff(before, ops[k], p, i);
    if Gives(before.rows, ops[k], p) {
      LockedOutGetsNothing(before, ops[k], p, i);
    }
  }

  lemma {:induction false} StaysLocked(t: Tables, ops: seq<Op>, p: Pubkey, i: nat, n: nat)
    requires IndexesHold(t.rows) && LockedOut(t.rows, p, i) && LegalFrom(t, ops) && n <= |ops|
    requires forall k | 0 <= k < n :: !MovedAwayAt(t, ops, p, i, k)
    ensures LockedAt(t, ops, p, i, n)
  {
    if n == 0 {
      assert ops[..0] == [];
    } else {
      StaysLocked(t, ops, p, i, n - 1);
      LockedStep(t, ops, p, i, n - 1);
    }
  }

  /** Over every run: a pubkey is locked out throughout the first n operations if and only
      if none of them moves the revoked row away from it, and as long as that lasts
      nothing gives it an address. */
  lemma LockedOutUntilMovedAway(t: Tables, ops: seq<Op>, p: Pubkey, i: nat, n: nat)
    requires IndexesHold(t.rows) && LockedOut(t.rows, p, i) && LegalFrom(t, ops) && n <= |ops|
    ensures (forall k | 0 <= k <= n :: LockedAt(t, ops, p, i, k)) <==>
            (forall k | 0 <= k < n :: !MovedAwayAt(t, ops, p, i, k))
    ensures (forall k | 0 <= k < n :: !MovedAwayAt(t, ops, p, i, k)) ==>
              forall k | 0 <= k < n :: !GivenAt(t, ops, p, k)
  {
    if forall k | 0 <= k <= n :: LockedAt(t, ops, p, i, k) {
      forall k | 0 <= k < n ensures !MovedAwayAt(t, ops, p, i, k) {
        assert LockedAt(t, ops, p, i, k) && LockedAt(t, ops, p, i, k + 1);
        LockedStep(t, ops, p, i, k);
      }
    }
    if forall k | 0 <= k < n :: !MovedAwayAt(t, ops, p, i, k) {
      forall k | 0 <= k <= n ensures LockedAt(t, ops, p, i, k) {
        StaysLocked(t, ops, p, i, k);
      }
      forall k | 0 <= k < n ensures !GivenAt(t, ops, p, k) {
        LockedStep(t, ops, p, i, k);
      }
    }
  }
}
