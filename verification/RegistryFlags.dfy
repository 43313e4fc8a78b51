/** What the one-primary / one-NIP-05 flags satisfy over every serial run, and
    exactly when each transaction commits. */
module RegistryFlags {
  import opened AddressTables
  import opened Registry

  /** A pubkey with an active address has an active row carrying flag f. With
      `OnePerOwner` that row is the only one of the pubkey carrying it. */
  ghost predicate CoveredFor(rows: seq<Row>, p: Pubkey, f: Flag) {
    HasActive(rows, p) ==> exists i | 0 <= i < |rows| :: ActiveFlagged(rows, p, f, i)
  }

  ghost predicate Covered(rows: seq<Row>) {
    forall p: Pubkey, f: Flag :: CoveredFor(rows, p, f)
  }

  ghost predicate FlagInvariant(rows: seq<Row>) {
    IndexesHold(rows) && Covered(rows)
  }

  /** A pubkey moving its only active address to itself: the one step that strips
      a pubkey of its flags. */
  predicate MovesLastToSelf(t: Tables, op: Op) {
    && op.Transfer? && op.id < |t.rows|
    && t.rows[op.id].active && t.rows[op.id].owner == op.to
    && !HasOtherActive(t.rows, op.to, op.id)
  }

  // ---- registration and grant -------------------------------------------------

  lemma ClaimKeepsIndexes(t: Tables, first: bool, promote: bool, name: Name, owner: Pubkey, auto: bool, now: int)
    requires IndexesHold(t.rows)
    ensures IndexesHold(Claim(t, first, promote, name, owner, auto, now).1.rows)
  {
    ClaimGuardIsIndexes(t, first, promote, name, owner, auto, now);
  }

  lemma ClaimKeepsCovered(t: Tables, promote: bool, name: Name, owner: Pubkey, auto: bool, now: int)
    requires FlagInvariant(t.rows)
    requires promote ==> HasActive(t.rows, owner)
    ensures Covered(Claim(t, !HasActive(t.rows, owner), promote, name, owner, auto, now).1.rows)
  {
    var (outcome, t') := Claim(t, !HasActive(t.rows, owner), promote, name, owner, auto, now);
    if outcome.Committed? {
      var n := |t.rows|;
      var rows, rows' := t.rows, t'.rows;
      assert forall i | 0 <= i < n :: rows'[i].owner == rows[i].owner && rows'[i].active == rows[i].active;
      assert forall i | 0 <= i < n && (rows[i].owner != owner || !promote) :: rows'[i] == rows[i];
      forall p: Pubkey, f: Flag ensures CoveredFor(rows', p, f) {
        if p == owner && (promote || !HasActive(rows, owner)) {
          assert f == Primary || f == Nip05;
          assert ActiveFlagged(rows', p, f, n);
        } else if HasActive(rows', p) {
          var i :| 0 <= i < |rows'| && ActiveOf(rows', p, i);
          if i < n { assert ActiveOf(rows, p, i); }
          assert CoveredFor(rows, p, f);
          var j :| 0 <= j < n && ActiveFlagged(rows, p, f, j);
          assert ActiveFlagged(rows', p, f, j);
        }
      }
    }
  }

  // ---- transfer ---------------------------------------------------------------

  /** Whether row i carries f after row `id` moved to `to`. */
  predicate HoldsAfterTransfer(rows: seq<Row>, id: nat, to: Pubkey, picks: Picks, f: Flag, i: nat)
    requires id < |rows| && i < |rows|
  {
    if i == id then !HasActive(rows, to)
    else f in rows[i].flags ||
         (HasOtherActive(rows, rows[id].owner, id) && f in rows[id].flags && i == Picked(picks, f))
  }

  /** A committed transfer row by row: only row `id` changes owner, and a flag sits
      on another row if it did before or was handed to that row. */
  lemma TransferRows(t: Tables, id: nat, to: Pubkey, picks: Picks, now: int)
    requires TransferTx(t, id, to, picks, now).0.Committed?
    requires LegalPicks(t.rows, id, picks)
    ensures var rows, rows' := t.rows, TransferTx(t, id, to, picks, now).1.rows;
            && |rows'| == |rows|
            && (forall i | 0 <= i < |rows| ::
                  && rows'[i].name == rows[i].name && rows'[i].active == rows[i].active
                  && rows'[i].auto == rows[i].auto && rows'[i].created == rows[i].created
                  && rows'[i].owner == if i == id then to else rows[i].owner)
            && (forall i, f: Flag | 0 <= i < |rows| ::
                  f in rows'[i].flags <==> HoldsAfterTransfer(rows, id, to, picks, f, i))
  {
    var rows := t.rows;
    var rows1 := PassedOn(Moved(rows, id, to), rows, id, Primary, picks);
    var rows2 := PassedOn(rows1, rows, id, Nip05, picks);
    assert rows2 == TransferTx(t, id, to, picks, now).1.rows;
    forall i, f: Flag | 0 <= i < |rows|
      ensures f in rows2[i].flags <==> HoldsAfterTransfer(rows, id, to, picks, f, i)
    {
      assert f == Primary || f == Nip05;
    }
  }

  lemma TransferKeepsIndexes(t: Tables, id: nat, to: Pubkey, picks: Picks, now: int)
    requires IndexesHold(t.rows) && LegalPicks(t.rows, id, picks)
    ensures IndexesHold(TransferTx(t, id, to, picks, now).1.rows)
  {
    var (outcome, t') := TransferTx(t, id, to, picks, now);
    if outcome.Committed? {
      TransferRows(t, id, to, picks, now);
      assert UniqueNames(t'.rows);
      TransferKeepsFlagUnique(t, id, to, picks, now, Primary);
      TransferKeepsFlagUnique(t, id, to, picks, now, Nip05);
    }
  }

  lemma TransferKeepsFlagUnique(t: Tables, id: nat, to: Pubkey, picks: Picks, now: int, f: Flag)
    requires IndexesHold(t.rows) && LegalPicks(t.rows, id, picks)
    requires TransferTx(t, id, to, picks, now).0.Committed?
    ensures OnePerOwner(TransferTx(t, id, to, picks, now).1.rows, f)
  {
    var rows, rows' := t.rows, TransferTx(t, id, to, picks, now).1.rows;
    var others := HasOtherActive(rows, rows[id].owner, id);
    TransferRows(t, id, to, picks, now);
    assert OnePerOwner(rows, f) by { assert f == Primary || f == Nip05; }
    forall i, j | 0 <= i < j < |rows'| && f in rows'[i].flags && f in rows'[j].flags
      ensures rows'[i].owner != rows'[j].owner
    {
      if i == id || j == id {
        var k := if i == id then j else i;
        assert rows[k].owner != to;
      } else if f in rows[id].flags && others {
        // nobody but row `id` held the flag for `from`; its heir alone holds it now
        assert forall l | 0 <= l < |rows| && l != id && f in rows[l].flags :: rows[l].owner != rows[id].owner;
      }
    }
  }

  /** A transfer keeps every pubkey covered, unless it moves a pubkey's only active
      address to that same pubkey. */
  lemma TransferKeepsCoveredIff(t: Tables, id: nat, to: Pubkey, picks: Picks, now: int)
    requires FlagInvariant(t.rows) && LegalPicks(t.rows, id, picks)
    requires TransferTx(t, id, to, picks, now).0.Committed?
    ensures Covered(TransferTx(t, id, to, picks, now).1.rows)
            <==> !MovesLastToSelf(t, Transfer(id, to, picks, now))
  {
    var rows, rows' := t.rows, TransferTx(t, id, to, picks, now).1.rows;
    var from := rows[id].owner;
    TransferRows(t, id, to, picks, now);
    if MovesLastToSelf(t, Transfer(id, to, picks, now)) {
      assert ActiveOf(rows, to, id) && ActiveOf(rows', to, id);
      forall i | 0 <= i < |rows'| ensures !ActiveFlagged(rows', to, Primary, i) {
        assert i != id ==> !ActiveOf(rows, to, i);
      }
      assert !CoveredFor(rows', to, Primary);
    } else {
      forall p: Pubkey, f: Flag ensures CoveredFor(rows', p, f) {
        TransferKeepsCoveredFor(t, id, to, picks, now, p, f);
      }
    }
  }

  lemma TransferKeepsCoveredFor(t: Tables, id: nat, to: Pubkey, picks: Picks, now: int, p: Pubkey, f: Flag)
    requires FlagInvariant(t.rows) && LegalPicks(t.rows, id, picks)
    requires TransferTx(t, id, to, picks, now).0.Committed?
    requires !MovesLastToSelf(t, Transfer(id, to, picks, now))
    ensures CoveredFor(TransferTx(t, id, to, picks, now).1.rows, p, f)
  {
    var rows, rows' := t.rows, TransferTx(t, id, to, picks, now).1.rows;
    var from := rows[id].owner;
    TransferRows(t, id, to, picks, now);
    if HasActive(rows', p) {
      var i :| 0 <= i < |rows'| && ActiveOf(rows', p, i);
      if p == to && !HasActive(rows, to) {
        assert i == id by { if i != id { assert ActiveOf(rows, to, i); } }
        assert ActiveFlagged(rows', p, f, id);
      } else {
        // p had an active row before, and still has one other than the moved row
        assert HasActive(rows, p) by { if i != id { assert ActiveOf(rows, p, i); } }
        assert CoveredFor(rows, p, f);
        var j :| 0 <= j < |rows| && ActiveFlagged(rows, p, f, j);
        if j != id {
          assert ActiveFlagged(rows', p, f, j);
        } else {
          assert HasOtherActive(rows, from, id) by {
            if i != id { assert ActiveOf(rows, from, i); }
          }
          var k := Picked(picks, f);
          assert ActiveOf(rows, from, k) && k != id;
          assert ActiveFlagged(rows', p, f, k);
        }
      }
    }
  }

  // ---- revocation -------------------------------------------------------------

  lemma RevokeKeepsFlagInvariant(t: Tables, name: Name, now: int)
    requires FlagInvariant(t.rows)
    ensures FlagInvariant(RevokeTx(t, name, now).1.rows)
  {
    var (outcome, t') := RevokeTx(t, name, now);
    if outcome.Committed? {
      var id := Find(t.rows, name).value;
      var rows, rows' := t.rows, t'.rows;
      forall p: Pubkey, f: Flag ensures CoveredFor(rows', p, f) {
        if HasActive(rows', p) {
          var i :| 0 <= i < |rows'| && ActiveOf(rows', p, i);
          assert i != id && ActiveOf(rows, p, i);
          assert CoveredFor(rows, p, f);
          var j :| 0 <= j < |rows| && ActiveFlagged(rows, p, f, j);
          assert j != id;
          assert ActiveFlagged(rows', p, f, j);
        }
      }
    }
  }

  // ---- set-primary and set-NIP-05 ---------------------------------------------

  lemma RaisedKeepsIndexes(rows: seq<Row>, f: Flag, k: nat)
    requires IndexesHold(rows) && k < |rows|
    requires forall j | 0 <= j < |rows| && rows[j].owner == rows[k].owner :: f !in rows[j].flags
    ensures IndexesHold(Raised(rows, f, k))
  {
    var rows' := Raised(rows, f, k);
    assert forall j | 0 <= j < |rows| && j != k :: rows'[j] == rows[j];
    assert forall g: Flag | g != f :: g in rows'[k].flags <==> g in rows[k].flags;
  }

  lemma ReflagKeepsIndexes(rows: seq<Row>, g: Flag, p: Pubkey, id: nat)
    requires IndexesHold(rows) && id < |rows| && rows[id].owner == p
    ensures IndexesHold(Unflagged(rows, g, p))
    ensures Reflagged(rows, g, p, id) == Raised(Unflagged(rows, g, p), g, id)
    ensures IndexesHold(Reflagged(rows, g, p, id))
  {
    var cleared := Unflagged(rows, g, p);
    RaisedKeepsIndexes(cleared, g, id);
    ReflaggedIsRaised(rows, g, p, id);
  }

  lemma ReflaggedIsRaised(rows: seq<Row>, g: Flag, p: Pubkey, id: nat)
    requires id < |rows| && rows[id].owner == p
    ensures Reflagged(rows, g, p, id) == Raised(Unflagged(rows, g, p), g, id)
  {
    assert rows[id].flags - {g} + {g} == rows[id].flags + {g};
  }

  lemma SetFlagKeepsFlagInvariant(t: Tables, g: Flag, name: Name, owner: Pubkey)
    requires FlagInvariant(t.rows)
    ensures FlagInvariant(SetFlagTx(t, g, name, owner).1.rows)
  {
    var (outcome, t') := SetFlagTx(t, g, name, owner);
    if outcome.Committed? {
      var id := Find(t.rows, name).value;
      var rows, rows' := t.rows, t'.rows;
      assert forall i | 0 <= i < |rows| ::
          rows'[i].name == rows[i].name && rows'[i].owner == rows[i].owner && rows'[i].active == rows[i].active;
      assert forall i | 0 <= i < |rows| ::
          g in rows'[i].flags <==> i == id || (g in rows[i].flags && rows[i].owner != owner);
      assert forall i, f: Flag | 0 <= i < |rows| && f != g :: f in rows'[i].flags <==> f in rows[i].flags;
      ReflagKeepsIndexes(rows, g, owner, id);
      forall p: Pubkey, f: Flag ensures CoveredFor(rows', p, f) {
        if HasActive(rows', p) {
          var i :| 0 <= i < |rows'| && ActiveOf(rows', p, i);
          assert ActiveOf(rows, p, i);
          if p == owner && f == g {
            assert ActiveFlagged(rows', p, f, id);
          } else {
            assert CoveredFor(rows, p, f);
            var j :| 0 <= j < |rows| && ActiveFlagged(rows, p, f, j);
            assert ActiveFlagged(rows', p, f, j);
          }
        }
      }
    }
  }

  // ---- steps and runs ---------------------------------------------------------

  lemma ApplyKeepsIndexes(t: Tables, op: Op)
    requires IndexesHold(t.rows) && Legal(t, op)
    ensures IndexesHold(Apply(t, op).1.rows)
  {
    match op
    case Register(name, owner, auto, now) =>
      ClaimKeepsIndexes(t, !HasActive(t.rows, owner), Promotes(t.rows, owner, auto), name, owner, auto, now);
    case Grant(name, owner, now) =>
      ClaimKeepsIndexes(t, !HasActive(t.rows, owner), false, name, owner, false, now);
    case Transfer(id, to, picks, now) => TransferKeepsIndexes(t, id, to, picks, now);
    case Revoke(name, now) =>
    case SetFlag(f, name, owner, now) =>
      if Apply(t, op).0.Committed? {
        ReflagKeepsIndexes(t.rows, f, owner, Find(t.rows, name).value);
      }
  }

  /** The flag invariant survives every step but the self-transfer of a last address,
      and that step, when it commits, always breaks it. */
  lemma StepKeepsFlagInvariantIff(t: Tables, op: Op)
    requires FlagInvariant(t.rows) && Legal(t, op)
    ensures IndexesHold(Apply(t, op).1.rows)
    ensures FlagInvariant(Apply(t, op).1.rows)
            <==> !(MovesLastToSelf(t, op) && Apply(t, op).0.Committed?)
  {
    match op
    case Register(name, owner, auto, now) =>
      var first, promote := !HasActive(t.rows, owner), Promotes(t.rows, owner, auto);
      ClaimKeepsIndexes(t, first, promote, name, owner, auto, now);
      ClaimKeepsCovered(t, promote, name, owner, auto, now);
    case Grant(name, owner, now) =>
      ClaimKeepsIndexes(t, !HasActive(t.rows, owner), false, name, owner, false, now);
      ClaimKeepsCovered(t, false, name, owner, false, now);
    case Transfer(id, to, picks, now) =>
      TransferKeepsIndexes(t, id, to, picks, now);
      if Apply(t, op).0.Committed? {
        TransferKeepsCoveredIff(t, id, to, picks, now);
      }
    case Revoke(name, now) =>
      RevokeKeepsFlagInvariant(t, name, now);
    case SetFlag(f, name, owner, now) =>
      SetFlagKeepsFlagInvariant(t, f, name, owner);
  }

  /** No step of the run moves a pubkey's last active address to itself. */
  ghost predicate Tame(reserved: set<string>, ops: seq<Op>) {
    ops == [] ||
    var init, last := ops[..|ops| - 1], ops[|ops| - 1];
    Tame(reserved, init) && !MovesLastToSelf(Run(reserved, init), last)
  }

  /** In every state of a tame serial run, each pubkey with an active address has
      exactly one active primary and one active NIP-05 row, and no pubkey has two
      flagged rows even counting inactive ones. */
  lemma {:induction false} FlagsHoldInEveryRun(reserved: set<string>, ops: seq<Op>)
    requires SerialRun(reserved, ops) && Tame(reserved, ops)
    ensures FlagInvariant(Run(reserved, ops).rows)
  {
    if ops == [] {
    } else {
      var init, last := ops[..|ops| - 1], ops[|ops| - 1];
      FlagsHoldInEveryRun(reserved, init);
      StepKeepsFlagInvariantIff(Run(reserved, init), last);
    }
  }

  /** The reading of the invariant a caller uses: who the flagged row of p is. */
  lemma ExactlyOneFlagged(rows: seq<Row>, p: Pubkey, f: Flag)
    requires FlagInvariant(rows) && HasActive(rows, p)
    ensures exists i | 0 <= i < |rows| ::
              ActiveFlagged(rows, p, f, i)
              && forall j | 0 <= j < |rows| && j != i :: !(rows[j].owner == p && f in rows[j].flags)
  {
    assert CoveredFor(rows, p, f);
    var i :| 0 <= i < |rows| && ActiveFlagged(rows, p, f, i);
    assert OnePerOwner(rows, f) by { assert f == Primary || f == Nip05; }
    forall j | 0 <= j < |rows| && j != i ensures !(rows[j].owner == p && f in rows[j].flags) {
      if j < i { assert rows[i].owner == p; } else { assert rows[i].owner == p; }
    }
  }

  // ---- exactly when a transaction commits -------------------------------------

  /** A registration goes through exactly for a name no row ever held, not reserved,
      wanted by a claimant whose revoked rows hold no flag in its way. */
  lemma RegisterCommitsIff(t: Tables, name: Name, owner: Pubkey, auto: bool, now: int)
    requires FlagInvariant(t.rows)
    ensures RegisterTx(t, name, owner, auto, now).0.Committed? <==>
            && !NameUsed(t.rows, name) && name.username !in t.reserved
            && !(auto && HasActive(t.rows, owner))
            && (HasActive(t.rows, owner) ||
                forall i | 0 <= i < |t.rows| && t.rows[i].owner == owner :: t.rows[i].flags == {})
  {
    if Promotes(t.rows, owner, auto) {
      ExactlyOneFlagged(t.rows, owner, Primary);
      ExactlyOneFlagged(t.rows, owner, Nip05);
      forall i | 0 <= i < |t.rows| && t.rows[i].owner == owner && !t.rows[i].active ensures t.rows[i].flags == {} {
        FlagsNonEmpty(t.rows[i].flags);
      }
    }
  }

  /** A grant goes through exactly for a name no row ever held, reserved or not, under
      the same condition on the pubkey's flags; a transfer of another row, for whoever
      owns it now, under that condition alone. */
  lemma GrantCommitsIff(t: Tables, name: Name, owner: Pubkey, now: int)
    ensures GrantTx(t, name, owner, now).0.Committed? <==>
            && !NameUsed(t.rows, name)
            && (HasActive(t.rows, owner) ||
                forall i | 0 <= i < |t.rows| && t.rows[i].owner == owner :: t.rows[i].flags == {})
  {
  }

  lemma TransferCommitsIff(t: Tables, id: nat, to: Pubkey, picks: Picks, now: int)
    requires id < |t.rows|
    ensures TransferTx(t, id, to, picks, now).0.Committed? <==>
            || HasActive(t.rows, to)
            || forall i | 0 <= i < |t.rows| && i != id && t.rows[i].owner == to :: t.rows[i].flags == {}
  {
  }

  /** The first real name of a pubkey that only had auto-assigned addresses becomes its
      sole flagged row; the auto-assigned ones stay active as plain aliases, and nobody
      else's row changes. */
  lemma FirstRealNameTakesOver(t: Tables, name: Name, owner: Pubkey, now: int)
    requires FlagInvariant(t.rows) && HasActive(t.rows, owner) && !HasReal(t.rows, owner)
    requires RegisterTx(t, name, owner, false, now).0.Committed?
    ensures var rows, rows' := t.rows, RegisterTx(t, name, owner, false, now).1.rows;
            && |rows'| == |rows| + 1
            && rows'[|rows|] == Row(name, owner, true, BOTH_FLAGS, false, now)
            && forall i | 0 <= i < |rows| ::
                 rows'[i] == if rows[i].owner == owner then rows[i].(flags := {}) else rows[i]
  {
    var rows, rows' := t.rows, RegisterTx(t, name, owner, false, now).1.rows;
    ExactlyOneFlagged(rows, owner, Primary);
    ExactlyOneFlagged(rows, owner, Nip05);
    forall i | 0 <= i < |rows|
      ensures rows'[i] == if rows[i].owner == owner then rows[i].(flags := {}) else rows[i]
    {
      FlagsNonEmpty(rows[i].flags);
    }
  }

  /** Contrary to its comment, a committed revocation never promotes another row: it
      commits exactly when the row carries no flag or is the owner's last active one,
      and then it changes nothing but that row's `active`. */
  lemma RevokeNeverPromotes(t: Tables, name: Name, now: int)
    requires IndexesHold(t.rows)
    ensures RevokeTx(t, name, now).0.Committed? <==>
            exists i | 0 <= i < |t.rows| ::
              t.rows[i].name == name
              && (t.rows[i].flags == {} || !HasOtherActive(t.rows, t.rows[i].owner, i))
    ensures RevokeTx(t, name, now).0.Committed? ==>
            && |RevokeTx(t, name, now).1.rows| == |t.rows|
            && forall i | 0 <= i < |t.rows| ::
                 RevokeTx(t, name, now).1.rows[i] ==
                 if t.rows[i].name == name then t.rows[i].(active := false) else t.rows[i]
  {
    match Find(t.rows, name)
    case None =>
    case Some(id) =>
      assert forall i | 0 <= i < |t.rows| && t.rows[i].name == name :: i == id;
  }

  /** It happens: two grants to one pubkey, and its primary address cannot be revoked. */
  lemma RevokeOfPrimaryFails(p: Pubkey, a: Name, b: Name)
    requires a != b
    ensures var ops := [Grant(a, p, 1), Grant(b, p, 2)];
            && SerialRun({}, ops) && Tame({}, ops) && NameActive(Run({}, ops).rows, a)
            && Apply(Run({}, ops), Revoke(a, 3)) == (Failed, Run({}, ops))
  {
    var first, ops := [Grant(a, p, 1)], [Grant(a, p, 1), Grant(b, p, 2)];
    assert first[..|first| - 1] == [] && ops[..|ops| - 1] == first;
    assert SerialRun({}, []) && Tame({}, []);
    assert SerialRun({}, first) && Tame({}, first);
    var t1, t2 := Run({}, first), Run({}, ops);
    assert t1 == GrantTx(Tables([], [], {}), a, p, 1).1;
    assert t1.rows == [Row(a, p, true, BOTH_FLAGS, false, 1)];
    assert ActiveOf(t1.rows, p, 0);
    assert t2.rows == [Row(a, p, true, BOTH_FLAGS, false, 1), Row(b, p, true, {}, false, 2)];
    assert ActiveOf(t2.rows, p, 1) && HasOtherActive(t2.rows, p, 0);
    assert Find(t2.rows, a) == Some(0) by { assert t2.rows[..1] == [t2.rows[0]]; }
  }
}
