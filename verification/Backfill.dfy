/** The backfill statements of migration 005, which every service start runs again. */
module Backfill {
  import opened AddressTables
  import opened Registry
  import opened RegistryFlags
  import opened Ownership
  import AddressStore

  /** Row i is active, and the active row of least id its owner has. */
  predicate FirstActive(rows: seq<Row>, i: nat)
    requires i < |rows|
  {
    rows[i].active && forall j | 0 <= j < i :: !ActiveOf(rows, rows[i].owner, j)
  }

  predicate HasFlag(rows: seq<Row>, p: Pubkey, f: Flag) {
    exists i | 0 <= i < |rows| :: rows[i].owner == p && f in rows[i].flags
  }

  function Filled(rows: seq<Row>, f: Flag): (r: seq<Row>)
    ensures |r| == |rows|
  {
    seq(|rows|, i requires 0 <= i < |rows| =>
      if !HasFlag(rows, rows[i].owner, f) && FirstActive(rows, i)
      then rows[i].(flags := rows[i].flags + {f}) else rows[i])
  }

  predicate HasOpen(history: seq<Interval>, row: Row) {
    exists k | 0 <= k < |history| :: OpenFor(history[k], row)
  }

  /** The intervals the third statement inserts. */
  function Missing(rows: seq<Row>, history: seq<Interval>): seq<Interval> {
    if rows == [] then []
    else
      var row := rows[|rows| - 1];
      Missing(rows[..|rows| - 1], history) +
      if row.active && !HasOpen(history, row) then [Interval(row.name, row.owner, row.created, None)] else []
  }

  function Backfilled(t: Tables): Tables {
    var rows := Filled(Filled(t.rows, Primary), Nip05);
    t.(rows := rows, history := t.history + Missing(rows, t.history))
  }

  method Rerun(s: AddressStore.Store)
    requires s.Valid()
    modifies s
    ensures s.Valid()
    ensures s.Contents() == Backfilled(old(s.Contents()))
  {
    FillKeepsIndexes(s.rows, Primary);
    var ok := s.Write(Filled(s.rows, Primary));
    FillKeepsIndexes(s.rows, Nip05);
    ok := s.Write(Filled(s.rows, Nip05));
    s.history := s.history + Missing(s.rows, s.history);
  }

  // ---- the indexes accept it --------------------------------------------------

  lemma FillKeepsIndexes(rows: seq<Row>, f: Flag)
    requires IndexesHold(rows)
    ensures IndexesHold(Filled(rows, f))
  {
    var rows' := Filled(rows, f);
    assert forall i | 0 <= i < |rows| :: rows'[i].name == rows[i].name && rows'[i].owner == rows[i].owner;
    forall g: Flag ensures OnePerOwner(rows', g) {
      assert OnePerOwner(rows, g) by { assert g == Primary || g == Nip05; }
      forall i, j | 0 <= i < j < |rows'| && g in rows'[i].flags && g in rows'[j].flags
        ensures rows'[i].owner != rows'[j].owner
      {
        if g == f && !HasFlag(rows, rows[i].owner, f) {
          assert FirstActive(rows, i) && ActiveOf(rows, rows[i].owner, i);
        }
      }
    }
  }

  // ---- a rerun changes nothing ------------------------------------------------

  lemma FillOfCovered(rows: seq<Row>, f: Flag)
    requires Covered(rows)
    ensures Filled(rows, f) == rows
  {
    forall i | 0 <= i < |rows| ensures Filled(rows, f)[i] == rows[i] {
      if FirstActive(rows, i) {
        assert ActiveOf(rows, rows[i].owner, i);
        assert CoveredFor(rows, rows[i].owner, f);
        var j :| 0 <= j < |rows| && ActiveFlagged(rows, rows[i].owner, f, j);
        assert rows[j].owner == rows[i].owner && f in rows[j].flags;
      }
    }
  }

  lemma {:induction false} NothingMissing(rows: seq<Row>, history: seq<Interval>)
    requires ActivesOpen(rows, history)
    ensures Missing(rows, history) == []
  {
    if rows != [] {
      var init, row := rows[..|rows| - 1], rows[|rows| - 1];
      assert forall i | 0 <= i < |init| :: init[i] == rows[i];
      NothingMissing(init, history);
      assert row == rows[|rows| - 1];
    }
  }

  /** On every state a tame serial run reaches, the backfill is a no-op. */
  lemma RerunIsNoOp(reserved: set<string>, ops: seq<Op>)
    requires SerialRun(reserved, ops) && Tame(reserved, ops)
    ensures Backfilled(Run(reserved, ops)) == Run(reserved, ops)
  {
    var t := Run(reserved, ops);
    FlagsHoldInEveryRun(reserved, ops);
    HistoryHoldsInEveryRun(reserved, ops);
    FillOfCovered(t.rows, Primary);
    FillOfCovered(t.rows, Nip05);
    NothingMissing(t.rows, t.history);
  }

  // ---- what it establishes ----------------------------------------------------

  lemma {:induction false} MissingCovers(rows: seq<Row>, history: seq<Interval>, i: nat)
    requires i < |rows| && rows[i].active && !HasOpen(history, rows[i])
    ensures HasOpen(Missing(rows, history), rows[i])
  {
    var init, row := rows[..|rows| - 1], rows[|rows| - 1];
    var head := Missing(init, history);
    if i == |rows| - 1 {
      assert OpenFor(Missing(rows, history)[|head|], row);
    } else {
      MissingCovers(init, history, i);
      var k :| 0 <= k < |head| && OpenFor(head[k], rows[i]);
      assert OpenFor(Missing(rows, history)[k], rows[i]);
    }
  }

  lemma BackfillOpensEveryActive(t: Tables)
    ensures ActivesOpen(Backfilled(t).rows, Backfilled(t).history)
  {
    var t' := Backfilled(t);
    var missing := Missing(t'.rows, t.history);
    assert t'.history == t.history + missing;
    forall i | 0 <= i < |t'.rows| && t'.rows[i].active
      ensures exists k | 0 <= k < |t'.history| :: OpenFor(t'.history[k], t'.rows[i])
    {
      if HasOpen(t.history, t'.rows[i]) {
        var k :| 0 <= k < |t.history| && OpenFor(t.history[k], t'.rows[i]);
        assert OpenFor(t'.history[k], t'.rows[i]);
      } else {
        MissingCovers(t'.rows, t.history, i);
        var k :| 0 <= k < |missing| && OpenFor(missing[k], t'.rows[i]);
        assert OpenFor(t'.history[|t.history| + k], t'.rows[i]);
      }
    }
  }

  /** The interval is the one the backfill owes this row. */
  predicate Fills(h: Interval, row: Row, history: seq<Interval>) {
    && row.active && !HasOpen(history, row)
    && h.name == row.name && h.owner == row.owner && h.from == row.created && h.to.None?
  }

  lemma {:induction false} MissingComesFrom(rows: seq<Row>, history: seq<Interval>, k: nat) returns (i: nat)
    requires k < |Missing(rows, history)|
    ensures i < |rows| && Fills(Missing(rows, history)[k], rows[i], history)
  {
    var n := |rows| - 1;
    if k < |Missing(rows[..n], history)| {
      i := MissingComesFrom(rows[..n], history, k);
    } else {
      i := n;
    }
  }

  lemma {:induction false} MissingReaches(rows: seq<Row>, history: seq<Interval>, i: nat) returns (k: nat)
    requires i < |rows| && rows[i].active && !HasOpen(history, rows[i])
    ensures k < |Missing(rows, history)| && Fills(Missing(rows, history)[k], rows[i], history)
  {
    var n := |rows| - 1;
    if i < n {
      k := MissingReaches(rows[..n], history, i);
    } else {
      k := |Missing(rows[..n], history)|;
    }
  }

  lemma {:induction false} MissingNamesDiffer(rows: seq<Row>, history: seq<Interval>, k: nat, l: nat)
    requires UniqueNames(rows) && k < l < |Missing(rows, history)|
    ensures Missing(rows, history)[k].name != Missing(rows, history)[l].name
  {
    var n := |rows| - 1;
    if l < |Missing(rows[..n], history)| {
      MissingNamesDiffer(rows[..n], history, k, l);
    } else {
      var i := MissingComesFrom(rows[..n], history, k);
      assert rows[..n][i] == rows[i];
    }
  }

  predicate OwedToSome(h: Interval, rows: seq<Row>, history: seq<Interval>) {
    exists i | 0 <= i < |rows| :: Fills(h, rows[i], history)
  }

  predicate FilledBySome(row: Row, added: seq<Interval>, history: seq<Interval>) {
    exists k | 0 <= k < |added| :: Fills(added[k], row, history)
  }

  /** What the backfill writes into the history, after all that was there: for each active
      row that had no open interval exactly one, from the row's creation on; no other. */
  lemma BackfilledHistory(t: Tables)
    requires UniqueNames(t.rows)
    ensures |t.history| <= |Backfilled(t).history| && Backfilled(t).history[..|t.history|] == t.history
    ensures var rows, added := Backfilled(t).rows, Backfilled(t).history[|t.history|..];
            && (forall k | 0 <= k < |added| :: OwedToSome(added[k], rows, t.history))
            && (forall i | 0 <= i < |rows| && rows[i].active && !HasOpen(t.history, rows[i]) ::
                  FilledBySome(rows[i], added, t.history))
            && (forall k, l | 0 <= k < l < |added| :: added[k].name != added[l].name)
  {
    var rows, added := Backfilled(t).rows, Backfilled(t).history[|t.history|..];
    assert added == Missing(rows, t.history);
    assert UniqueNames(rows) by {
      assert forall i | 0 <= i < |rows| :: rows[i].name == t.rows[i].name;
    }
    forall k | 0 <= k < |added| ensures OwedToSome(added[k], rows, t.history) {
      var i := MissingComesFrom(rows, t.history, k);
    }
    forall i | 0 <= i < |rows| && rows[i].active && !HasOpen(t.history, rows[i])
      ensures FilledBySome(rows[i], added, t.history)
    {
      var k := MissingReaches(rows, t.history, i);
    }
    forall k, l | 0 <= k < l < |added| ensures added[k].name != added[l].name {
      MissingNamesDiffer(rows, t.history, k, l);
    }
  }

  /** What it writes into the rows: a flag nobody of the pubkey's rows carries goes to its
      active row of least id, and nothing else changes. */
  lemma BackfilledRows(t: Tables, i: nat, f: Flag)
    requires i < |t.rows|
    ensures var rows, rows' := t.rows, Backfilled(t).rows;
            && |rows'| == |rows|
            && rows'[i].name == rows[i].name && rows'[i].owner == rows[i].owner && rows'[i].active == rows[i].active
            && rows'[i].auto == rows[i].auto && rows'[i].created == rows[i].created
            && (f in rows'[i].flags <==>
                || f in rows[i].flags
                || (&& rows[i].active
                    && (forall j | 0 <= j < |rows| && rows[j].owner == rows[i].owner :: f !in rows[j].flags)
                    && (forall j | 0 <= j < i && rows[j].owner == rows[i].owner :: !rows[j].active)))
  {
    var rows := t.rows;
    var mid := Filled(rows, Primary);
    var p := rows[i].owner;
    assert forall j | 0 <= j < |rows| :: mid[j].owner == rows[j].owner && mid[j].active == rows[j].active;
    assert HasFlag(mid, p, Nip05) <==> HasFlag(rows, p, Nip05) by {
      assert forall j | 0 <= j < |rows| :: Nip05 in mid[j].flags <==> Nip05 in rows[j].flags;
    }
    assert FirstActive(mid, i) <==> FirstActive(rows, i) by {
      assert forall j | 0 <= j < |rows| :: ActiveOf(mid, p, j) == ActiveOf(rows, p, j);
    }
    assert FirstActive(rows, i) <==>
        rows[i].active && forall j | 0 <= j < i && rows[j].owner == p :: !rows[j].active by {
      assert forall j | 0 <= j < i :: ActiveOf(rows, p, j) <==> rows[j].owner == p && rows[j].active;
    }
    assert f == Primary || f == Nip05;
  }

  /** An inactive row of p still carries f while p has active ones: the backfill's
      guard then sees a flagged row and promotes nobody. */
  predicate Masked(rows: seq<Row>, p: Pubkey, f: Flag) {
    && HasActive(rows, p)
    && exists i | 0 <= i < |rows| :: rows[i].owner == p && f in rows[i].flags && !rows[i].active
  }

  lemma {:induction false} FirstActiveExists(rows: seq<Row>, p: Pubkey, n: nat)
    requires n < |rows| && ActiveOf(rows, p, n)
    ensures exists i | 0 <= i < |rows| :: ActiveOf(rows, p, i) && FirstActive(rows, i)
    decreases n
  {
    if j :| 0 <= j < n && ActiveOf(rows, p, j) {
      FirstActiveExists(rows, p, j);
    } else {
      assert FirstActive(rows, n);
    }
  }

  /** One of the two UPDATEs gives p its flag f exactly when no inactive row masks it. */
  lemma FillCoversIff(rows: seq<Row>, p: Pubkey, f: Flag)
    requires IndexesHold(rows)
    ensures CoveredFor(Filled(rows, f), p, f) <==> !Masked(rows, p, f)
  {
    var rows' := Filled(rows, f);
    assert forall i | 0 <= i < |rows| :: ActiveOf(rows', p, i) == ActiveOf(rows, p, i);
    assert OnePerOwner(rows, f) by { assert f == Primary || f == Nip05; }
    if HasActive(rows, p) {
      var n :| 0 <= n < |rows| && ActiveOf(rows, p, n);
      assert ActiveOf(rows', p, n);
      if HasFlag(rows, p, f) {
        var k :| 0 <= k < |rows| && rows[k].owner == p && f in rows[k].flags;
        assert f in rows'[k].flags;
        assert forall i | 0 <= i < |rows| && rows[i].owner == p && i != k :: f !in rows'[i].flags;
        assert Masked(rows, p, f) <==> !rows[k].active;
        assert rows[k].active ==> ActiveFlagged(rows', p, f, k);
      } else {
        FirstActiveExists(rows, p, n);
        var i :| 0 <= i < |rows| && ActiveOf(rows, p, i) && FirstActive(rows, i);
        assert ActiveFlagged(rows', p, f, i);
      }
    }
  }

  lemma FillLeavesOtherFlag(rows: seq<Row>, p: Pubkey, f: Flag, g: Flag)
    requires f != g
    ensures CoveredFor(Filled(rows, f), p, g) <==> CoveredFor(rows, p, g)
    ensures Masked(Filled(rows, f), p, g) <==> Masked(rows, p, g)
  {
    var rows' := Filled(rows, f);
    assert forall i | 0 <= i < |rows| :: ActiveOf(rows', p, i) == ActiveOf(rows, p, i);
    assert forall i | 0 <= i < |rows| :: ActiveFlagged(rows', p, g, i) == ActiveFlagged(rows, p, g, i);
    assert forall i | 0 <= i < |rows| ::
        (rows'[i].owner == p && g in rows'[i].flags && !rows'[i].active) ==
        (rows[i].owner == p && g in rows[i].flags && !rows[i].active);
  }

  /** From any state the indexes allow, the backfill leaves every pubkey with an active
      address exactly one active primary and one active NIP-05 row, and every active
      row an open interval, if and only if no inactive row masks a flag. */
  lemma BackfillEstablishesIff(t: Tables)
    requires IndexesHold(t.rows)
    ensures ActivesOpen(Backfilled(t).rows, Backfilled(t).history)
    ensures FlagInvariant(Backfilled(t).rows) <==> forall p: Pubkey, f: Flag :: !Masked(t.rows, p, f)
  {
    BackfillOpensEveryActive(t);
    FillKeepsIndexes(t.rows, Primary);
    FillKeepsIndexes(Filled(t.rows, Primary), Nip05);
    var mid := Filled(t.rows, Primary);
    forall p: Pubkey, f: Flag
      ensures CoveredFor(Backfilled(t).rows, p, f) <==> !Masked(t.rows, p, f)
    {
      if f == Primary {
        FillCoversIff(t.rows, p, Primary);
        FillLeavesOtherFlag(mid, p, Nip05, Primary);
      } else {
        FillLeavesOtherFlag(t.rows, p, Primary, Nip05);
        FillCoversIff(mid, p, Nip05);
      }
    }
  }

  /** The one step that strips a pubkey of its flags is undone by the next start. */
  lemma BackfillRepairsSelfTransfer(t: Tables, op: Op)
    requires FlagInvariant(t.rows) && Legal(t, op) && MovesLastToSelf(t, op)
    requires Apply(t, op).0.Committed?
    ensures !FlagInvariant(Apply(t, op).1.rows)
    ensures FlagInvariant(Backfilled(Apply(t, op).1).rows)
  {
    var t' := Apply(t, op).1;
    StepKeepsFlagInvariantIff(t, op);
    TransferRows(t, op.id, op.to, op.picks, op.now);
    forall p: Pubkey, f: Flag ensures !Masked(t'.rows, p, f) {
      if HasActive(t'.rows, p) {
        var n :| 0 <= n < |t'.rows| && ActiveOf(t'.rows, p, n);
        assert ActiveOf(t.rows, p, n);
        ExactlyOneFlagged(t.rows, p, f);
        var i :| 0 <= i < |t.rows| && ActiveFlagged(t.rows, p, f, i)
                 && forall j | 0 <= j < |t.rows| && j != i :: !(t.rows[j].owner == p && f in t.rows[j].flags);
        assert ActiveOf(t.rows, op.to, op.id);
      }
    }
    BackfillEstablishesIff(t');
  }
}
