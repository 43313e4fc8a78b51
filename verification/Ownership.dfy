/** Who owned a name at time T: the interval test of the audit search against a
    replay of the committed transactions up to T. */
module Ownership {
  import opened AddressTables
  import opened Registry

  // ---- the temporal lookup ----------------------------------------------------

  /** The half-open interval h of `name` contains the time `at`. */
  predicate Covers(h: Interval, name: Name, at: int) {
    h.name == name && h.from <= at && (h.to.None? || at < h.to.value)
  }

  /** The subquery of the audit search, for one name, domain and subject. */
  predicate OwnedAt(history: seq<Interval>, name: Name, owner: Pubkey, at: int) {
    exists k | 0 <= k < |history| :: Covers(history[k], name, at) && history[k].owner == owner
  }

  // ---- the reference: replaying the commits -----------------------------------

  /** The name a step concerns, if it is one that can change who owns a name. */
  function Subject(t: Tables, op: Op): Option<Name> {
    match op
    case Register(name, _, _, _) => Some(name)
    case Grant(name, _, _) => Some(name)
    case Transfer(id, _, _, _) => if id < |t.rows| then Some(t.rows[id].name) else None
    case Revoke(name, _) => Some(name)
    case SetFlag(_, _, _, _) => None
  }

  function NewOwner(op: Op): Option<Pubkey> {
    match op
    case Register(_, owner, _, _) => Some(owner)
    case Grant(_, owner, _) => Some(owner)
    case Transfer(_, to, _, _) => Some(to)
    case Revoke(_, _) => None
    case SetFlag(_, _, _, _) => None
  }

  /** The owner of `name` once every commit dated up to `at` has been replayed. */
  function Replay(reserved: set<string>, ops: seq<Op>, name: Name, at: int): Option<Pubkey> {
    if ops == [] then None
    else
      var init, last := ops[..|ops| - 1], ops[|ops| - 1];
      var t := Run(reserved, init);
      if last.now <= at && Subject(t, last) == Some(name) && Apply(t, last).0.Committed?
      then NewOwner(last)
      else Replay(reserved, init, name, at)
  }

  // ---- the invariant ----------------------------------------------------------

  ghost predicate Dated(history: seq<Interval>, last: int) {
    forall k | 0 <= k < |history| ::
      history[k].from <= last && (history[k].to.Some? ==> history[k].to.value <= last)
  }

  /** Intervals of one name follow each other, so only the last can be open. */
  ghost predicate Ordered(history: seq<Interval>) {
    forall k, l | 0 <= k < l < |history| && history[k].name == history[l].name ::
      history[k].to.Some? && history[k].to.value <= history[l].from
  }

  ghost predicate NamesKnown(rows: seq<Row>, history: seq<Interval>) {
    forall k | 0 <= k < |history| :: NameUsed(rows, history[k].name)
  }

  /** An open interval belongs to whoever holds the name's row. */
  ghost predicate OpensMatch(rows: seq<Row>, history: seq<Interval>) {
    forall k, i | 0 <= k < |history| && 0 <= i < |rows| ::
      history[k].to.None? && history[k].name == rows[i].name ==> history[k].owner == rows[i].owner
  }

  ghost predicate ActivesOpen(rows: seq<Row>, history: seq<Interval>) {
    forall i | 0 <= i < |rows| && rows[i].active ::
      exists k | 0 <= k < |history| :: OpenFor(history[k], rows[i])
  }

  ghost predicate HistoryInvariant(t: Tables, last: int) {
    && UniqueNames(t.rows)
    && Dated(t.history, last)
    && Ordered(t.history)
    && NamesKnown(t.rows, t.history)
    && OpensMatch(t.rows, t.history)
    && ActivesOpen(t.rows, t.history)
  }

  predicate OpenFor(h: Interval, row: Row) {
    h.name == row.name && h.owner == row.owner && h.to.None?
  }

  /** What a step does to the history, as seen from one name at one time. */
  ghost predicate TracksOwner(t: Tables, op: Op, name: Name, at: int) {
    var (outcome, t') := Apply(t, op);
    forall p: Pubkey ::
      OwnedAt(t'.history, name, p, at) <==>
      if op.now <= at && Subject(t, op) == Some(name) && outcome.Committed? then NewOwner(op) == Some(p)
      else OwnedAt(t.history, name, p, at)
  }

  lemma NamesStayKnown(rows: seq<Row>, rows': seq<Row>, history: seq<Interval>, history': seq<Interval>)
    requires |rows'| >= |rows| && |history'| >= |history| && NamesKnown(rows, history)
    requires forall i | 0 <= i < |rows| :: rows'[i].name == rows[i].name
    requires forall k | 0 <= k < |history| :: history'[k].name == history[k].name
    requires forall k | |history| <= k < |history'| :: NameUsed(rows', history'[k].name)
    ensures NamesKnown(rows', history')
  {
    forall k | 0 <= k < |history'| ensures NameUsed(rows', history'[k].name) {
      if k < |history| {
        var i :| 0 <= i < |rows| && rows[i].name == history[k].name;
        assert rows'[i].name == history'[k].name;
      }
    }
  }

  /** Opening an interval at `now` once every earlier one of that name is closed. */
  lemma OpeningKeepsOrder(history: seq<Interval>, h: Interval, last: int)
    requires Dated(history, last) && Ordered(history) && last <= h.from && h.to.None?
    requires forall k | 0 <= k < |history| && history[k].name == h.name :: history[k].to.Some?
    ensures Dated(history + [h], h.from) && Ordered(history + [h])
  {
  }

  /** A new active row for an unused name, and its open interval. */
  lemma InsertStep(t: Tables, t': Tables, name: Name, owner: Pubkey, now: int, last: int)
    requires HistoryInvariant(t, last) && last <= now && !NameUsed(t.rows, name)
    requires |t'.rows| == |t.rows| + 1 && t'.history == t.history + [Interval(name, owner, now, None)]
    requires forall i | 0 <= i < |t.rows| ::
               t'.rows[i].name == t.rows[i].name && t'.rows[i].owner == t.rows[i].owner
               && t'.rows[i].active == t.rows[i].active
    requires t'.rows[|t.rows|].name == name && t'.rows[|t.rows|].owner == owner
    ensures HistoryInvariant(t', now)
  {
    var n, m := |t.rows|, |t.history|;
    assert forall k | 0 <= k < m :: t.history[k].name != name;
    OpeningKeepsOrder(t.history, Interval(name, owner, now, None), last);
    NamesStayKnown(t.rows, t'.rows, t.history, t'.history);
    InsertKeepsActivesOpen(t, t', name, owner, now);
  }

  lemma InsertKeepsActivesOpen(t: Tables, t': Tables, name: Name, owner: Pubkey, now: int)
    requires ActivesOpen(t.rows, t.history)
    requires |t'.rows| == |t.rows| + 1 && t'.history == t.history + [Interval(name, owner, now, None)]
    requires forall i | 0 <= i < |t.rows| ::
               t'.rows[i].name == t.rows[i].name && t'.rows[i].owner == t.rows[i].owner
               && t'.rows[i].active == t.rows[i].active
    requires t'.rows[|t.rows|].name == name && t'.rows[|t.rows|].owner == owner
    ensures ActivesOpen(t'.rows, t'.history)
  {
    forall i | 0 <= i < |t'.rows| && t'.rows[i].active
      ensures exists k | 0 <= k < |t'.history| :: OpenFor(t'.history[k], t'.rows[i])
    {
      if i < |t.rows| {
        var k :| 0 <= k < |t.history| && OpenFor(t.history[k], t.rows[i]);
        assert OpenFor(t'.history[k], t'.rows[i]);
      } else {
        assert OpenFor(t'.history[|t.history|], t'.rows[i]);
      }
    }
  }

  lemma InsertTracks(t: Tables, name: Name, owner: Pubkey, now: int, last: int, name': Name, at: int)
    requires HistoryInvariant(t, last) && last <= now && !NameUsed(t.rows, name)
    ensures forall p: Pubkey ::
              OwnedAt(t.history + [Interval(name, owner, now, None)], name', p, at) <==>
              if now <= at && name == name' then p == owner else OwnedAt(t.history, name', p, at)
  {
    var m := |t.history|;
    var history := t.history + [Interval(name, owner, now, None)];
    assert forall k | 0 <= k < m :: history[k] == t.history[k] && t.history[k].name != name;
    forall p: Pubkey
      ensures OwnedAt(history, name', p, at) <==>
              if now <= at && name == name' then p == owner else OwnedAt(t.history, name', p, at)
    {
      if OwnedAt(t.history, name', p, at) {
        var k :| 0 <= k < m && Covers(t.history[k], name', at) && t.history[k].owner == p;
        assert Covers(history[k], name', at);
      }
      assert history[m].name == name;
    }
  }

  /** Closing the intervals of row i leaves none of its name open. */
  lemma ClosedShape(t: Tables, i: nat, now: int, last: int)
    requires HistoryInvariant(t, last) && last <= now && i < |t.rows|
    ensures var c := Closed(t.history, t.rows[i].name, t.rows[i].owner, now);
            forall k | 0 <= k < |c| ::
              c[k] == if t.history[k].name == t.rows[i].name && t.history[k].to.None?
                      then t.history[k].(to := Some(now)) else t.history[k]
  {
  }

  lemma ClosedTracks(t: Tables, i: nat, now: int, last: int, name: Name, at: int)
    requires HistoryInvariant(t, last) && last <= now && i < |t.rows|
    ensures forall p: Pubkey ::
              OwnedAt(Closed(t.history, t.rows[i].name, t.rows[i].owner, now), name, p, at) <==>
              OwnedAt(t.history, name, p, at) && !(now <= at && name == t.rows[i].name)
  {
    var c := Closed(t.history, t.rows[i].name, t.rows[i].owner, now);
    ClosedShape(t, i, now, last);
    forall p: Pubkey
      ensures OwnedAt(c, name, p, at) <==>
              OwnedAt(t.history, name, p, at) && !(now <= at && name == t.rows[i].name)
    {
      assert forall k | 0 <= k < |c| ::
          Covers(c[k], name, at) <==>
          Covers(t.history[k], name, at) && !(now <= at && name == t.rows[i].name);
    }
  }

  lemma RevokeStep(t: Tables, name: Name, now: int, last: int)
    requires HistoryInvariant(t, last) && last <= now && RevokeTx(t, name, now).0.Committed?
    ensures HistoryInvariant(RevokeTx(t, name, now).1, now)
  {
    var id := Find(t.rows, name).value;
    var t' := RevokeTx(t, name, now).1;
    ClosedShape(t, id, now, last);
    NamesStayKnown(t.rows, t'.rows, t.history, t'.history);
    forall i | 0 <= i < |t'.rows| && t'.rows[i].active
      ensures exists k | 0 <= k < |t'.history| :: OpenFor(t'.history[k], t'.rows[i])
    {
      var k :| 0 <= k < |t.history| && OpenFor(t.history[k], t.rows[i]);
      assert OpenFor(t'.history[k], t'.rows[i]);
    }
  }

  lemma TransferIdentity(t: Tables, id: nat, to: Pubkey, picks: Picks, now: int)
    requires TransferTx(t, id, to, picks, now).0.Committed?
    ensures var rows' := TransferTx(t, id, to, picks, now).1.rows;
            && |rows'| == |t.rows|
            && forall i | 0 <= i < |t.rows| ::
                 rows'[i].name == t.rows[i].name && rows'[i].active == t.rows[i].active
                 && rows'[i].owner == if i == id then to else t.rows[i].owner
  {
  }

  /** Row `id` passes to `to` while its name's open interval is closed and a new one opened. */
  lemma HandoverStep(t: Tables, t': Tables, id: nat, to: Pubkey, now: int, last: int)
    requires HistoryInvariant(t, last) && last <= now && id < |t.rows| == |t'.rows|
    requires forall i | 0 <= i < |t.rows| ::
               t'.rows[i].name == t.rows[i].name && t'.rows[i].active == t.rows[i].active
               && t'.rows[i].owner == if i == id then to else t.rows[i].owner
    requires t'.history == Closed(t.history, t.rows[id].name, t.rows[id].owner, now)
                           + [Interval(t.rows[id].name, to, now, None)]
    ensures HistoryInvariant(t', now)
  {
    var row, m := t.rows[id], |t.history|;
    var closed := Closed(t.history, row.name, row.owner, now);
    ClosedShape(t, id, now, last);
    OpeningKeepsOrder(closed, Interval(row.name, to, now, None), now);
    assert forall k | 0 <= k < m :: t'.history[k] == closed[k];
    assert t'.rows[id].name == row.name;
    NamesStayKnown(t.rows, t'.rows, t.history, t'.history);
    forall i | 0 <= i < |t'.rows| && t'.rows[i].active
      ensures exists k | 0 <= k < |t'.history| :: OpenFor(t'.history[k], t'.rows[i])
    {
      if i == id {
        assert OpenFor(t'.history[m], t'.rows[id]);
      } else {
        var k :| 0 <= k < m && OpenFor(t.history[k], t.rows[i]);
        assert t.rows[i].name != row.name;
        assert OpenFor(t'.history[k], t'.rows[i]);
      }
    }
  }

  /** Rows that keep names, owners and `active` keep the history invariant. */
  lemma SameIdentityStep(t: Tables, t': Tables, last: int, now: int)
    requires HistoryInvariant(t, last) && last <= now && |t.rows| == |t'.rows| && t'.history == t.history
    requires forall i | 0 <= i < |t.rows| ::
               t'.rows[i].name == t.rows[i].name && t'.rows[i].active == t.rows[i].active
               && t'.rows[i].owner == t.rows[i].owner
    ensures HistoryInvariant(t', now)
  {
    NamesStayKnown(t.rows, t'.rows, t.history, t'.history);
    forall i | 0 <= i < |t'.rows| && t'.rows[i].active
      ensures exists k | 0 <= k < |t'.history| :: OpenFor(t'.history[k], t'.rows[i])
    {
      var k :| 0 <= k < |t.history| && OpenFor(t.history[k], t.rows[i]);
      assert OpenFor(t'.history[k], t'.rows[i]);
    }
  }

  lemma StepKeepsHistory(t: Tables, op: Op, last: int)
    requires HistoryInvariant(t, last) && last <= op.now
    ensures HistoryInvariant(Apply(t, op).1, op.now)
  {
    if Apply(t, op).0.Committed? {
      match op
      case Register(name, owner, auto, now) =>
        InsertStep(t, Apply(t, op).1, name, owner, now, last);
      case Grant(name, owner, now) =>
        InsertStep(t, Apply(t, op).1, name, owner, now, last);
      case Transfer(id, to, picks, now) =>
        TransferIdentity(t, id, to, picks, now);
        HandoverStep(t, Apply(t, op).1, id, to, now, last);
      case Revoke(name, now) => RevokeStep(t, name, now, last);
      case SetFlag(f, name, owner, now) => SameIdentityStep(t, Apply(t, op).1, last, now);
    }
  }

  lemma StepTracksOwner(t: Tables, op: Op, last: int, name: Name, at: int)
    requires HistoryInvariant(t, last) && last <= op.now
    ensures TracksOwner(t, op, name, at)
  {
    if Apply(t, op).0.Committed? {
      match op
      case Register(n, owner, auto, now) => InsertTracks(t, n, owner, now, last, name, at);
      case Grant(n, owner, now) => InsertTracks(t, n, owner, now, last, name, at);
      case Transfer(id, to, picks, now) => TransferTracks(t, id, to, now, last, name, at);
      case Revoke(n, now) => ClosedTracks(t, Find(t.rows, n).value, now, last, name, at);
      case SetFlag(_, _, _, _) =>
    }
  }

  lemma TransferTracks(t: Tables, id: nat, to: Pubkey, now: int, last: int, name: Name, at: int)
    requires HistoryInvariant(t, last) && last <= now && id < |t.rows|
    ensures var row := t.rows[id];
            var history := Closed(t.history, row.name, row.owner, now) + [Interval(row.name, to, now, None)];
            forall p: Pubkey ::
              OwnedAt(history, name, p, at) <==>
              if now <= at && name == row.name then p == to else OwnedAt(t.history, name, p, at)
  {
    var row := t.rows[id];
    var closed := Closed(t.history, row.name, row.owner, now);
    var history := closed + [Interval(row.name, to, now, None)];
    ClosedTracks(t, id, now, last, name, at);
    assert forall k | 0 <= k < |closed| :: history[k] == closed[k];
    forall p: Pubkey
      ensures OwnedAt(history, name, p, at) <==>
              if now <= at && name == row.name then p == to else OwnedAt(t.history, name, p, at)
    {
      assert Covers(history[|closed|], name, at) <==> name == row.name && now <= at;
      if OwnedAt(closed, name, p, at) {
        var k :| 0 <= k < |closed| && Covers(closed[k], name, at) && closed[k].owner == p;
        assert Covers(history[k], name, at) && history[k].owner == p;
      }
    }
  }

  // ---- runs -------------------------------------------------------------------

  lemma {:induction false} HistoryHoldsInEveryRun(reserved: set<string>, ops: seq<Op>)
    requires SerialRun(reserved, ops)
    ensures HistoryInvariant(Run(reserved, ops), if ops == [] then 0 else ops[|ops| - 1].now)
  {
    if ops == [] {
    } else {
      var init, last := ops[..|ops| - 1], ops[|ops| - 1];
      HistoryHoldsInEveryRun(reserved, init);
      var t := Run(reserved, init);
      if init == [] {
        assert HistoryInvariant(t, last.now);
        StepKeepsHistory(t, last, last.now);
      } else {
        StepKeepsHistory(t, last, init[|init| - 1].now);
      }
    }
  }

  /** For every serial run, name, pubkey and time, past or future: the audit search's
      interval test names exactly the owner found by replaying the commits up to then. */
  lemma {:induction false} IntervalsAgreeWithReplay(reserved: set<string>, ops: seq<Op>, name: Name, p: Pubkey, at: int)
    requires SerialRun(reserved, ops)
    ensures OwnedAt(Run(reserved, ops).history, name, p, at) <==> Replay(reserved, ops, name, at) == Some(p)
  {
    if ops == [] {
    } else {
      var init, last := ops[..|ops| - 1], ops[|ops| - 1];
      IntervalsAgreeWithReplay(reserved, init, name, p, at);
      HistoryHoldsInEveryRun(reserved, init);
      var t := Run(reserved, init);
      var before := if init == [] then last.now else init[|init| - 1].now;
      StepTracksOwner(t, last, before, name, at);
      assert TracksOwner(t, last, name, at);
    }
  }

  /** The audit search without a domain: the subject held the username, in some domain,
      at that time. */
  lemma AnyDomainSearchAgreesWithReplay(reserved: set<string>, ops: seq<Op>, username: string, p: Pubkey, at: int)
    requires SerialRun(reserved, ops)
    ensures (exists k | 0 <= k < |Run(reserved, ops).history| ::
               var h := Run(reserved, ops).history[k];
               h.name.username == username && Covers(h, h.name, at) && h.owner == p)
            <==> exists domain: string :: Replay(reserved, ops, Name(username, domain), at) == Some(p)
  {
    var history := Run(reserved, ops).history;
    if k :| 0 <= k < |history| && history[k].name.username == username
            && Covers(history[k], history[k].name, at) && history[k].owner == p
    {
      IntervalsAgreeWithReplay(reserved, ops, history[k].name, p, at);
      assert history[k].name == Name(username, history[k].name.domain);
    }
    if domain: string :| Replay(reserved, ops, Name(username, domain), at) == Some(p) {
      IntervalsAgreeWithReplay(reserved, ops, Name(username, domain), p, at);
      var k :| 0 <= k < |history| && Covers(history[k], Name(username, domain), at) && history[k].owner == p;
      assert history[k].name.username == username;
    }
  }

  /** No two intervals of one name overlap, in any serial run. */
  lemma AtMostOneIntervalCovers(reserved: set<string>, ops: seq<Op>, name: Name, at: int, k: nat, l: nat)
    requires SerialRun(reserved, ops)
    requires k < |Run(reserved, ops).history| && Covers(Run(reserved, ops).history[k], name, at)
    requires l < |Run(reserved, ops).history| && Covers(Run(reserved, ops).history[l], name, at)
    ensures k == l
  {
    HistoryHoldsInEveryRun(reserved, ops);
  }

  /** The present: an active row's owner is who the test names from the last commit on. */
  lemma ActiveRowIsOwned(reserved: set<string>, ops: seq<Op>, i: nat, at: int)
    requires SerialRun(reserved, ops) && ops != [] && ops[|ops| - 1].now <= at
    requires i < |Run(reserved, ops).rows| && Run(reserved, ops).rows[i].active
    ensures Replay(reserved, ops, Run(reserved, ops).rows[i].name, at) == Some(Run(reserved, ops).rows[i].owner)
  {
    var t := Run(reserved, ops);
    HistoryHoldsInEveryRun(reserved, ops);
    var k :| 0 <= k < |t.history| && OpenFor(t.history[k], t.rows[i]);
    assert Covers(t.history[k], t.rows[i].name, at);
    IntervalsAgreeWithReplay(reserved, ops, t.rows[i].name, t.rows[i].owner, at);
  }
}
