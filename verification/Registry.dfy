/** The registry's transactions in closed form: when each commits and what the
    tables hold afterwards. `AddressStore` shows that the statement-by-statement
    transactions compute exactly this; here the serial runs are studied. */
module Registry {
  import opened AddressTables
  import opened StoreFaults

  /** Committed; Refused is AtomicRegisterAddress returning (nil, nil); Failed is an
      error, after which the rollback leaves the tables as they were. */
  datatype Outcome = Committed | Refused | Failed

  /** The rows the database picked for the two promotions of a transfer. */
  datatype Picks = Picks(primary: nat, nip05: nat)

  datatype Op =
    | Register(name: Name, owner: Pubkey, auto: bool, now: int)
    | Grant(name: Name, owner: Pubkey, now: int)
    | Transfer(id: nat, to: Pubkey, picks: Picks, now: int)
    | Revoke(name: Name, now: int)
    | SetFlag(flag: Flag, name: Name, owner: Pubkey, now: int)

  // ---- registration and grant -------------------------------------------------

  function Demoted(rows: seq<Row>, p: Pubkey): (r: seq<Row>)
    ensures |r| == |rows|
  {
    seq(|rows|, i requires 0 <= i < |rows| =>
      if ActiveOf(rows, p, i) then rows[i].(flags := {}) else rows[i])
  }

  /** A flag of p that a newly flagged row would collide with. A promotion first
      strips p's active rows, so then only an inactive row can be in the way. */
  predicate Blocked(rows: seq<Row>, p: Pubkey, promote: bool) {
    exists i | 0 <= i < |rows| ::
      rows[i].owner == p && rows[i].flags != {} && !(promote && rows[i].active)
  }

  /** The writing half of a registration: demote, insert, open the interval, commit.
      `first` and `promote` are what its reading half concluded. */
  function Claim(t: Tables, first: bool, promote: bool, name: Name, owner: Pubkey, auto: bool, now: int)
    : (Outcome, Tables)
  {
    var flagged := first || promote;
    if NameUsed(t.rows, name) || (flagged && Blocked(t.rows, owner, promote)) then (Failed, t)
    else
      var kept := if promote then Demoted(t.rows, owner) else t.rows;
      var row := Row(name, owner, true, if flagged then BOTH_FLAGS else {}, auto, now);
      (Committed, t.(rows := kept + [row], history := t.history + [Interval(name, owner, now, None)]))
  }

  /** The first real name of a pubkey holding only auto-assigned addresses takes over. */
  predicate Promotes(rows: seq<Row>, owner: Pubkey, auto: bool) {
    HasActive(rows, owner) && !auto && !HasReal(rows, owner)
  }

  function RegisterTx(t: Tables, name: Name, owner: Pubkey, auto: bool, now: int): (Outcome, Tables) {
    if NameActive(t.rows, name) || name.username in t.reserved then (Refused, t)
    else if auto && HasActive(t.rows, owner) then (Refused, t)
    else Claim(t, !HasActive(t.rows, owner), Promotes(t.rows, owner, auto), name, owner, auto, now)
  }

  /** What a transaction leaves under a fault, and what its caller is told. */
  function UnderFault(t: Tables, tx: (Outcome, Tables), fault: Fault): (Outcome, Tables) {
    match fault
    case NoFault => tx
    case NoEffect => (Failed, t)
    case LostReply => if tx.0.Committed? then (Failed, tx.1) else tx
  }

  function GrantTx(t: Tables, name: Name, owner: Pubkey, now: int): (Outcome, Tables) {
    Claim(t, !HasActive(t.rows, owner), false, name, owner, false, now)
  }

  // ---- transfer ---------------------------------------------------------------

  function Picked(picks: Picks, f: Flag): nat {
    if f == Primary then picks.primary else picks.nip05
  }

  /** The new owner's first active address must be flagged, and one of its inactive
      rows may still hold a flag. */
  predicate TransferBlocked(rows: seq<Row>, id: nat, to: Pubkey) {
    && !HasActive(rows, to)
    && exists i | 0 <= i < |rows| :: i != id && rows[i].owner == to && rows[i].flags != {}
  }

  function Moved(rows: seq<Row>, id: nat, to: Pubkey): (r: seq<Row>)
    requires id < |rows|
    ensures |r| == |rows|
  {
    rows[id := rows[id].(owner := to, flags := if HasActive(rows, to) then {} else BOTH_FLAGS)]
  }

  function Raised(rows: seq<Row>, f: Flag, k: nat): (r: seq<Row>)
    requires k < |rows|
    ensures |r| == |rows|
  {
    rows[k := rows[k].(flags := rows[k].flags + {f})]
  }

  /** Hand flag f, if the leaving row held it, to the row picked for it. */
  function PassedOn(rows: seq<Row>, before: seq<Row>, id: nat, f: Flag, picks: Picks): (r: seq<Row>)
    requires id < |before| == |rows|
    ensures |r| == |rows|
  {
    if f in before[id].flags && HasOtherActive(before, before[id].owner, id) && Picked(picks, f) < |rows|
    then Raised(rows, f, Picked(picks, f))
    else rows
  }

  function TransferTx(t: Tables, id: nat, to: Pubkey, picks: Picks, now: int): (Outcome, Tables) {
    if id >= |t.rows| || TransferBlocked(t.rows, id, to) then (Failed, t)
    else
      var row := t.rows[id];
      var rows1 := PassedOn(Moved(t.rows, id, to), t.rows, id, Primary, picks);
      var rows2 := PassedOn(rows1, t.rows, id, Nip05, picks);
      var history := Closed(t.history, row.name, row.owner, now) + [Interval(row.name, to, now, None)];
      (Committed, t.(rows := rows2, history := history))
  }

  // ---- revocation and flags ---------------------------------------------------

  /** The promotion a revocation attempts always collides with the revoked row,
      which keeps its flags; such a revocation fails. */
  predicate RevokeBlocked(rows: seq<Row>, i: nat)
    requires i < |rows|
  {
    rows[i].flags != {} && HasOtherActive(rows, rows[i].owner, i)
  }

  function RevokeTx(t: Tables, name: Name, now: int): (Outcome, Tables) {
    match Find(t.rows, name)
    case None => (Failed, t)
    case Some(i) =>
      if RevokeBlocked(t.rows, i) then (Failed, t)
      else
        var row := t.rows[i];
        (Committed, t.(rows := t.rows[i := row.(active := false)],
                       history := Closed(t.history, name, row.owner, now)))
  }

  function Unflagged(rows: seq<Row>, f: Flag, p: Pubkey): (r: seq<Row>)
    ensures |r| == |rows|
  {
    seq(|rows|, j requires 0 <= j < |rows| =>
      if rows[j].owner == p then rows[j].(flags := rows[j].flags - {f}) else rows[j])
  }

  /** Flag f moves to row i, away from every other row of p. */
  function Reflagged(rows: seq<Row>, f: Flag, p: Pubkey, i: nat): (r: seq<Row>)
    ensures |r| == |rows|
  {
    seq(|rows|, j requires 0 <= j < |rows| =>
      if j == i then rows[j].(flags := rows[j].flags + {f})
      else if rows[j].owner == p then rows[j].(flags := rows[j].flags - {f})
      else rows[j])
  }

  function SetFlagTx(t: Tables, f: Flag, name: Name, owner: Pubkey): (Outcome, Tables) {
    match Find(t.rows, name)
    case None => (Failed, t)
    case Some(i) =>
      if !t.rows[i].active || t.rows[i].owner != owner then (Failed, t)
      else (Committed, t.(rows := Reflagged(t.rows, f, owner, i)))
  }

  // ---- steps and runs ---------------------------------------------------------

  function Apply(t: Tables, op: Op): (Outcome, Tables) {
    match op
    case Register(name, owner, auto, now) => RegisterTx(t, name, owner, auto, now)
    case Grant(name, owner, now) => GrantTx(t, name, owner, now)
    case Transfer(id, to, picks, now) => TransferTx(t, id, to, picks, now)
    case Revoke(name, now) => RevokeTx(t, name, now)
    case SetFlag(f, name, owner, now) => SetFlagTx(t, f, name, owner)
  }

  /** The picks are ones the database can make: for each flag, an oldest other row. */
  predicate LegalPicks(rows: seq<Row>, id: nat, picks: Picks) {
    id < |rows| && HasOtherActive(rows, rows[id].owner, id) ==>
      && OldestOther(rows, rows[id].owner, id, picks.primary)
      && OldestOther(rows, rows[id].owner, id, picks.nip05)
  }

  predicate Legal(t: Tables, op: Op) {
    op.Transfer? ==> LegalPicks(t.rows, op.id, op.picks)
  }

  /** The tables once `ops` have run on t, one after the other. */
  function After(t: Tables, ops: seq<Op>): Tables {
    if ops == [] then t
    else Apply(After(t, ops[..|ops| - 1]), ops[|ops| - 1]).1
  }

  /** The tables after a run from the start. */
  function Run(reserved: set<string>, ops: seq<Op>): Tables {
    After(Tables([], [], reserved), ops)
  }

  /** A serial run: legal picks, and transaction times that never go back. */
  ghost predicate SerialRun(reserved: set<string>, ops: seq<Op>) {
    ops == [] ||
    var init, last := ops[..|ops| - 1], ops[|ops| - 1];
    && SerialRun(reserved, init)
    && Legal(Run(reserved, init), last)
    && (init != [] ==> init[|init| - 1].now <= last.now)
  }

  // ---- the indexes hold in every run ------------------------------------------

  lemma FlagsNonEmpty(s: set<Flag>)
    ensures s != {} <==> Primary in s || Nip05 in s
  {
    if s != {} {
      var f :| f in s;
      assert f == Primary || f == Nip05;
    }
  }

  /** Claim commits exactly when the unique indexes accept its two statements. */
  lemma ClaimGuardIsIndexes(t: Tables, first: bool, promote: bool, name: Name, owner: Pubkey, auto: bool, now: int)
    requires IndexesHold(t.rows)
    ensures var kept := if promote then Demoted(t.rows, owner) else t.rows;
            var flags := if first || promote then BOTH_FLAGS else {};
            && IndexesHold(kept)
            && (Claim(t, first, promote, name, owner, auto, now).0.Committed? <==>
                IndexesHold(kept + [Row(name, owner, true, flags, auto, now)]))
  {
    var kept := if promote then Demoted(t.rows, owner) else t.rows;
    var flagged := first || promote;
    var row := Row(name, owner, true, if flagged then BOTH_FLAGS else {}, auto, now);
    var rows := kept + [row];
    var n := |kept|;
    assert rows[n] == row && forall i | 0 <= i < n :: rows[i] == kept[i] && kept[i].name == t.rows[i].name;
    if NameUsed(t.rows, name) {
      var i :| 0 <= i < n && t.rows[i].name == name;
      assert rows[i].name == rows[n].name;
    } else if flagged && Blocked(t.rows, owner, promote) {
      var i :| 0 <= i < n && t.rows[i].owner == owner && t.rows[i].flags != {} && !(promote && t.rows[i].active);
      FlagsNonEmpty(rows[i].flags);
      assert rows[i].owner == rows[n].owner;
    }
  }
}
