/** The two tables behind the address registry, `addresses` and
    `address_ownership`, the unique indexes on the first, and the questions the
    transactions ask of them. A row's position in `rows` stands for its SERIAL id. */
module AddressTables {

  datatype Option<+T> = None | Some(value: T)

  type Pubkey = string

  datatype Name = Name(username: string, domain: string)

  /** The boolean columns is_primary and nip05_active. */
  datatype Flag = Primary | Nip05

  const BOTH_FLAGS: set<Flag> := {Primary, Nip05}

  datatype Row = Row(name: Name, owner: Pubkey, active: bool, flags: set<Flag>, auto: bool, created: int)

  /** One row of address_ownership; `to` is None while the interval is open. */
  datatype Interval = Interval(name: Name, owner: Pubkey, from: int, to: Option<int>)

  datatype Tables = Tables(rows: seq<Row>, history: seq<Interval>, reserved: set<string>)

  // ---- unique indexes ---------------------------------------------------------

  /** addresses_unique_username: inactive rows count too. */
  predicate UniqueNames(rows: seq<Row>) {
    forall i, j | 0 <= i < j < |rows| :: rows[i].name != rows[j].name
  }

  /** idx_addresses_one_primary and idx_addresses_one_nip05: they ignore `active`. */
  predicate OnePerOwner(rows: seq<Row>, f: Flag) {
    forall i, j | 0 <= i < j < |rows| && f in rows[i].flags && f in rows[j].flags ::
      rows[i].owner != rows[j].owner
  }

  predicate IndexesHold(rows: seq<Row>) {
    UniqueNames(rows) && OnePerOwner(rows, Primary) && OnePerOwner(rows, Nip05)
  }

  // ---- queries ----------------------------------------------------------------

  predicate ActiveOf(rows: seq<Row>, p: Pubkey, i: int) {
    0 <= i < |rows| && rows[i].active && rows[i].owner == p
  }

  predicate HasActive(rows: seq<Row>, p: Pubkey) {
    exists i | 0 <= i < |rows| :: ActiveOf(rows, p, i)
  }

  predicate HasOtherActive(rows: seq<Row>, p: Pubkey, except: int) {
    exists i | 0 <= i < |rows| :: i != except && ActiveOf(rows, p, i)
  }

  /** The pubkey holds an active address it claimed, as opposed to an auto-assigned one. */
  predicate HasReal(rows: seq<Row>, p: Pubkey) {
    exists i | 0 <= i < |rows| :: ActiveOf(rows, p, i) && !rows[i].auto
  }

  predicate NameUsed(rows: seq<Row>, n: Name) {
    exists i | 0 <= i < |rows| :: rows[i].name == n
  }

  predicate NameActive(rows: seq<Row>, n: Name) {
    exists i | 0 <= i < |rows| :: rows[i].name == n && rows[i].active
  }

  predicate ActiveFlagged(rows: seq<Row>, p: Pubkey, f: Flag, i: int) {
    ActiveOf(rows, p, i) && f in rows[i].flags
  }

  /** A row the promotion may pick: an oldest among p's active rows other than
      `except`. Rows created at the same instant tie, and any may be picked. */
  predicate OldestOther(rows: seq<Row>, p: Pubkey, except: int, k: int) {
    && ActiveOf(rows, p, k) && k != except
    && forall j | 0 <= j < |rows| && j != except && ActiveOf(rows, p, j) ::
         rows[k].created <= rows[j].created
  }

  lemma {:induction false} OldestOtherExists(rows: seq<Row>, p: Pubkey, except: int)
    requires HasOtherActive(rows, p, except)
    ensures exists k | 0 <= k < |rows| :: OldestOther(rows, p, except, k)
  {
    var best :| 0 <= best < |rows| && best != except && ActiveOf(rows, p, best);
    var i := 0;
    while i < |rows|
      invariant 0 <= i <= |rows|
      invariant ActiveOf(rows, p, best) && best != except
      invariant forall j | 0 <= j < i && j != except && ActiveOf(rows, p, j) ::
                  rows[best].created <= rows[j].created
    {
      if i != except && ActiveOf(rows, p, i) && rows[i].created < rows[best].created {
        best := i;
      }
      i := i + 1;
    }
    assert OldestOther(rows, p, except, best);
  }

  /** The row holding a name; at most one does, by addresses_unique_username. */
  function Find(rows: seq<Row>, n: Name): (r: Option<nat>)
    ensures r.None? ==> forall i | 0 <= i < |rows| :: rows[i].name != n
    ensures r.Some? ==> r.value < |rows| && rows[r.value].name == n
  {
    if rows == [] then None
    else
      var last := |rows| - 1;
      if rows[last].name == n then Some(last) else Find(rows[..last], n)
  }

  // ---- statements on address_ownership ----------------------------------------

  /** closeOwnership: end every open interval of (name, owner) at `now`. */
  function Closed(history: seq<Interval>, name: Name, owner: Pubkey, now: int): (r: seq<Interval>)
    ensures |r| == |history|
  {
    seq(|history|, k requires 0 <= k < |history| =>
      var h := history[k];
      if h.name == name && h.owner == owner && h.to.None? then h.(to := Some(now)) else h)
  }
}
