/** What each registry transaction does, row by row: when it commits, what the new row
    holds, and which other rows and intervals change. Transfers and revocations are in
    `RegistryFlags.TransferRows` and `RegistryFlags.RevokeNeverPromotes`. */
module RegistryEffects {
  import opened AddressTables
  import opened Registry

  /** Nobody ever held the name, it is not reserved, the claimant is not auto-assigning
      over an active address, and no revoked row of the claimant keeps a flag, unless it
      holds a claimed address already. */
  predicate Obtainable(t: Tables, name: Name, owner: Pubkey, auto: bool) {
    && (forall i | 0 <= i < |t.rows| :: t.rows[i].name != name)
    && name.username !in t.reserved
    && !(auto && HasActive(t.rows, owner))
    && (|| HasReal(t.rows, owner)
        || forall i | 0 <= i < |t.rows| && t.rows[i].owner == owner && !t.rows[i].active :: t.rows[i].flags == {})
  }

  /** A new last row and its open interval, nothing else in the history or the reserved
      names. */
  predicate Inserted(t: Tables, t': Tables, name: Name, owner: Pubkey, flags: set<Flag>, auto: bool, now: int) {
    && |t'.rows| == |t.rows| + 1 && |t'.history| == |t.history| + 1
    && t'.history[..|t.history|] == t.history && t'.reserved == t.reserved
    && var (row, h) := (t'.rows[|t.rows|], t'.history[|t.history|]);
       && row.name == name && row.owner == owner && row.active && row.flags == flags
       && row.auto == auto && row.created == now
       && h.name == name && h.owner == owner && h.from == now && h.to == None
  }

  /** A registration: it commits exactly for an obtainable name, is refused exactly where a
      claimant is told the name is taken, and leaves the tables alone otherwise. A claimant
      without claimed address gets both flags on the new row and loses them on its
      auto-assigned ones; any other claimant gets an alias. */
  lemma RegisterEffect(t: Tables, name: Name, owner: Pubkey, auto: bool, now: int)
    ensures var (outcome, t') := RegisterTx(t, name, owner, auto, now);
            && (outcome.Committed? <==> Obtainable(t, name, owner, auto))
            && (outcome.Refused? <==>
                NameActive(t.rows, name) || name.username in t.reserved || (auto && HasActive(t.rows, owner)))
            && (!outcome.Committed? ==> t' == t)
            && (outcome.Committed? ==>
                  && Inserted(t, t', name, owner, if HasReal(t.rows, owner) then {} else BOTH_FLAGS, auto, now)
                  && forall i | 0 <= i < |t.rows| ::
                       t'.rows[i] == if t.rows[i].owner == owner && t.rows[i].active && !HasReal(t.rows, owner)
                                     then t.rows[i].(flags := {}) else t.rows[i])
  {
    var first, promote := !HasActive(t.rows, owner), Promotes(t.rows, owner, auto);
    assert HasReal(t.rows, owner) ==> HasActive(t.rows, owner);
    forall i | 0 <= i < |t.rows| && t.rows[i].owner == owner && t.rows[i].active
      ensures !first
    {
      assert ActiveOf(t.rows, owner, i);
    }
  }

  /** A grant claims the name for the pubkey whether reserved or not, as its flagged first
      address or as an alias, and touches no other row. */
  lemma GrantEffect(t: Tables, name: Name, owner: Pubkey, now: int)
    ensures var (outcome, t') := GrantTx(t, name, owner, now);
            && !outcome.Refused?
            && (outcome.Committed? <==>
                && (forall i | 0 <= i < |t.rows| :: t.rows[i].name != name)
                && (|| HasActive(t.rows, owner)
                    || forall i | 0 <= i < |t.rows| && t.rows[i].owner == owner :: t.rows[i].flags == {}))
            && (!outcome.Committed? ==> t' == t)
            && (outcome.Committed? ==>
                  && Inserted(t, t', name, owner, if HasActive(t.rows, owner) then {} else BOTH_FLAGS, false, now)
                  && t'.rows[..|t.rows|] == t.rows)
  {
  }

  /** Setting a flag commits exactly for an active address of that pubkey. Then that row
      carries the flag, no other row of the pubkey does, and nothing else has changed. */
  lemma SetFlagEffect(t: Tables, f: Flag, name: Name, owner: Pubkey)
    requires UniqueNames(t.rows)
    ensures var (outcome, t') := SetFlagTx(t, f, name, owner);
            && (outcome.Committed? <==>
                exists i | 0 <= i < |t.rows| :: t.rows[i].name == name && ActiveOf(t.rows, owner, i))
            && (!outcome.Committed? ==> t' == t)
            && t'.history == t.history && t'.reserved == t.reserved && |t'.rows| == |t.rows|
            && (outcome.Committed? ==>
                  forall i | 0 <= i < |t.rows| ::
                    var row, row' := t.rows[i], t'.rows[i];
                    && row'.name == row.name && row'.owner == row.owner && row'.active == row.active
                    && row'.auto == row.auto && row'.created == row.created
                    && (row.owner == owner ==> (f in row'.flags <==> row.name == name))
                    && (row.owner != owner ==> row'.flags == row.flags)
                    && forall g: Flag | g != f :: g in row'.flags <==> g in row.flags)
  {
    match Find(t.rows, name)
    case None =>
    case Some(k) =>
      assert forall i | 0 <= i < |t.rows| && t.rows[i].name == name :: i == k;
  }

  /** Whatever does not commit is rolled back. */
  lemma RollbackLeavesTables(t: Tables, op: Op)
    ensures !Apply(t, op).0.Committed? ==> Apply(t, op).1 == t
  {
  }
}
