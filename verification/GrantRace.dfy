/** Concurrent settlements of one product invoice. The check for earlier grants and each
    insert are steps of their own, and no unique index backs the check: this is what
    keeps an invoice to one grant of each type, and what does not. */
module GrantRace {
  import opened AddressTables
  import opened Quota
  import opened Settlement

  /** A settlement that passed the check has the types in `todo` still to insert. */
  datatype Phase = Fresh | Passed(todo: set<string>) | Acknowledged

  datatype System = System(grants: seq<Grant>, phases: seq<Phase>)

  /** The settlements are of one invoice and product, whose types are not all reserved,
      at times of their own. */
  ghost predicate Alike(attempts: seq<Attempt>, invoice: string, types: set<string>) {
    && types != {}
    && forall d | 0 <= d < |attempts| ::
         && attempts[d].invoice == invoice && attempts[d].product.Some?
         && Grantable(attempts[d].product.value) == types
  }

  ghost predicate InsertsOne(a: Attempt, todo: set<string>, types: set<string>,
                             grants: seq<Grant>, grants': seq<Grant>, after: Phase)
    requires a.product.Some? && Grantable(a.product.value) == types
  {
    exists q: string | q in todo && q in types ::
      grants' == grants + [GrantOf(a, q)] && after == Passed(todo - {q})
  }

  ghost predicate Step(attempts: seq<Attempt>, types: set<string>, s: System, s': System, d: nat)
    requires forall c | 0 <= c < |attempts| ::
               attempts[c].product.Some? && Grantable(attempts[c].product.value) == types
  {
    && d < |attempts| == |s.phases| == |s'.phases|
    && s'.phases == s.phases[d := s'.phases[d]]
    && match s.phases[d]
       case Fresh =>
         && s'.grants == s.grants
         && s'.phases[d] == if Recorded(s.grants, attempts[d].invoice) then Acknowledged else Passed(types)
       case Passed(todo) => InsertsOne(attempts[d], todo, types, s.grants, s'.grants, s'.phases[d])
       case Acknowledged => false
  }

  /** Grants of other invoices, and other owners, in between. */
  predicate OthersStep(invoice: string, s: System, s': System) {
    && s'.phases == s.phases && |s'.grants| == |s.grants| + 1
    && s'.grants[..|s.grants|] == s.grants && s'.grants[|s.grants|].ref != invoice
  }

  ghost predicate Next(attempts: seq<Attempt>, invoice: string, types: set<string>, s: System, s': System)
    requires Alike(attempts, invoice, types)
  {
    OthersStep(invoice, s, s') || exists d: nat :: Step(attempts, types, s, s', d)
  }

  ghost predicate IsRun(attempts: seq<Attempt>, invoice: string, types: set<string>, run: seq<System>) {
    && Alike(attempts, invoice, types)
    && run != [] && !Recorded(run[0].grants, invoice)
    && |run[0].phases| == |attempts| && (forall d | 0 <= d < |attempts| :: run[0].phases[d].Fresh?)
    && forall k | 0 <= k < |run| - 1 ::
         Next(attempts, invoice, types, run[k], run[k + 1])
  }

  // ---- counting ---------------------------------------------------------------

  function GrantsOf(grants: seq<Grant>, invoice: string, q: string): nat {
    if grants == [] then 0
    else
      var last := grants[|grants| - 1];
      GrantsOf(grants[..|grants| - 1], invoice, q) + if last.ref == invoice && last.quotaType == q then 1 else 0
  }

  /** The settlement has inserted type q. */
  predicate HasInserted(phase: Phase, q: string) {
    phase.Passed? && q !in phase.todo
  }

  function Inserters(phases: seq<Phase>, q: string): nat {
    if phases == [] then 0
    else Inserters(phases[..|phases| - 1], q) + if HasInserted(phases[|phases| - 1], q) then 1 else 0
  }

  function Passers(phases: seq<Phase>): nat {
    if phases == [] then 0
    else Passers(phases[..|phases| - 1]) + if phases[|phases| - 1].Passed? then 1 else 0
  }

  lemma GrantsOfAppend(grants: seq<Grant>, g: Grant, invoice: string, q: string)
    ensures GrantsOf(grants + [g], invoice, q) ==
            GrantsOf(grants, invoice, q) + if g.ref == invoice && g.quotaType == q then 1 else 0
  {
    assert (grants + [g])[..|grants|] == grants;
  }

  lemma {:induction false} InsertersUpdate(phases: seq<Phase>, d: nat, phase: Phase, q: string)
    requires d < |phases|
    ensures Inserters(phases[d := phase], q) ==
            Inserters(phases, q) + (if HasInserted(phase, q) then 1 else 0) - if HasInserted(phases[d], q) then 1 else 0
  {
    var n := |phases| - 1;
    if d == n {
      assert phases[d := phase][..n] == phases[..n];
    } else {
      InsertersUpdate(phases[..n], d, phase, q);
      assert phases[d := phase][..n] == phases[..n][d := phase];
    }
  }

  lemma {:induction false} NobodyInserted(phases: seq<Phase>, q: string)
    requires forall d | 0 <= d < |phases| :: !HasInserted(phases[d], q)
    ensures Inserters(phases, q) == 0
  {
    if phases != [] {
      NobodyInserted(phases[..|phases| - 1], q);
    }
  }

  lemma {:induction false} NoneOfType(grants: seq<Grant>, invoice: string, q: string)
    requires !Recorded(grants, invoice)
    ensures GrantsOf(grants, invoice, q) == 0
  {
    if grants != [] {
      var init := grants[..|grants| - 1];
      assert forall k | 0 <= k < |init| :: init[k] == grants[k];
      NoneOfType(init, invoice, q);
    }
  }

  // ---- the invariant ----------------------------------------------------------

  /** Every type is granted as often as settlements have inserted it, and there is a grant
      as soon as one has begun to insert. */
  ghost predicate Invariant(attempts: seq<Attempt>, invoice: string, types: set<string>, s: System) {
    && |s.phases| == |attempts|
    && (forall d | 0 <= d < |s.phases| && s.phases[d].Passed? :: s.phases[d].todo <= types)
    && (forall q | q in types :: GrantsOf(s.grants, invoice, q) == Inserters(s.phases, q))
    && (Recorded(s.grants, invoice) <==> exists d | 0 <= d < |s.phases| :: Begun(s.phases[d], types))
  }

  predicate Begun(phase: Phase, types: set<string>) {
    phase.Passed? && phase.todo != types
  }

  /** A check inserts nothing, and whoever only passed it has not begun. */
  lemma CheckKeepsInvariant(attempts: seq<Attempt>, invoice: string, types: set<string>,
                            s: System, s': System, d: nat)
    requires Invariant(attempts, invoice, types, s) && d < |s.phases| && s.phases[d].Fresh?
    requires s'.grants == s.grants && |s'.phases| == |s.phases| && s'.phases == s.phases[d := s'.phases[d]]
    requires s'.phases[d] == Acknowledged || s'.phases[d] == Passed(types)
    ensures Invariant(attempts, invoice, types, s')
  {
    forall q | q in types ensures GrantsOf(s'.grants, invoice, q) == Inserters(s'.phases, q) {
      InsertersUpdate(s.phases, d, s'.phases[d], q);
    }
    assert forall c | 0 <= c < |s.phases| :: Begun(s'.phases[c], types) == Begun(s.phases[c], types);
  }

  lemma InsertKeepsInvariant(attempts: seq<Attempt>, invoice: string, types: set<string>,
                             s: System, s': System, d: nat, g: Grant)
    requires Invariant(attempts, invoice, types, s) && d < |s.phases| && s.phases[d].Passed?
    requires g.ref == invoice && g.quotaType in types && g.quotaType in s.phases[d].todo
    requires s'.grants == s.grants + [g]
    requires s'.phases == s.phases[d := Passed(s.phases[d].todo - {g.quotaType})]
    ensures Invariant(attempts, invoice, types, s')
  {
    forall q | q in types ensures GrantsOf(s'.grants, invoice, q) == Inserters(s'.phases, q) {
      InsertersUpdate(s.phases, d, s'.phases[d], q);
      GrantsOfAppend(s.grants, g, invoice, q);
    }
    assert s'.grants[|s.grants|].ref == invoice;
    assert Begun(s'.phases[d], types);
  }

  lemma StepKeepsInvariant(attempts: seq<Attempt>, invoice: string, types: set<string>, s: System, s': System, d: nat)
    requires Alike(attempts, invoice, types) && Invariant(attempts, invoice, types, s)
    requires Step(attempts, types, s, s', d)
    ensures Invariant(attempts, invoice, types, s')
  {
    match s.phases[d]
    case Fresh => CheckKeepsInvariant(attempts, invoice, types, s, s', d);
    case Passed(todo) =>
      var q: string :| q in todo && q in types
                       && s'.grants == s.grants + [GrantOf(attempts[d], q)] && s'.phases[d] == Passed(todo - {q});
      InsertKeepsInvariant(attempts, invoice, types, s, s', d, GrantOf(attempts[d], q));
  }

  lemma OthersKeepInvariant(attempts: seq<Attempt>, invoice: string, types: set<string>, s: System, s': System)
    requires Invariant(attempts, invoice, types, s) && OthersStep(invoice, s, s')
    ensures Invariant(attempts, invoice, types, s')
  {
    var g := s'.grants[|s.grants|];
    assert s'.grants == s.grants + [g];
    forall q | q in types ensures GrantsOf(s'.grants, invoice, q) == Inserters(s'.phases, q) {
      GrantsOfAppend(s.grants, g, invoice, q);
    }
    assert forall k | 0 <= k < |s.grants| :: s'.grants[k] == s.grants[k];
  }

  lemma {:induction false} InvariantHolds(attempts: seq<Attempt>, invoice: string, types: set<string>,
                                          run: seq<System>, at: nat)
    requires IsRun(attempts, invoice, types, run) && at < |run|
    ensures Invariant(attempts, invoice, types, run[at])
  {
    if at == 0 {
      forall q | q in types ensures GrantsOf(run[0].grants, invoice, q) == Inserters(run[0].phases, q) {
        NoneOfType(run[0].grants, invoice, q);
        NobodyInserted(run[0].phases, q);
      }
    } else {
      InvariantHolds(attempts, invoice, types, run, at - 1);
      assert Next(attempts, invoice, types, run[at - 1], run[at - 1 + 1]);
      if OthersStep(invoice, run[at - 1], run[at]) {
        OthersKeepInvariant(attempts, invoice, types, run[at - 1], run[at]);
      } else {
        var d: nat :| Step(attempts, types, run[at - 1], run[at], d);
        StepKeepsInvariant(attempts, invoice, types, run[at - 1], run[at], d);
      }
    }
  }

  // ---- the results ------------------------------------------------------------

  /** A settlement passes the check exactly if none that passed it has begun to insert: two
      that check at the same time both pass. */
  lemma PassesIff(attempts: seq<Attempt>, invoice: string, types: set<string>, run: seq<System>, at: nat, d: nat)
    requires IsRun(attempts, invoice, types, run) && at + 1 < |run|
    requires Step(attempts, types, run[at], run[at + 1], d) && run[at].phases[d].Fresh?
    ensures run[at + 1].phases[d].Passed? <==>
            forall c | 0 <= c < |run[at].phases| :: !Begun(run[at].phases[c], types)
  {
    InvariantHolds(attempts, invoice, types, run, at);
  }

  lemma {:induction false} FinishedInsertersPassed(phases: seq<Phase>, q: string)
    requires forall d | 0 <= d < |phases| && phases[d].Passed? :: phases[d].todo == {}
    ensures Inserters(phases, q) == Passers(phases)
  {
    if phases != [] {
      FinishedInsertersPassed(phases[..|phases| - 1], q);
    }
  }

  lemma {:induction false} PassersUpdate(phases: seq<Phase>, d: nat, phase: Phase)
    requires d < |phases|
    ensures Passers(phases[d := phase]) ==
            Passers(phases) + (if phase.Passed? then 1 else 0) - if phases[d].Passed? then 1 else 0
  {
    var n := |phases| - 1;
    if d == n {
      assert phases[d := phase][..n] == phases[..n];
    } else {
      PassersUpdate(phases[..n], d, phase);
      assert phases[d := phase][..n] == phases[..n][d := phase];
    }
  }

  /** A settlement passes the check while another has passed it already. By `PassesIff`
      that other one has not begun to insert. */
  predicate Overlap(s: System, s': System) {
    0 < Passers(s.phases) < Passers(s'.phases)
  }

  lemma {:induction false} OnePassesIff(attempts: seq<Attempt>, invoice: string, types: set<string>,
                                        run: seq<System>, at: nat)
    requires IsRun(attempts, invoice, types, run) && at < |run|
    ensures Passers(run[at].phases) <= 1 <==> forall k | 0 <= k < at :: !Overlap(run[k], run[k + 1])
  {
    if at == 0 {
      NobodyPassed(run[0].phases);
    } else {
      var s, s' := run[at - 1], run[at - 1 + 1];
      OnePassesIff(attempts, invoice, types, run, at - 1);
      assert Next(attempts, invoice, types, s, s');
      if d: nat :| Step(attempts, types, s, s', d) {
        PassersUpdate(s.phases, d, s'.phases[d]);
      }
    }
  }

  lemma {:induction false} NobodyPassed(phases: seq<Phase>)
    requires forall d | 0 <= d < |phases| :: phases[d].Fresh?
    ensures Passers(phases) == 0
  {
    if phases != [] {
      NobodyPassed(phases[..|phases| - 1]);
    }
  }

  /** Once every settlement is through, each type has been granted as often as settlements
      passed the check, and so more than once if and only if two of their checks overlapped. */
  lemma EachPassGrants(attempts: seq<Attempt>, invoice: string, types: set<string>, run: seq<System>,
                       at: nat, q: string)
    requires IsRun(attempts, invoice, types, run) && at < |run| && q in types
    requires forall d | 0 <= d < |run[at].phases| && run[at].phases[d].Passed? :: run[at].phases[d].todo == {}
    ensures GrantsOf(run[at].grants, invoice, q) == Passers(run[at].phases)
    ensures GrantsOf(run[at].grants, invoice, q) <= 1 <==> forall k | 0 <= k < at :: !Overlap(run[k], run[k + 1])
  {
    InvariantHolds(attempts, invoice, types, run, at);
    FinishedInsertersPassed(run[at].phases, q);
    OnePassesIff(attempts, invoice, types, run, at);
  }
}
