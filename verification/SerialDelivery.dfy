/** One delivery of a settled invoice that nothing interleaves with: its closed form, that
    this form is a run of the interleaved system, and what a redelivery does. */
module SerialDelivery {
  import opened AddressTables
  import opened StoreFaults
  import opened Webhook
  import Registry
  import RegistryEffects
  import Ledger

  /** How the store calls go wrong while one delivery is handled. */
  datatype Faults = Faults(lookup: bool, register: Fault, credit: Fault)

  const NO_FAULTS := Faults(false, NoFault, NoFault)

  function CreditTx(book: Ledger.Book, id: string, inv: Invoice, reason: string, fault: Fault): (Stage, Ledger.Book) {
    if inv.amount <= 0 then (Answered(200, NothingOwed), book)
    else
      var tx := Ledger.CreditOnceTx(book, inv.payer, inv.amount, reason, id);
      var (result, book') := Ledger.UnderFault(book, tx, fault);
      (if result.Aborted? then Answered(500, Retry) else Answered(200, Credited), book')
  }

  /** Why the buyer of a name not registered is credited. */
  function CreditReason(outcome: Registry.Outcome): string {
    if outcome.Refused? then Ledger.RACE_LOSS else Ledger.REGISTRATION_ERROR
  }

  /** The reply and the tables after one delivery that nothing interleaves with. */
  function SettleTx(t: Tables, book: Ledger.Book, id: string, inv: Invoice, f: Faults, now: int)
    : (Stage, Tables, Ledger.Book)
  {
    if f.lookup then (Answered(500, Retry), t, book)
    else
      var tx := Registry.RegisterTx(t, inv.name, inv.payer, false, now);
      var (outcome, t') := Registry.UnderFault(t, tx, f.register);
      if outcome.Committed? then (Answered(200, Registered(|t.rows|)), t', book)
      else
        var (answer, book') := CreditTx(book, id, inv, CreditReason(outcome), f.credit);
        (answer, t', book')
  }

  /** The steps of one delivery, with nothing in between. */
  ghost predicate Alone(e: Invoices, run: seq<System>, d: nat) {
    run != [] && forall k | 0 <= k < |run| - 1 :: Step(e, run[k], run[k + 1], d)
  }

  lemma AloneExtends(e: Invoices, run: seq<System>, d: nat, s: System)
    requires Alone(e, run, d) && Step(e, run[|run| - 1], s, d)
    ensures Alone(e, run + [s], d)
  {
    var longer := run + [s];
    forall k | 0 <= k < |longer| - 1 ensures Step(e, longer[k], longer[k + 1], d) {
      if k < |run| - 1 {
        assert Step(e, run[k], run[k + 1], d);
      }
    }
  }

  function At(s: System, d: nat, stage: Stage): (r: System)
    requires d < |s.deliveries|
    ensures |r.deliveries| == |s.deliveries| && r.deliveries[d] == Delivery(s.deliveries[d].invoice, stage)
  {
    s.(deliveries := s.deliveries[d := Delivery(s.deliveries[d].invoice, stage)])
  }

  lemma AtAt(s: System, d: nat, a: Stage, b: Stage)
    requires d < |s.deliveries|
    ensures At(s, d, a).deliveries[d := Delivery(s.deliveries[d].invoice, b)] == At(s, d, b).deliveries
  {
  }

  /** The reads of a delivery that finds the name free, up to its insert. */
  lemma ReadsAreRun(e: Invoices, s: System, d: nat) returns (run: seq<System>)
    requires d < |s.deliveries| && s.deliveries[d].invoice in e && s.deliveries[d].stage == Received
    requires var inv := e[s.deliveries[d].invoice];
             !NameActive(s.t.rows, inv.name) && inv.name.username !in s.t.reserved
    ensures Alone(e, run, d) && run[0] == s
    ensures var inv := e[s.deliveries[d].invoice];
            run[|run| - 1] == At(s, d, Snapped(!HasActive(s.t.rows, inv.payer),
                                               Registry.Promotes(s.t.rows, inv.payer, false)))
  {
    var inv := e[s.deliveries[d].invoice];
    var snapped := Snapped(!HasActive(s.t.rows, inv.payer), Registry.Promotes(s.t.rows, inv.payer, false));
    AtAt(s, d, Priced, Untaken);
    AtAt(s, d, Untaken, snapped);
    AloneExtends(e, [s], d, At(s, d, Priced));
    AloneExtends(e, [s, At(s, d, Priced)], d, At(s, d, Untaken));
    AloneExtends(e, [s, At(s, d, Priced), At(s, d, Untaken)], d, At(s, d, snapped));
    run := [s, At(s, d, Priced), At(s, d, Untaken), At(s, d, snapped)];
    assert [s] + [At(s, d, Priced)] == run[..2] && run[..2] + [At(s, d, Untaken)] == run[..3];
    assert run[..3] + [At(s, d, snapped)] == run;
  }

  /** A delivery whose registration has no effect, up to its credit. */
  lemma LossIsRun(e: Invoices, s: System, d: nat, fault: Fault, now: int) returns (run: seq<System>)
    requires d < |s.deliveries| && s.deliveries[d].invoice in e && s.deliveries[d].stage == Received
    requires var inv := e[s.deliveries[d].invoice];
             fault.NoEffect? || !Registry.RegisterTx(s.t, inv.name, inv.payer, false, now).0.Committed?
    ensures Alone(e, run, d) && run[0] == s
    ensures var inv := e[s.deliveries[d].invoice];
            var tx := Registry.RegisterTx(s.t, inv.name, inv.payer, false, now);
            run[|run| - 1] == At(s, d, Crediting(CreditReason(Registry.UnderFault(s.t, tx, fault).0)))
  {
    var inv := e[s.deliveries[d].invoice];
    var tx := Registry.RegisterTx(s.t, inv.name, inv.payer, false, now);
    var lost := Crediting(CreditReason(Registry.UnderFault(s.t, tx, fault).0));
    if fault.NoEffect? || tx.0.Refused? {
      AtAt(s, d, Priced, lost);
      AloneExtends(e, [s], d, At(s, d, Priced));
      AloneExtends(e, [s, At(s, d, Priced)], d, At(s, d, lost));
      run := [s, At(s, d, Priced), At(s, d, lost)];
      assert [s] + [At(s, d, Priced)] == run[..2] && run[..2] + [At(s, d, lost)] == run;
    } else {
      run := ReadsAreRun(e, s, d);
      AtAt(s, d, run[|run| - 1].deliveries[d].stage, lost);
      AloneExtends(e, run, d, At(s, d, lost));
      run := run + [At(s, d, lost)];
    }
  }

  /** A delivery whose registration commits, up to the insert. */
  lemma WinIsRun(e: Invoices, s: System, d: nat, told: bool, now: int) returns (run: seq<System>)
    requires d < |s.deliveries| && s.deliveries[d].invoice in e && s.deliveries[d].stage == Received
    requires var inv := e[s.deliveries[d].invoice];
             Registry.RegisterTx(s.t, inv.name, inv.payer, false, now).0.Committed?
    ensures Alone(e, run, d) && run[0] == s
    ensures var inv := e[s.deliveries[d].invoice];
            var stage := if told then Answered(200, Registered(|s.t.rows|)) else Crediting(Ledger.REGISTRATION_ERROR);
            run[|run| - 1] ==
            At(s, d, stage).(t := Registry.RegisterTx(s.t, inv.name, inv.payer, false, now).1,
                             wins := s.wins + [Win(d, |s.t.rows|, told)])
  {
    var inv := e[s.deliveries[d].invoice];
    var stage := if told then Answered(200, Registered(|s.t.rows|)) else Crediting(Ledger.REGISTRATION_ERROR);
    run := ReadsAreRun(e, s, d);
    var snapped := run[|run| - 1];
    var after := At(s, d, stage).(t := Registry.RegisterTx(s.t, inv.name, inv.payer, false, now).1,
                                  wins := s.wins + [Win(d, |s.t.rows|, told)]);
    AtAt(s, d, snapped.deliveries[d].stage, stage);
    assert WritesName(e, snapped, after, d);
    AloneExtends(e, run, d, after);
    run := run + [after];
  }

  /** The credit of a delivery is its last step. */
  lemma CreditIsStep(e: Invoices, s: System, d: nat, fault: Fault) returns (after: System)
    requires d < |s.deliveries| && s.deliveries[d].invoice in e && s.deliveries[d].stage.Crediting?
    ensures Step(e, s, after, d) && after.t == s.t
    ensures var id := s.deliveries[d].invoice;
            var (answer, book') := CreditTx(s.book, id, e[id], s.deliveries[d].stage.reason, fault);
            after.book == book' && after.deliveries == At(s, d, answer).deliveries
  {
    var id := s.deliveries[d].invoice;
    var (answer, book') := CreditTx(s.book, id, e[id], s.deliveries[d].stage.reason, fault);
    after := At(s, d, answer).(book := book', paid := if book' == s.book then s.paid else s.paid + [d]);
  }

  /** The closed form is a run of the interleaved system, so all that holds of every
      run holds of it: from receipt, the delivery's own steps lead to exactly its reply
      and its tables. */
  lemma SerialDeliveryIsRun(e: Invoices, s: System, d: nat, f: Faults, now: int) returns (run: seq<System>)
    requires d < |s.deliveries| && s.deliveries[d].invoice in e && s.deliveries[d].stage == Received
    ensures Alone(e, run, d) && run[0] == s
    ensures var id := s.deliveries[d].invoice;
            var (answer, t', book') := SettleTx(s.t, s.book, id, e[id], f, now);
            var last := run[|run| - 1];
            last.t == t' && last.book == book' && last.deliveries == At(s, d, answer).deliveries
  {
    var id := s.deliveries[d].invoice;
    var inv := e[id];
    var tx := Registry.RegisterTx(s.t, inv.name, inv.payer, false, now);
    if f.lookup {
      var after := At(s, d, Answered(500, Retry));
      AloneExtends(e, [s], d, after);
      run := [s, after];
      assert [s] + [after] == run;
    } else {
      if tx.0.Committed? && !f.register.NoEffect? {
        run := WinIsRun(e, s, d, f.register.NoFault?, now);
      } else {
        run := LossIsRun(e, s, d, f.register, now);
      }
      var mid := run[|run| - 1];
      if mid.deliveries[d].stage.Crediting? {
        var after := CreditIsStep(e, mid, d, f.credit);
        AtAt(s, d, mid.deliveries[d].stage, after.deliveries[d].stage);
        AloneExtends(e, run, d, after);
        run := run + [after];
      }
    }
  }

  /** The delivery inserts the payer's row: the lookup worked, the registration took
      effect, and the name is the payer's to have. */
  predicate Takes(t: Tables, inv: Invoice, f: Faults) {
    !f.lookup && !f.register.NoEffect? && RegistryEffects.Obtainable(t, inv.name, inv.payer, false)
  }

  /** The delivery is not told of a registration, and owes the payer the invoice. */
  predicate Owes(t: Tables, inv: Invoice, f: Faults) {
    !f.lookup && !(Takes(t, inv, f) && f.register.NoFault?) && inv.amount > 0
  }

  predicate Creditable(book: Ledger.Book, inv: Invoice, id: string) {
    && id != "" && inv.amount <= 0x7fff_ffff
    && Ledger.Balance(book, inv.payer) + inv.amount <= 0x7fff_ffff_ffff_ffff
    && !Ledger.Credited(book.history, Ledger.Text(id))
  }

  /** The name is lost to somebody else, or reserved, and the registration said so. */
  predicate LostRace(t: Tables, inv: Invoice, f: Faults) {
    !f.register.NoEffect? && (NameActive(t.rows, inv.name) || inv.name.username in t.reserved)
  }

  /** What one delivery does to the rows, for every state and placement of faults: the
      payer's active row is inserted if the name is the payer's to have and the call takes
      effect, and nothing else ever happens to the registry. */
  lemma DeliveryRegistersIff(t: Tables, book: Ledger.Book, id: string, inv: Invoice, f: Faults, now: int)
    ensures var t' := SettleTx(t, book, id, inv, f, now).1;
            && (Takes(t, inv, f) ==>
                  RegistryEffects.Inserted(t, t', inv.name, inv.payer,
                                           if HasReal(t.rows, inv.payer) then {} else BOTH_FLAGS, false, now))
            && (!Takes(t, inv, f) ==> t' == t)
  {
    RegistryEffects.RegisterEffect(t, inv.name, inv.payer, false, now);
  }

  /** What it does to the ledger: a payer who is owed the invoice is credited exactly its
      amount, under the reason that says why, unless the ledger cannot take it, has it
      already or the call has no effect; and nothing else ever happens to the ledger. */
  lemma DeliveryCreditsIff(t: Tables, book: Ledger.Book, id: string, inv: Invoice, f: Faults, now: int)
    requires Ledger.Sound(book)
    ensures var book' := SettleTx(t, book, id, inv, f, now).2;
            var reason := if LostRace(t, inv, f) then Ledger.RACE_LOSS else Ledger.REGISTRATION_ERROR;
            var credits := Owes(t, inv, f) && !f.credit.NoEffect? && Creditable(book, inv, id);
            && (credits ==>
                  && Ledger.MovesOnly(book, book', inv.payer, inv.amount)
                  && Ledger.Recorded(book, book', inv.payer, inv.amount, reason, Ledger.Text(id)))
            && (!credits ==> book' == book)
  {
    RegistryEffects.RegisterEffect(t, inv.name, inv.payer, false, now);
    Ledger.CreditOnceEffect(book, inv.payer, inv.amount, Ledger.RACE_LOSS, id);
    Ledger.CreditOnceEffect(book, inv.payer, inv.amount, Ledger.REGISTRATION_ERROR, id);
  }

  /** And what BTCPay is told: registered exactly if that is what happened and was heard; a
      retry exactly where the lookup failed or the payer is still owed for all it knows. */
  lemma DeliveryAnswersIff(t: Tables, book: Ledger.Book, id: string, inv: Invoice, f: Faults, now: int)
    requires Ledger.Sound(book)
    ensures var answer := SettleTx(t, book, id, inv, f, now).0;
            var before := id != "" && Ledger.FitsInteger(inv.amount) && Ledger.Credited(book.history, Ledger.Text(id));
            var heard := (before && !f.credit.NoEffect?) || (Creditable(book, inv, id) && f.credit.NoFault?);
            answer ==
            if f.lookup then Answered(500, Retry)
            else if Takes(t, inv, f) && f.register.NoFault? then Answered(200, Registered(|t.rows|))
            else if inv.amount <= 0 then Answered(200, NothingOwed)
            else if heard then Answered(200, Credited)
            else Answered(500, Retry)
  {
    RegistryEffects.RegisterEffect(t, inv.name, inv.payer, false, now);
    Ledger.CreditOnceEffect(book, inv.payer, inv.amount, Ledger.RACE_LOSS, id);
    Ledger.CreditOnceEffect(book, inv.payer, inv.amount, Ledger.REGISTRATION_ERROR, id);
  }

  /** The first payment for a name gets it: without faults, a payer of a fresh name who
      holds no flag on a revoked row is registered and not credited, whatever was paid. */
  lemma FirstPayerIsRegistered(t: Tables, book: Ledger.Book, id: string, inv: Invoice, now: int)
    requires RegistryEffects.Obtainable(t, inv.name, inv.payer, false)
    ensures var (answer, t', book') := SettleTx(t, book, id, inv, NO_FAULTS, now);
            && answer == Answered(200, Registered(|t.rows|)) && book' == book
            && NameActive(t'.rows, inv.name) && t'.rows[|t.rows|].owner == inv.payer
  {
    RegistryEffects.RegisterEffect(t, inv.name, inv.payer, false, now);
    var t' := SettleTx(t, book, id, inv, NO_FAULTS, now).1;
    assert t'.rows[|t.rows|].name == inv.name && t'.rows[|t.rows|].active;
  }

  /** A redelivery of an invoice that already bought its name leaves the registry alone,
      and credits the payer the whole amount as well exactly if the call takes effect,
      the ledger can take the amount and it was not credited before; what follows, under
      whatever faults, changes nothing more. */
  lemma RedeliveryCreditsIff(t: Tables, book: Ledger.Book, id: string, inv: Invoice,
                             f1: Faults, now: int, f2: Faults, later: int)
    requires SettleTx(t, book, id, inv, f1, now).0 == Answered(200, Registered(|t.rows|))
    ensures var (_, t1, book1) := SettleTx(t, book, id, inv, f1, now);
            var (_, t2, book2) := SettleTx(t1, book1, id, inv, f2, later);
            && book1 == book && t2 == t1
            && (book2 != book <==>
                && !f2.lookup && !f2.credit.NoEffect?
                && id != "" && 0 < inv.amount && Ledger.FitsInteger(inv.amount)
                && !Ledger.Credited(book.history, Ledger.Text(id)) && Ledger.Upsertable(book, inv.payer, inv.amount))
            && (book2 != book ==>
                && Ledger.Balance(book2, inv.payer) == Ledger.Balance(book, inv.payer) + inv.amount
                && forall f3, last ::
                     && SettleTx(t2, book2, id, inv, f3, last).1 == t2
                     && SettleTx(t2, book2, id, inv, f3, last).2 == book2)
  {
    var (_, t1, book1) := SettleTx(t, book, id, inv, f1, now);
    assert t1.rows[|t.rows|].name == inv.name && t1.rows[|t.rows|].active;
    assert NameActive(t1.rows, inv.name);
    var book2 := SettleTx(t1, book1, id, inv, f2, later).2;
    if book2 != book {
      assert book2.history[|book.history|].ref == Ledger.Text(id);
      assert Ledger.InvoiceCredit(book2.history[|book.history|], Ledger.Text(id));
    }
  }
}
