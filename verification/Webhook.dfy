/** Settled address invoices: pay first, then register. Deliveries of any number of
    invoices interleave with each other, with redeliveries, with faults, and with
    everything else the service does to the registry and the ledger. */
module Webhook {
  import opened AddressTables
  import Registry
  import RegistryFlags
  import Ledger

  /** What the invoice's metadata and BTCPay say: who pays, for which name, how much. */
  datatype Invoice = Invoice(payer: Pubkey, name: Name, amount: int)

  datatype How = Registered(row: nat) | Credited | NothingOwed | Retry

  /** Progress of one delivery. `Untaken` has seen the name free and unreserved, `Snapped`
      has counted the payer's addresses; either may be stale by the next step. */
  datatype Stage =
    | Received
    | Priced
    | Untaken
    | Snapped(first: bool, promote: bool)
    | Crediting(reason: string)
    | Answered(status: int, how: How)

  datatype Delivery = Delivery(invoice: string, stage: Stage)

  /** A registration that committed: by which delivery, into which row, and whether the
      delivery was told. One that was not goes on to credit its payer. */
  datatype Win = Win(delivery: nat, row: nat, told: bool)

  /** `paid` names the deliveries whose credit committed, heard of or not. */
  datatype System = System(
    t: Tables, book: Ledger.Book, deliveries: seq<Delivery>, wins: seq<Win>, paid: seq<nat>)

  type Invoices = map<string, Invoice>

  // ---- steps ------------------------------------------------------------------

  /** Delivery d, of invoice `id`, takes one step; every store call may fail without
      effect, and the commit of either transaction may succeed with its reply lost. */
  ghost predicate Step(e: Invoices, s: System, s': System, d: nat) {
    && d < |s.deliveries| == |s'.deliveries|
    && var id, before, after := s.deliveries[d].invoice, s.deliveries[d].stage, s'.deliveries[d].stage;
    && id in e
    && s'.deliveries == s.deliveries[d := Delivery(id, after)]
    && match before
       case Received =>
         && s' == s.(deliveries := s'.deliveries)
         && (after == Priced || after == Answered(500, Retry))
       case Priced =>
         && s' == s.(deliveries := s'.deliveries)
         && (|| after == Crediting(Ledger.REGISTRATION_ERROR)
             || after == if NameActive(s.t.rows, e[id].name) || e[id].name.username in s.t.reserved
                         then Crediting(Ledger.RACE_LOSS) else Untaken)
       case Untaken =>
         && s' == s.(deliveries := s'.deliveries)
         && (|| after == Crediting(Ledger.REGISTRATION_ERROR)
             || after == Snapped(!HasActive(s.t.rows, e[id].payer),
                                 Registry.Promotes(s.t.rows, e[id].payer, false)))
       case Snapped(first, promote) =>
         && s'.book == s.book && s'.paid == s.paid
         && (|| WritesName(e, s, s', d)
             || (s'.t == s.t && s'.wins == s.wins && after == Crediting(Ledger.REGISTRATION_ERROR)))
       case Crediting(reason) =>
         && s'.t == s.t && s'.wins == s.wins
         && CreditStep(e[id], id, reason, s.book, s'.book, after)
         && s'.paid == if s'.book == s.book then s.paid else s.paid + [d]
       case Answered(_, _) => false
  }

  /** Insert and commit, the unique indexes permitting; the reply may be lost. */
  ghost predicate WritesName(e: Invoices, s: System, s': System, d: nat)
    requires d < |s.deliveries| == |s'.deliveries|
    requires s.deliveries[d].invoice in e && s.deliveries[d].stage.Snapped?
  {
    var inv, before := e[s.deliveries[d].invoice], s.deliveries[d].stage;
    exists now: int, told: bool ::
      var (outcome, t') := Registry.Claim(s.t, before.first, before.promote, inv.name, inv.payer, false, now);
      && outcome.Committed? && s'.t == t'
      && s'.wins == s.wins + [Win(d, |s.t.rows|, told)]
      && s'.deliveries[d].stage ==
         if told then Answered(200, Registered(|s.t.rows|)) else Crediting(Ledger.REGISTRATION_ERROR)
  }

  predicate CreditStep(inv: Invoice, id: string, reason: string, book: Ledger.Book, book': Ledger.Book, after: Stage) {
    if inv.amount <= 0 then book' == book && after == Answered(200, NothingOwed)
    else
      var (result, posted) := Ledger.CreditOnceTx(book, inv.payer, inv.amount, reason, id);
      || (book' == posted && !result.Aborted? && after == Answered(200, Credited))
      || ((book' == book || book' == posted) && after == Answered(500, Retry))
  }

  /** Anything else the service does: any transaction of the registry, or any of the
      ledger, admin grants under whatever reason and reference included. */
  ghost predicate OthersStep(s: System, s': System) {
    && s' == s.(t := s'.t, book := s'.book)
    && (|| (s'.book == s.book &&
            exists op: Registry.Op :: Registry.Legal(s.t, op) && s'.t == Registry.Apply(s.t, op).1)
        || (s'.t == s.t && exists op: Ledger.Op :: s'.book == Ledger.Apply(s.book, op).1))
  }

  /** BTCPay delivers an invoice, for the first time or again. */
  predicate Arrival(e: Invoices, s: System, s': System) {
    && |s'.deliveries| == |s.deliveries| + 1
    && s'.deliveries[|s.deliveries|].invoice in e
    && s' == s.(deliveries := s.deliveries + [Delivery(s'.deliveries[|s.deliveries|].invoice, Received)])
  }

  ghost predicate Next(e: Invoices, s: System, s': System) {
    (exists d: nat :: Step(e, s, s', d)) || OthersStep(s, s') || Arrival(e, s, s')
  }

  ghost predicate Init(s: System) {
    IndexesHold(s.t.rows) && Ledger.Sound(s.book) && s.deliveries == [] && s.wins == [] && s.paid == []
  }

  ghost predicate IsRun(e: Invoices, run: seq<System>) {
    && run != [] && Init(run[0])
    && forall k | 0 <= k < |run| - 1 :: Next(e, run[k], run[k + 1])
  }

  // ---- the invariant ----------------------------------------------------------

  /** The ownership history records that p owned `name` at some time. */
  predicate OwnedOnce(history: seq<Interval>, name: Name, p: Pubkey) {
    exists k | 0 <= k < |history| :: history[k].name == name && history[k].owner == p
  }

  predicate WinOk(e: Invoices, s: System, w: Win) {
    && w.delivery < |s.deliveries| && w.row < |s.t.rows|
    && s.deliveries[w.delivery].invoice in e
    && var inv, stage := e[s.deliveries[w.delivery].invoice], s.deliveries[w.delivery].stage;
       && s.t.rows[w.row].name == inv.name && OwnedOnce(s.t.history, inv.name, inv.payer)
       && if w.told then stage == Answered(200, Registered(w.row))
          else stage.Crediting? || (stage.Answered? && !stage.how.Registered?)
  }

  predicate PaidOk(s: System, d: nat) {
    && d < |s.deliveries|
    && s.deliveries[d].stage.Answered?
    && (s.deliveries[d].stage.how.Credited? || s.deliveries[d].stage.how.Retry?)
    && Ledger.Credited(s.book.history, Ledger.Text(s.deliveries[d].invoice))
  }

  predicate DeliveryOk(e: Invoices, s: System, d: nat)
    requires d < |s.deliveries|
  {
    var id := s.deliveries[d].invoice;
    && id in e
    && match s.deliveries[d].stage
       case Crediting(reason) => Ledger.InvoiceReason(reason)
       case Answered(status, how) =>
         && status == (if how.Retry? then 500 else 200)
         && (how.Registered? ==> Win(d, how.row, true) in s.wins)
         && (how.Credited? ==> Ledger.Credited(s.book.history, Ledger.Text(id)))
         && (how.NothingOwed? ==> e[id].amount <= 0)
       case _ => true
  }

  ghost predicate Invariant(e: Invoices, s: System) {
    && IndexesHold(s.t.rows)
    && Ledger.Sound(s.book)
    && (forall k | 0 <= k < |s.wins| :: WinOk(e, s, s.wins[k]))
    && (forall k, l | 0 <= k < l < |s.wins| :: s.wins[k].row < s.wins[l].row)
    && (forall k | 0 <= k < |s.paid| :: PaidOk(s, s.paid[k]))
    && (forall k, l | 0 <= k < l < |s.paid| ::
          s.deliveries[s.paid[k]].invoice != s.deliveries[s.paid[l]].invoice)
    && (forall d | 0 <= d < |s.deliveries| :: DeliveryOk(e, s, d))
  }

  // ---- rows keep their names, intervals their owners --------------------------

  predicate Extends(t: Tables, t': Tables) {
    && |t.rows| <= |t'.rows| && |t.history| <= |t'.history|
    && (forall i | 0 <= i < |t.rows| :: t'.rows[i].name == t.rows[i].name)
    && (forall k | 0 <= k < |t.history| ::
          t'.history[k].name == t.history[k].name && t'.history[k].owner == t.history[k].owner)
  }

  lemma ApplyExtends(t: Tables, op: Registry.Op)
    requires IndexesHold(t.rows) && Registry.Legal(t, op)
    ensures Extends(t, Registry.Apply(t, op).1) && IndexesHold(Registry.Apply(t, op).1.rows)
  {
    match op
    case Register(name, owner, auto, now) =>
      ClaimExtends(t, !HasActive(t.rows, owner), Registry.Promotes(t.rows, owner, auto), name, owner, auto, now);
    case Grant(name, owner, now) =>
      ClaimExtends(t, !HasActive(t.rows, owner), false, name, owner, false, now);
    case Transfer(id, to, picks, now) =>
      TransferExtends(t, id, to, picks, now);
    case Revoke(name, now) =>
    case SetFlag(f, name, owner, now) =>
      if Registry.Apply(t, op).1 != t {
        RegistryFlags.ReflagKeepsIndexes(t.rows, f, owner, Find(t.rows, name).value);
      }
  }

  lemma TransferExtends(t: Tables, id: nat, to: Pubkey, picks: Registry.Picks, now: int)
    requires IndexesHold(t.rows) && Registry.LegalPicks(t.rows, id, picks)
    ensures var t' := Registry.TransferTx(t, id, to, picks, now).1;
            Extends(t, t') && IndexesHold(t'.rows)
  {
    RegistryFlags.TransferKeepsIndexes(t, id, to, picks, now);
    if Registry.TransferTx(t, id, to, picks, now).0.Committed? {
      RegistryFlags.TransferRows(t, id, to, picks, now);
    }
  }

  lemma ClaimExtends(t: Tables, first: bool, promote: bool, name: Name, owner: Pubkey, auto: bool, now: int)
    requires IndexesHold(t.rows)
    ensures var t' := Registry.Claim(t, first, promote, name, owner, auto, now).1;
            Extends(t, t') && IndexesHold(t'.rows)
  {
    RegistryFlags.ClaimKeepsIndexes(t, first, promote, name, owner, auto, now);
  }

  /** A delivery stays as it is, or moves on towards an answer. */
  predicate MovesOn(before: Delivery, after: Delivery) {
    && after.invoice == before.invoice
    && (|| after == before
        || (!before.stage.Answered? && !before.stage.Crediting?)
        || (before.stage.Crediting? && after.stage.Answered? && !after.stage.how.Registered?))
  }

  lemma StaysOk(e: Invoices, s: System, s': System)
    requires Invariant(e, s) && Extends(s.t, s'.t) && s.book.history <= s'.book.history
    requires |s.deliveries| <= |s'.deliveries| && s.wins <= s'.wins
    requires forall d | 0 <= d < |s.deliveries| :: MovesOn(s.deliveries[d], s'.deliveries[d])
    ensures forall k | 0 <= k < |s.wins| :: WinOk(e, s', s.wins[k])
    ensures forall k | 0 <= k < |s.paid| :: PaidOk(s', s.paid[k])
    ensures forall d | 0 <= d < |s.deliveries| && s'.deliveries[d] == s.deliveries[d] :: DeliveryOk(e, s', d)
  {
    forall k | 0 <= k < |s.wins| ensures WinOk(e, s', s.wins[k]) {
      var w := s.wins[k];
      assert WinOk(e, s, w);
      var inv := e[s.deliveries[w.delivery].invoice];
      var l :| 0 <= l < |s.t.history| && s.t.history[l].name == inv.name && s.t.history[l].owner == inv.payer;
      assert s'.t.history[l].name == inv.name && s'.t.history[l].owner == inv.payer;
    }
    forall k | 0 <= k < |s.paid| ensures PaidOk(s', s.paid[k]) {
      assert PaidOk(s, s.paid[k]);
      CreditedStays(s.book.history, s'.book.history, Ledger.Text(s.deliveries[s.paid[k]].invoice));
    }
    forall d | 0 <= d < |s.deliveries| && s'.deliveries[d] == s.deliveries[d] ensures DeliveryOk(e, s', d) {
      assert DeliveryOk(e, s, d);
      CreditedStays(s.book.history, s'.book.history, Ledger.Text(s.deliveries[d].invoice));
    }
  }

  lemma CreditedStays(history: seq<Ledger.Entry>, history': seq<Ledger.Entry>, ref: Ledger.Ref)
    requires history <= history'
    ensures Ledger.Credited(history, ref) ==> Ledger.Credited(history', ref)
  {
    if Ledger.Credited(history, ref) {
      var k :| 0 <= k < |history| && Ledger.InvoiceCredit(history[k], ref);
      assert Ledger.InvoiceCredit(history'[k], ref);
    }
  }

  /** What a credit step does to the ledger: nothing, or the invoice's first credit. */
  lemma CreditStepPosts(inv: Invoice, id: string, reason: string, book: Ledger.Book, book': Ledger.Book, after: Stage)
    requires Ledger.Sound(book) && Ledger.InvoiceReason(reason)
    requires CreditStep(inv, id, reason, book, book', after)
    ensures Ledger.Sound(book') && after.Answered? && !after.how.Registered?
    ensures after.how.Credited? ==> Ledger.Credited(book'.history, Ledger.Text(id))
    ensures book' != book ==>
              && !after.how.NothingOwed? && !Ledger.Credited(book.history, Ledger.Text(id))
              && book'.history == book.history + [Ledger.Entry(inv.payer, inv.amount, reason, Ledger.Text(id))]
              && Ledger.Credited(book'.history, Ledger.Text(id))
  {
    Ledger.ApplyKeepsSound(book, Ledger.CreditOnce(inv.payer, inv.amount, reason, id));
    var posted := Ledger.CreditOnceTx(book, inv.payer, inv.amount, reason, id).1;
    if posted != book {
      assert Ledger.InvoiceCredit(posted.history[|book.history|], Ledger.Text(id));
    }
  }

  lemma CreditKeepsInvariant(e: Invoices, s: System, s': System, d: nat, reason: string)
    requires Invariant(e, s) && d < |s.deliveries| == |s'.deliveries|
    requires s.deliveries[d].stage == Crediting(reason)
    requires var id := s.deliveries[d].invoice;
             && s' == s.(book := s'.book, deliveries := s'.deliveries, paid := s'.paid)
             && s'.deliveries == s.deliveries[d := Delivery(id, s'.deliveries[d].stage)]
             && s'.paid == (if s'.book == s.book then s.paid else s.paid + [d])
             && id in e && CreditStep(e[id], id, reason, s.book, s'.book, s'.deliveries[d].stage)
    ensures Invariant(e, s')
  {
    var id := s.deliveries[d].invoice;
    assert DeliveryOk(e, s, d);
    CreditStepPosts(e[id], id, reason, s.book, s'.book, s'.deliveries[d].stage);
    StaysOk(e, s, s');
    assert DeliveryOk(e, s', d);
    PaidGrows(e, s, s', d);
  }

  /** What a delivery credits is credited for the first time. */
  lemma PaidGrows(e: Invoices, s: System, s': System, d: nat)
    requires Invariant(e, s) && d < |s.deliveries| == |s'.deliveries|
    requires forall c | 0 <= c < |s.deliveries| :: s'.deliveries[c].invoice == s.deliveries[c].invoice
    requires forall k | 0 <= k < |s.paid| :: PaidOk(s', s.paid[k])
    requires s'.paid == s.paid || (s'.paid == s.paid + [d] && PaidOk(s', d)
                                   && !Ledger.Credited(s.book.history, Ledger.Text(s.deliveries[d].invoice)))
    ensures forall k | 0 <= k < |s'.paid| :: PaidOk(s', s'.paid[k])
    ensures forall k, l | 0 <= k < l < |s'.paid| ::
              s'.deliveries[s'.paid[k]].invoice != s'.deliveries[s'.paid[l]].invoice
  {
    forall k | 0 <= k < |s.paid| ensures PaidOk(s, s.paid[k]) {
    }
  }

  lemma WriteKeepsInvariant(e: Invoices, s: System, s': System, d: nat)
    requires Invariant(e, s) && Step(e, s, s', d) && s.deliveries[d].stage.Snapped? && WritesName(e, s, s', d)
    ensures Invariant(e, s')
  {
    var inv, before, n := e[s.deliveries[d].invoice], s.deliveries[d].stage, |s.t.rows|;
    var now: int, told: bool :|
      var (outcome, t') := Registry.Claim(s.t, before.first, before.promote, inv.name, inv.payer, false, now);
      && outcome.Committed? && s'.t == t'
      && s'.wins == s.wins + [Win(d, n, told)]
      && s'.deliveries[d].stage ==
         if told then Answered(200, Registered(n)) else Crediting(Ledger.REGISTRATION_ERROR);
    ClaimExtends(s.t, before.first, before.promote, inv.name, inv.payer, false, now);
    assert WinOk(e, s', Win(d, n, told)) by {
      assert s'.t.rows[n].name == inv.name;
      assert s'.t.history[|s.t.history|] == Interval(inv.name, inv.payer, now, None);
    }
    WinKeepsInvariant(e, s, s', d, Win(d, n, told));
  }

  lemma WinKeepsInvariant(e: Invoices, s: System, s': System, d: nat, w: Win)
    requires Invariant(e, s) && d < |s.deliveries| == |s'.deliveries| && s.deliveries[d].stage.Snapped?
    requires s'.deliveries == s.deliveries[d := s'.deliveries[d]] && s'.book == s.book && s'.paid == s.paid
    requires s'.deliveries[d].invoice == s.deliveries[d].invoice
    requires s'.deliveries[d].stage ==
             if w.told then Answered(200, Registered(w.row)) else Crediting(Ledger.REGISTRATION_ERROR)
    requires Extends(s.t, s'.t) && IndexesHold(s'.t.rows)
    requires w.delivery == d && w.row == |s.t.rows| && s'.wins == s.wins + [w] && WinOk(e, s', w)
    ensures Invariant(e, s')
  {
    StaysOk(e, s, s');
    assert DeliveryOk(e, s, d);
    assert DeliveryOk(e, s', d) by {
      assert s'.wins[|s.wins|] == w;
    }
    forall k | 0 <= k < |s'.wins| ensures WinOk(e, s', s'.wins[k]) {
    }
    forall k, l | 0 <= k < l < |s'.wins| ensures s'.wins[k].row < s'.wins[l].row {
      assert WinOk(e, s, s.wins[k]);
    }
    forall k, l | 0 <= k < l < |s'.paid|
      ensures s'.deliveries[s'.paid[k]].invoice != s'.deliveries[s'.paid[l]].invoice
    {
      assert PaidOk(s, s.paid[k]) && PaidOk(s, s.paid[l]);
    }
    forall c | 0 <= c < |s'.deliveries| ensures DeliveryOk(e, s', c) {
    }
  }

  lemma StepKeepsInvariant(e: Invoices, s: System, s': System, d: nat)
    requires Invariant(e, s) && Step(e, s, s', d)
    ensures Invariant(e, s')
  {
    if s.deliveries[d].stage.Crediting? {
      CreditKeepsInvariant(e, s, s', d, s.deliveries[d].stage.reason);
    } else if s.deliveries[d].stage.Snapped? && WritesName(e, s, s', d) {
      WriteKeepsInvariant(e, s, s', d);
    } else {
      assert s' == s.(deliveries := s'.deliveries);
      StaysOk(e, s, s');
      assert DeliveryOk(e, s', d);
      SamePayersStay(e, s, s');
    }
  }

  lemma SamePayersStay(e: Invoices, s: System, s': System)
    requires Invariant(e, s) && |s.deliveries| <= |s'.deliveries| && s'.paid == s.paid
    requires forall d | 0 <= d < |s.deliveries| :: s'.deliveries[d].invoice == s.deliveries[d].invoice
    ensures forall k, l | 0 <= k < l < |s'.paid| ::
              s'.paid[k] < |s'.deliveries| && s'.paid[l] < |s'.deliveries| &&
              s'.deliveries[s'.paid[k]].invoice != s'.deliveries[s'.paid[l]].invoice
  {
    assert forall k | 0 <= k < |s.paid| :: PaidOk(s, s.paid[k]);
  }

  lemma LedgerAppends(book: Ledger.Book, op: Ledger.Op)
    ensures book.history <= Ledger.Apply(book, op).1.history
  {
  }

  lemma OthersKeepInvariant(e: Invoices, s: System, s': System)
    requires Invariant(e, s) && OthersStep(s, s')
    ensures Invariant(e, s')
  {
    if s'.t != s.t {
      var op: Registry.Op :| Registry.Legal(s.t, op) && s'.t == Registry.Apply(s.t, op).1;
      ApplyExtends(s.t, op);
    } else if s'.book != s.book {
      var op: Ledger.Op :| s'.book == Ledger.Apply(s.book, op).1;
      Ledger.ApplyKeepsSound(s.book, op);
      LedgerAppends(s.book, op);
    }
    StaysOk(e, s, s');
  }

  lemma NextKeepsInvariant(e: Invoices, s: System, s': System)
    requires Invariant(e, s) && Next(e, s, s')
    ensures Invariant(e, s')
  {
    if d: nat :| Step(e, s, s', d) {
      StepKeepsInvariant(e, s, s', d);
    } else if Arrival(e, s, s') {
      StaysOk(e, s, s');
      SamePayersStay(e, s, s');
      assert DeliveryOk(e, s', |s.deliveries|);
    } else {
      OthersKeepInvariant(e, s, s');
    }
  }

  lemma {:induction false} InvariantHolds(e: Invoices, run: seq<System>, k: nat)
    requires IsRun(e, run) && k < |run|
    ensures Invariant(e, run[k])
  {
    if k != 0 {
      InvariantHolds(e, run, k - 1);
      assert Next(e, run[k - 1], run[k - 1 + 1]);
      NextKeepsInvariant(e, run[k - 1], run[k]);
    }
  }

  // ---- one registration per name, one credit per invoice ----------------------

  /** First payment wins: in every state of every run, two registrations that
      deliveries committed are for different names. */
  lemma FirstPaymentWins(e: Invoices, run: seq<System>, at: nat, k: nat, l: nat)
    requires IsRun(e, run) && at < |run|
    requires k < l < |run[at].wins|
    ensures var s := run[at];
            && s.wins[k].delivery < |s.deliveries| && s.wins[l].delivery < |s.deliveries|
            && var a, b := s.deliveries[s.wins[k].delivery].invoice, s.deliveries[s.wins[l].delivery].invoice;
               a in e && b in e && e[a].name != e[b].name && a != b
  {
    InvariantHolds(e, run, at);
    var s := run[at];
    assert WinOk(e, s, s.wins[k]) && WinOk(e, s, s.wins[l]);
  }

  /** Whatever else writes to the ledger, an invoice has at most one credit row, and at
      most one delivery ever credited it. */
  lemma OneCreditPerInvoice(e: Invoices, run: seq<System>, at: nat, id: string)
    requires IsRun(e, run) && at < |run|
    ensures forall k, l | 0 <= k < |run[at].book.history| && 0 <= l < |run[at].book.history| ::
              (&& Ledger.InvoiceCredit(run[at].book.history[k], Ledger.Text(id))
               && Ledger.InvoiceCredit(run[at].book.history[l], Ledger.Text(id))) ==> k == l
    ensures forall k, l | 0 <= k < |run[at].paid| && 0 <= l < |run[at].paid| ::
              PaidFor(run[at], run[at].paid[k], id) && PaidFor(run[at], run[at].paid[l], id) ==> k == l
  {
    InvariantHolds(e, run, at);
  }

  /** Delivery d is one of invoice `id`, and its credit committed. */
  predicate PaidFor(s: System, d: nat, id: string) {
    d < |s.deliveries| && s.deliveries[d].invoice == id && d in s.paid
  }

  // ---- whose credit it is -----------------------------------------------------

  /** The row is no credit of invoice `id`, or is its payer's and of its amount. */
  predicate RightEntry(inv: Invoice, id: string, entry: Ledger.Entry) {
    Ledger.InvoiceCredit(entry, Ledger.Text(id)) ==> entry.owner == inv.payer && entry.amount == inv.amount
  }

  predicate RightFor(inv: Invoice, id: string, book: Ledger.Book) {
    forall k | 0 <= k < |book.history| :: RightEntry(inv, id, book.history[k])
  }

  /** The call writes under one of the webhook's reasons and the invoice's id, but for
      somebody else or another amount. AddCredits, behind the admin grant, takes any. */
  predicate Misfiled(inv: Invoice, id: string, op: Ledger.Op) {
    match op
    case AddCredits(p, amount, reason, ref) =>
      Ledger.InvoiceReason(reason) && ref == id && (p != inv.payer || amount != inv.amount)
    case CreditOnce(p, amount, reason, ref) =>
      Ledger.InvoiceReason(reason) && ref == id && (p != inv.payer || amount != inv.amount)
    case Deduct(p, amount, reason, ref) =>
      Ledger.InvoiceReason(reason) && ref == id && (p != inv.payer || -amount != inv.amount)
    case _ => false
  }

  /** The exact guard: a write that takes effect leaves an invoice's credit right unless
      it is misfiled. */
  lemma RightAfterIff(inv: Invoice, id: string, book: Ledger.Book, op: Ledger.Op)
    requires Ledger.Apply(book, op).1 != book && RightFor(inv, id, book)
    ensures RightFor(inv, id, Ledger.Apply(book, op).1) <==> !Misfiled(inv, id, op)
  {
    var history, history' := book.history, Ledger.Apply(book, op).1.history;
    assert |history'| == |history| + 1 && history'[..|history|] == history;
    assert RightEntry(inv, id, history'[|history|]) <==> !Misfiled(inv, id, op);
    assert forall k | 0 <= k < |history| :: history'[k] == history[k];
  }

  /** The step is a misfiled write by the rest of the service, and takes effect. */
  ghost predicate Misfiles(inv: Invoice, id: string, s: System, s': System) {
    && s'.book != s.book && s'.deliveries == s.deliveries
    && exists op: Ledger.Op :: Misfiled(inv, id, op) && s'.book == Ledger.Apply(s.book, op).1
  }

  lemma NextKeepsRightIff(e: Invoices, s: System, s': System, id: string)
    requires Invariant(e, s) && Next(e, s, s') && id in e
    ensures RightFor(e[id], id, s'.book) <==> RightFor(e[id], id, s.book) && !Misfiles(e[id], id, s, s')
  {
    var inv := e[id];
    if s'.book != s.book {
      if d: nat :| Step(e, s, s', d) {
        var own := s.deliveries[d].invoice;
        assert s.deliveries[d].stage.Crediting? && DeliveryOk(e, s, d);
        CreditStepPosts(e[own], own, s.deliveries[d].stage.reason, s.book, s'.book, s'.deliveries[d].stage);
        assert s'.deliveries != s.deliveries by { assert s'.deliveries[d] != s.deliveries[d]; }
        assert forall k | 0 <= k < |s.book.history| :: s'.book.history[k] == s.book.history[k];
      } else {
        var op: Ledger.Op :| s'.book == Ledger.Apply(s.book, op).1;
        LedgerAppends(s.book, op);
        assert forall k | 0 <= k < |s.book.history| :: s'.book.history[k] == s.book.history[k];
        if RightFor(inv, id, s.book) {
          RightAfterIff(inv, id, s.book, op);
          if Misfiles(inv, id, s, s') {
            var bad: Ledger.Op :| Misfiled(inv, id, bad) && s'.book == Ledger.Apply(s.book, bad).1;
            RightAfterIff(inv, id, s.book, bad);
          }
        }
      }
    }
  }

  /** In every run, the credit rows of an invoice are right if and only if nothing was
      misfiled under its id so far. */
  lemma {:induction false} CreditsRightIff(e: Invoices, run: seq<System>, at: nat, id: string)
    requires IsRun(e, run) && at < |run| && id in e
    ensures RightFor(e[id], id, run[at].book) <==>
            RightFor(e[id], id, run[0].book) && forall k | 0 <= k < at :: !Misfiles(e[id], id, run[k], run[k + 1])
  {
    if at == 0 {
    } else {
      CreditsRightIff(e, run, at - 1, id);
      InvariantHolds(e, run, at - 1);
      assert Next(e, run[at - 1], run[at - 1 + 1]);
      NextKeepsRightIff(e, run[at - 1], run[at - 1 + 1], id);
    }
  }

  /** The payer has been credited exactly the invoice's amount, for that invoice. */
  predicate PaidBack(inv: Invoice, id: string, book: Ledger.Book) {
    exists k | 0 <= k < |book.history| ::
      Ledger.InvoiceCredit(book.history[k], Ledger.Text(id))
      && book.history[k].owner == inv.payer && book.history[k].amount == inv.amount
  }

  /** Nobody pays for nothing: a delivery acknowledged for a positive amount has, itself,
      registered its payer as an owner of the name, or reports a credit; and a reported
      credit is the payer's and of that amount if and only if nothing was ever misfiled
      under the invoice's id. */
  lemma AcknowledgedIsSettled(e: Invoices, run: seq<System>, at: nat, d: nat)
    requires IsRun(e, run) && at < |run| && d < |run[at].deliveries|
    requires run[at].deliveries[d].stage.Answered? && run[at].deliveries[d].stage.status == 200
    requires run[at].deliveries[d].invoice in e && e[run[at].deliveries[d].invoice].amount > 0
    ensures var s, id, how := run[at], run[at].deliveries[d].invoice, run[at].deliveries[d].stage.how;
            && (how.Registered? || how.Credited?)
            && (how.Registered? ==>
                  && how.row < |s.t.rows| && Win(d, how.row, true) in s.wins
                  && s.t.rows[how.row].name == e[id].name && OwnedOnce(s.t.history, e[id].name, e[id].payer))
            && (how.Credited? ==>
                  (PaidBack(e[id], id, s.book) <==>
                   && RightFor(e[id], id, run[0].book)
                   && forall k | 0 <= k < at :: !Misfiles(e[id], id, run[k], run[k + 1])))
  {
    InvariantHolds(e, run, at);
    var s, id := run[at], run[at].deliveries[d].invoice;
    assert DeliveryOk(e, s, d);
    var how := s.deliveries[d].stage.how;
    if how.Registered? {
      var k :| 0 <= k < |s.wins| && s.wins[k] == Win(d, how.row, true);
      assert WinOk(e, s, s.wins[k]);
    } else {
      CreditsRightIff(e, run, at, id);
      var k :| 0 <= k < |s.book.history| && Ledger.InvoiceCredit(s.book.history[k], Ledger.Text(id));
      OneCreditPerInvoice(e, run, at, id);
      assert PaidBack(e[id], id, s.book) <==> RightEntry(e[id], id, s.book.history[k]);
      assert RightFor(e[id], id, s.book) <==> RightEntry(e[id], id, s.book.history[k]);
    }
  }

  /** What a misfiled grant does for good: from then on the webhook takes the invoice as
      credited, and no delivery of it moves a balance again. */
  lemma MisfiledGrantSwallowsCredit(book: Ledger.Book, inv: Invoice, id: string, op: Ledger.Op, reason: string)
    requires inv.amount > 0 && Ledger.FitsInteger(inv.amount) && id != "" && Ledger.InvoiceReason(reason)
    requires op.AddCredits? && Misfiled(inv, id, op) && Ledger.Apply(book, op).0.Done?
    ensures var after := Ledger.Apply(book, op).1;
            && CreditStep(inv, id, reason, after, after, Answered(200, Credited))
            && forall book', stage :: CreditStep(inv, id, reason, after, book', stage) ==> book' == after
    ensures op.owner != inv.payer ==>
              Ledger.Balance(Ledger.Apply(book, op).1, inv.payer) == Ledger.Balance(book, inv.payer)
  {
    var after := Ledger.Apply(book, op).1;
    assert Ledger.InvoiceCredit(after.history[|book.history|], Ledger.Text(id));
  }

  // ---- name or credit ---------------------------------------------------------

  /** Over every run: an invoice that both bought its name and was credited by a delivery
      was delivered again, or its winning delivery lost the reply of the commit. */
  lemma BothOnlyIfRedeliveredOrUnheard(e: Invoices, run: seq<System>, at: nat, k: nat, l: nat)
    requires IsRun(e, run) && at < |run|
    requires k < |run[at].wins| && l < |run[at].paid|
    requires var s := run[at];
             && s.wins[k].delivery < |s.deliveries| && s.paid[l] < |s.deliveries|
             && s.deliveries[s.wins[k].delivery].invoice == s.deliveries[s.paid[l]].invoice
    ensures run[at].paid[l] != run[at].wins[k].delivery || !run[at].wins[k].told
  {
    InvariantHolds(e, run, at);
    var s := run[at];
    assert WinOk(e, s, s.wins[k]) && PaidOk(s, s.paid[l]);
  }

  /** Some delivery of `id` credited it; otherwise a credit on record is a grant by hand. */
  predicate PaidByDelivery(s: System, id: string) {
    exists l | 0 <= l < |s.paid| :: PaidFor(s, s.paid[l], id)
  }

  /** Name or credit, exactly: an invoice delivered once, which bought its name and was
      acknowledged, is credited as well if and only if that delivery was not told of its
      own registration. */
  lemma NameAndCreditIff(e: Invoices, run: seq<System>, at: nat, k: nat)
    requires IsRun(e, run) && at < |run| && k < |run[at].wins|
    requires var s, d := run[at], run[at].wins[k].delivery;
             && d < |s.deliveries| && s.deliveries[d].invoice in e && e[s.deliveries[d].invoice].amount > 0
             && (forall c | 0 <= c < |s.deliveries| && c != d :: s.deliveries[c].invoice != s.deliveries[d].invoice)
             && s.deliveries[d].stage.Answered? && s.deliveries[d].stage.status == 200
             && (Ledger.Credited(s.book.history, Ledger.Text(s.deliveries[d].invoice)) ==>
                 PaidByDelivery(s, s.deliveries[d].invoice))
    ensures var s, w := run[at], run[at].wins[k];
            Ledger.Credited(s.book.history, Ledger.Text(s.deliveries[w.delivery].invoice)) <==> !w.told
  {
    InvariantHolds(e, run, at);
    var s, w := run[at], run[at].wins[k];
    var id := s.deliveries[w.delivery].invoice;
    assert WinOk(e, s, w) && DeliveryOk(e, s, w.delivery);
    if PaidByDelivery(s, id) {
      var l :| 0 <= l < |s.paid| && PaidFor(s, s.paid[l], id);
      assert PaidOk(s, s.paid[l]);
    }
  }
}
