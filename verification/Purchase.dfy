/** The purchase of a name in closed form: the split of its price into credits and an
    invoice, and the saga of deducting, registering and refunding, in which every store
    call may fail without effect or commit with its reply lost. */
module Purchase {
  import opened AddressTables
  import opened StoreFaults
  import Registry
  import RegistryEffects
  import Ledger
  import InvoiceClient

  /** What goes wrong while a purchase is handled: the fault of each store call, whether
      BTCPay is configured, and how creating an invoice with it ends. */
  datatype Faults = Faults(
    deduct: Fault, register: Fault, refund: Fault, unconfigured: bool, invoice: InvoiceClient.Outcome)

  /** `owed` is what a rejected purchase logs as still owed to the buyer. */
  datatype Reply =
    | Rejected(status: int, owed: int)
    | RegisteredNow(creditsUsed: int)
    | Invoiced(amount: int, creditsApplied: int)

  const FULL := "purchase_full"
  const PARTIAL := "purchase_partial"

  /** The credits a purchase tries to apply; `creditsRead` is what GetCredits answered. */
  function Applicable(price: int, useCredits: bool, creditsRead: Option<int>): int {
    if useCredits && creditsRead.Some? && creditsRead.value > 0
    then (if creditsRead.value >= price then price else creditsRead.value)
    else 0
  }

  // ---- the saga ---------------------------------------------------------------

  function DeductCall(b: Ledger.Book, p: Pubkey, amount: int, reason: string, username: string, fault: Fault)
    : (Ledger.Result, Ledger.Book)
  {
    Ledger.UnderFault(b, Ledger.DeductTx(b, p, amount, reason, username), fault)
  }

  /** What is logged as owed after giving back `amount`, if anything was deducted. */
  function RefundCall(b: Ledger.Book, p: Pubkey, amount: int, reason: string, username: string, fault: Fault)
    : (int, Ledger.Book)
  {
    if amount <= 0 then (0, b)
    else
      var (result, b') := Ledger.UnderFault(b, Ledger.AddCreditsTx(b, p, amount, reason, username), fault);
      (if result.Done? then 0 else amount, b')
  }

  /** The credits, if any, are deducted by now. */
  function RegisterOrRefundTx(t: Tables, b: Ledger.Book, p: Pubkey, name: Name, credit: int, f: Faults, now: int)
    : (Reply, Tables, Ledger.Book)
  {
    var (outcome, t') := Registry.UnderFault(t, Registry.RegisterTx(t, name, p, false, now), f.register);
    match outcome
    case Committed => (RegisteredNow(credit), t', b)
    case Refused =>
      var (owed, b') := RefundCall(b, p, credit, "username_taken_refund", name.username, f.refund);
      (Rejected(409, owed), t', b')
    case Failed =>
      var (owed, b') := RefundCall(b, p, credit, "purchase_failed_refund", name.username, f.refund);
      (Rejected(500, owed), t', b')
  }

  /** Fully covered by credits, or free. */
  function RegisterAtOnceTx(t: Tables, b: Ledger.Book, p: Pubkey, name: Name, credit: int, f: Faults, now: int)
    : (Reply, Tables, Ledger.Book)
  {
    if credit <= 0 then RegisterOrRefundTx(t, b, p, name, credit, f, now)
    else
      var (result, b') := DeductCall(b, p, credit, FULL, name.username, f.deduct);
      if result.Insufficient? then (Rejected(400, 0), t, b')
      else if !result.Done? then (Rejected(500, 0), t, b')
      else RegisterOrRefundTx(t, b', p, name, credit, f, now)
  }

  /** The rest is invoiced; a deduction reported as failed only makes the invoice larger. */
  function IssueInvoiceTx(b: Ledger.Book, p: Pubkey, username: string, price: int, credit: int, f: Faults)
    : (Reply, Ledger.Book)
  {
    var (result, b') := if credit > 0 then DeductCall(b, p, credit, PARTIAL, username, f.deduct) else (Ledger.Done, b);
    var applied := if result.Done? then credit else 0;
    if f.unconfigured then
      var (owed, b'') := RefundCall(b', p, applied, "btcpay_unavailable_refund", username, f.refund);
      (Rejected(503, owed), b'')
    else if !f.invoice.Created? then
      var (owed, b'') := RefundCall(b', p, applied, "invoice_creation_failed_refund", username, f.refund);
      (Rejected(if f.invoice.Unavailable? then 503 else 500, owed), b'')
    else (Invoiced(price - applied, applied), b')
  }

  function PurchaseTx(t: Tables, b: Ledger.Book, p: Pubkey, name: Name, price: int, credit: int, f: Faults, now: int)
    : (Reply, Tables, Ledger.Book)
  {
    if price == credit then RegisterAtOnceTx(t, b, p, name, credit, f, now)
    else
      var (reply, b') := IssueInvoiceTx(b, p, name.username, price, credit, f);
      (reply, t, b')
  }

  // ---- what happened to the buyer's credits and to the name -------------------

  /** The deduction took effect: the ledger has it, whatever the handler was told. */
  predicate Debited(b: Ledger.Book, p: Pubkey, credit: int, f: Faults) {
    && credit > 0 && !f.deduct.NoEffect?
    && Ledger.Affords(b, p, credit) && credit <= 0x8000_0000
  }

  /** The handler knows of the deduction. */
  predicate Applied(b: Ledger.Book, p: Pubkey, credit: int, f: Faults) {
    Debited(b, p, credit, f) && f.deduct.NoFault?
  }

  /** The name was registered: the registry has it, whatever the handler was told. */
  predicate NameTaken(t: Tables, b: Ledger.Book, p: Pubkey, name: Name, price: int, credit: int, f: Faults, now: int) {
    && price == credit && (credit > 0 ==> Applied(b, p, credit, f))
    && !f.register.NoEffect? && Registry.RegisterTx(t, name, p, false, now).0.Committed?
  }

  predicate Succeeds(t: Tables, b: Ledger.Book, p: Pubkey, name: Name, price: int, credit: int, f: Faults, now: int) {
    if price == credit then NameTaken(t, b, p, name, price, credit, f, now) && f.register.NoFault?
    else !f.unconfigured && f.invoice.Created?
  }

  /** A refund was called for. Of exactly 2^31 sats it cannot be recorded. */
  predicate RefundDue(t: Tables, b: Ledger.Book, p: Pubkey, name: Name, price: int, credit: int, f: Faults, now: int) {
    Applied(b, p, credit, f) && !Succeeds(t, b, p, name, price, credit, f, now)
  }

  predicate Refundable(credit: int, f: Faults) {
    !f.refund.NoEffect? && credit <= 0x7fff_ffff
  }

  /** The change of the buyer's balance: what was taken and what was given back. */
  function Net(t: Tables, b: Ledger.Book, p: Pubkey, name: Name, price: int, credit: int, f: Faults, now: int): int {
    (if RefundDue(t, b, p, name, price, credit, f, now) && Refundable(credit, f) then credit else 0)
    - if Debited(b, p, credit, f) then credit else 0
  }

  /** What the log of a rejected purchase says is owed: a refund due and not confirmed. */
  function Owed(t: Tables, b: Ledger.Book, p: Pubkey, name: Name, price: int, credit: int, f: Faults, now: int): int {
    if RefundDue(t, b, p, name, price, credit, f, now) && !(Refundable(credit, f) && f.refund.NoFault?)
    then credit else 0
  }

  /** What the reply says the purchase cost in credits. */
  function Charged(reply: Reply): int {
    match reply
    case Rejected(_, _) => 0
    case RegisteredNow(used) => if used > 0 then used else 0
    case Invoiced(_, applied) => applied
  }

  /** What the purchase costs in all, credits and invoice. */
  function Total(reply: Reply): int
    requires !reply.Rejected?
  {
    match reply
    case RegisteredNow(used) => used
    case Invoiced(amount, applied) => amount + applied
  }

  lemma DeductMoves(b: Ledger.Book, p: Pubkey, credit: int, reason: string, username: string, f: Faults)
    requires Ledger.Sound(b) && credit > 0 && !Ledger.InvoiceReason(reason)
    ensures var (result, b') := DeductCall(b, p, credit, reason, username, f.deduct);
            && Ledger.Sound(b')
            && Ledger.MovesOnly(b, b', p, if Debited(b, p, credit, f) then -credit else 0)
            && (result.Done? <==> Applied(b, p, credit, f))
            && (result.Insufficient? <==> !f.deduct.NoEffect? && !Ledger.Affords(b, p, credit))
            && (Debited(b, p, credit, f) ==> Ledger.Storable(Ledger.Balance(b', p) + credit))
  {
    Ledger.ApplyKeepsSound(b, Ledger.Deduct(p, credit, reason, username));
  }

  lemma RefundMoves(b: Ledger.Book, p: Pubkey, credit: int, reason: string, username: string, f: Faults)
    requires Ledger.Sound(b) && credit > 0 && !Ledger.InvoiceReason(reason)
    requires credit <= 0x8000_0000 && Ledger.Storable(Ledger.Balance(b, p) + credit)
    ensures var (owed, b') := RefundCall(b, p, credit, reason, username, f.refund);
            && Ledger.Sound(b')
            && Ledger.MovesOnly(b, b', p, if Refundable(credit, f) then credit else 0)
            && owed == if Refundable(credit, f) && f.refund.NoFault? then 0 else credit
  {
    Ledger.ApplyKeepsSound(b, Ledger.AddCredits(p, credit, reason, username));
  }

  /** Giving back what was applied, for whatever reason. */
  lemma RefundEffect(b: Ledger.Book, p: Pubkey, credit: int, reason: string, username: string, why: string, f: Faults)
    requires Ledger.Sound(b) && !Ledger.InvoiceReason(reason) && !Ledger.InvoiceReason(why)
    requires credit > 0 && Applied(b, p, credit, f)
    ensures var b' := DeductCall(b, p, credit, why, username, f.deduct).1;
            var (owed, b'') := RefundCall(b', p, credit, reason, username, f.refund);
            && Ledger.Sound(b'')
            && Ledger.MovesOnly(b, b'', p, if Refundable(credit, f) then 0 else -credit)
            && owed == if Refundable(credit, f) && f.refund.NoFault? then 0 else credit
  {
    DeductMoves(b, p, credit, why, username, f);
    RefundMoves(DeductCall(b, p, credit, why, username, f.deduct).1, p, credit, reason, username, f);
  }

  /** Registering, from the books after the deduction on. */
  lemma RegisterOrRefundEffect(t: Tables, b: Ledger.Book, p: Pubkey, name: Name, credit: int, f: Faults, now: int)
    requires Ledger.Sound(b)
    requires credit > 0 ==> credit <= 0x8000_0000 && Ledger.Storable(Ledger.Balance(b, p) + credit)
    ensures var (reply, t', b') := RegisterOrRefundTx(t, b, p, name, credit, f, now);
            var tx := Registry.RegisterTx(t, name, p, false, now);
            var taken := !f.register.NoEffect? && tx.0.Committed?;
            && Ledger.Sound(b') && !reply.Invoiced?
            && (reply.RegisteredNow? <==> taken && f.register.NoFault?)
            && (reply.RegisteredNow? ==> reply.creditsUsed == credit)
            && t' == (if taken then tx.1 else t)
            && Ledger.MovesOnly(b, b', p, if reply.Rejected? && credit > 0 && Refundable(credit, f) then credit else 0)
            && (reply.Rejected? ==>
                  reply.owed == if credit > 0 && !(Refundable(credit, f) && f.refund.NoFault?) then credit else 0)
  {
    if credit > 0 {
      RefundMoves(b, p, credit, "username_taken_refund", name.username, f);
      RefundMoves(b, p, credit, "purchase_failed_refund", name.username, f);
    }
  }

  lemma AtOnceEffect(t: Tables, b: Ledger.Book, p: Pubkey, name: Name, price: int, f: Faults, now: int)
    requires Ledger.Sound(b)
    ensures var (reply, t', b') := RegisterAtOnceTx(t, b, p, name, price, f, now);
            var taken := NameTaken(t, b, p, name, price, price, f, now);
            && Ledger.Sound(b') && !reply.Invoiced?
            && (reply.RegisteredNow? <==> taken && f.register.NoFault?)
            && (reply.RegisteredNow? ==> reply.creditsUsed == price)
            && Ledger.MovesOnly(b, b', p, Net(t, b, p, name, price, price, f, now))
            && t' == (if taken then Registry.RegisterTx(t, name, p, false, now).1 else t)
            && (reply.Rejected? ==> reply.owed == Owed(t, b, p, name, price, price, f, now))
  {
    if price > 0 {
      DeductMoves(b, p, price, FULL, name.username, f);
      if Applied(b, p, price, f) {
        var b' := DeductCall(b, p, price, FULL, name.username, f.deduct).1;
        RegisterOrRefundEffect(t, b', p, name, price, f, now);
      }
    } else {
      RegisterOrRefundEffect(t, b, p, name, price, f, now);
    }
  }

  lemma InvoiceEffect(t: Tables, b: Ledger.Book, p: Pubkey, name: Name, price: int, credit: int, f: Faults, now: int)
    requires Ledger.Sound(b) && price != credit >= 0
    ensures var (reply, b') := IssueInvoiceTx(b, p, name.username, price, credit, f);
            && Ledger.Sound(b') && !reply.RegisteredNow?
            && (reply.Invoiced? <==> !f.unconfigured && f.invoice.Created?)
            && (reply.Invoiced? ==>
                  && reply.amount + reply.creditsApplied == price
                  && reply.creditsApplied == if Applied(b, p, credit, f) then credit else 0)
            && Ledger.MovesOnly(b, b', p, Net(t, b, p, name, price, credit, f, now))
            && (reply.Rejected? ==> reply.owed == Owed(t, b, p, name, price, credit, f, now))
  {
    if credit > 0 {
      DeductMoves(b, p, credit, PARTIAL, name.username, f);
      if Applied(b, p, credit, f) {
        RefundEffect(b, p, credit, "btcpay_unavailable_refund", name.username, PARTIAL, f);
        RefundEffect(b, p, credit, "invoice_creation_failed_refund", name.username, PARTIAL, f);
      }
    }
  }

  /** The exact effect of a purchase, for every price, balance and placement of faults:
      when it succeeds and how it splits the price, what it took from the buyer and gave
      back, for the buyer alone, whether the name is registered, and what is logged. */
  lemma PurchaseEffect(t: Tables, b: Ledger.Book, p: Pubkey, name: Name, price: int, credit: int, f: Faults, now: int)
    requires Ledger.Sound(b)
    requires price != credit ==> credit >= 0
    ensures var (reply, t', b') := PurchaseTx(t, b, p, name, price, credit, f, now);
            && Ledger.Sound(b')
            && (reply.Rejected? <==> !Succeeds(t, b, p, name, price, credit, f, now))
            && (reply.RegisteredNow? ==> price == credit == reply.creditsUsed)
            && (reply.Invoiced? ==>
                  && reply.amount + reply.creditsApplied == price != credit
                  && reply.creditsApplied == if Applied(b, p, credit, f) then credit else 0)
            && Ledger.MovesOnly(b, b', p, Net(t, b, p, name, price, credit, f, now))
            && t' == (if NameTaken(t, b, p, name, price, credit, f, now)
                      then Registry.RegisterTx(t, name, p, false, now).1 else t)
            && (reply.Rejected? ==> reply.owed == Owed(t, b, p, name, price, credit, f, now))
  {
    if price == credit {
      AtOnceEffect(t, b, p, name, price, f, now);
    } else {
      InvoiceEffect(t, b, p, name, price, credit, f, now);
    }
  }

  // ---- conservation -----------------------------------------------------------

  /** The stores agree with the reply: the buyer, and nobody else, is out exactly the
      credits the reply says were used, and has the name exactly if it says so. */
  ghost predicate Conserves(t: Tables, b: Ledger.Book, p: Pubkey, name: Name, now: int,
                            reply: Reply, t': Tables, b': Ledger.Book)
  {
    && Ledger.MovesOnly(b, b', p, -Charged(reply))
    && t' == if reply.RegisteredNow? then Registry.RegisterTx(t, name, p, false, now).1 else t
  }

  /** The placements that break it: a deduction or a registration that committed without
      the handler hearing of it, and a due refund that did not happen. */
  predicate Breaks(t: Tables, b: Ledger.Book, p: Pubkey, name: Name, price: int, credit: int, f: Faults, now: int) {
    || (Debited(b, p, credit, f) && f.deduct.LostReply?)
    || (NameTaken(t, b, p, name, price, credit, f, now) && f.register.LostReply?)
    || (RefundDue(t, b, p, name, price, credit, f, now) && !Refundable(credit, f))
  }

  lemma PurchaseConservesIff(t: Tables, b: Ledger.Book, p: Pubkey, name: Name, price: int, credit: int,
                             f: Faults, now: int)
    requires Ledger.Sound(b)
    requires price != credit ==> credit >= 0
    ensures var (reply, t', b') := PurchaseTx(t, b, p, name, price, credit, f, now);
            Conserves(t, b, p, name, now, reply, t', b') <==> !Breaks(t, b, p, name, price, credit, f, now)
  {
    PurchaseEffect(t, b, p, name, price, credit, f, now);
    var (reply, t', b') := PurchaseTx(t, b, p, name, price, credit, f, now);
    assert Ledger.MovesOnly(b, b', p, -Charged(reply)) <==>
           Ledger.Balance(b', p) == Ledger.Balance(b, p) - Charged(reply);
    if Registry.RegisterTx(t, name, p, false, now).0.Committed? {
      assert |Registry.RegisterTx(t, name, p, false, now).1.rows| == |t.rows| + 1;
    }
  }

  /** Where the deduction's reply is lost, the credits are gone for nothing: no name, and
      where the price was not covered, an invoice for the whole of it all the same. */
  lemma UnheardDeductionIsForfeited(t: Tables, b: Ledger.Book, p: Pubkey, name: Name, price: int, credit: int,
                                    f: Faults, now: int)
    requires Ledger.Sound(b) && 0 < credit <= price
    requires f.deduct.LostReply? && Debited(b, p, credit, f)
    ensures var (reply, t', b') := PurchaseTx(t, b, p, name, price, credit, f, now);
            && Ledger.MovesOnly(b, b', p, -credit) && t' == t
            && (credit == price ==> reply == Rejected(500, 0))
            && (credit < price && !f.unconfigured && f.invoice.Created? ==> reply == Invoiced(price, 0))
  {
    PurchaseEffect(t, b, p, name, price, credit, f, now);
  }

  /** Where the registration's reply is lost, the buyer is told it failed, keeps the name,
      and gets the credits back unless the refund fails too. */
  lemma UnheardRegistrationIsFree(t: Tables, b: Ledger.Book, p: Pubkey, name: Name, price: int, f: Faults, now: int)
    requires Ledger.Sound(b)
    requires f.register.LostReply? && NameTaken(t, b, p, name, price, price, f, now)
    ensures var (reply, t', b') := PurchaseTx(t, b, p, name, price, price, f, now);
            && reply.Rejected? && reply.status == 500
            && NameActive(t'.rows, name) && |t'.rows| == |t.rows| + 1 && t'.rows[|t.rows|].owner == p
            && Ledger.MovesOnly(b, b', p, if price > 0 && !Refundable(price, f) then -price else 0)
  {
    PurchaseEffect(t, b, p, name, price, price, f, now);
    var t' := PurchaseTx(t, b, p, name, price, price, f, now).1;
    assert t'.rows[|t.rows|].name == name && t'.rows[|t.rows|].active;
  }

  /** Where a due refund does not happen, the buyer is out the credits and has nothing,
      and the log says so. */
  lemma FailedRefundIsOwed(t: Tables, b: Ledger.Book, p: Pubkey, name: Name, price: int, credit: int,
                           f: Faults, now: int)
    requires Ledger.Sound(b) && 0 < credit <= price
    requires RefundDue(t, b, p, name, price, credit, f, now) && !Refundable(credit, f)
    requires !(f.register.LostReply? && NameTaken(t, b, p, name, price, credit, f, now))
    ensures var (reply, t', b') := PurchaseTx(t, b, p, name, price, credit, f, now);
            reply.Rejected? && reply.owed == credit && Ledger.MovesOnly(b, b', p, -credit) && t' == t
  {
    PurchaseEffect(t, b, p, name, price, credit, f, now);
  }

  /** The log never hides a debt of a refund that was due, and overstates it exactly when
      the reply of the refund itself is lost. */
  lemma LoggedDebtIsRealIff(t: Tables, b: Ledger.Book, p: Pubkey, name: Name, price: int, credit: int,
                            f: Faults, now: int)
    requires Ledger.Sound(b) && 0 < credit <= price
    requires RefundDue(t, b, p, name, price, credit, f, now)
    ensures var (reply, t', b') := PurchaseTx(t, b, p, name, price, credit, f, now);
            && reply.Rejected? && Ledger.Balance(b, p) - Ledger.Balance(b', p) <= reply.owed
            && (reply.owed == Ledger.Balance(b, p) - Ledger.Balance(b', p) <==>
                !(f.refund.LostReply? && credit <= 0x7fff_ffff))
  {
    PurchaseEffect(t, b, p, name, price, credit, f, now);
  }

  /** Whom a rejected purchase blames: the balance, the name, BTCPay or the service. */
  function Blame(t: Tables, b: Ledger.Book, p: Pubkey, name: Name, price: int, credit: int, f: Faults): int {
    if price != credit then (if f.unconfigured || f.invoice.Unavailable? then 503 else 500)
    else if credit > 0 && !Applied(b, p, credit, f) then
      (if !f.deduct.NoEffect? && Ledger.Balance(b, p) < credit then 400 else 500)
    else if !f.register.NoEffect? && (NameActive(t.rows, name) || name.username in t.reserved) then 409
    else 500
  }

  lemma RejectionBlames(t: Tables, b: Ledger.Book, p: Pubkey, name: Name, price: int, credit: int, f: Faults, now: int)
    requires Ledger.Sound(b)
    requires price != credit ==> credit >= 0
    ensures var reply := PurchaseTx(t, b, p, name, price, credit, f, now).0;
            reply.Rejected? ==> reply.status == Blame(t, b, p, name, price, credit, f)
  {
    if credit > 0 {
      DeductMoves(b, p, credit, FULL, name.username, f);
    }
    RegistryEffects.RegisterEffect(t, name, p, false, now);
  }

  /** The reason a refund is booked under. */
  function RefundReason(t: Tables, name: Name, price: int, credit: int, f: Faults): string {
    if price != credit then
      (if f.unconfigured then "btcpay_unavailable_refund" else "invoice_creation_failed_refund")
    else if !f.register.NoEffect? && (NameActive(t.rows, name) || name.username in t.reserved)
    then "username_taken_refund"
    else "purchase_failed_refund"
  }

  function OnRecord(p: Pubkey, amount: int, reason: string, name: Name): Ledger.Entry {
    Ledger.Entry(p, amount, reason, Ledger.Text(name.username))
  }

  /** The history tells the whole story: the deduction if it took effect, then the refund if
      it did, each under its own reason and the name, and nothing else. */
  lemma PurchaseOnRecord(t: Tables, b: Ledger.Book, p: Pubkey, name: Name, price: int, credit: int, f: Faults, now: int)
    requires Ledger.Sound(b)
    requires price != credit ==> credit >= 0
    ensures var b' := PurchaseTx(t, b, p, name, price, credit, f, now).2;
            var refunded := RefundDue(t, b, p, name, price, credit, f, now) && Refundable(credit, f);
            b'.history == b.history
              + (if Debited(b, p, credit, f)
                 then [OnRecord(p, -credit, if price == credit then FULL else PARTIAL, name)] else [])
              + (if refunded then [OnRecord(p, credit, RefundReason(t, name, price, credit, f), name)] else [])
  {
    if credit > 0 {
      DeductRecorded(b, p, credit, if price == credit then FULL else PARTIAL, name, f);
    }
    if price == credit {
      AtOnceOnRecord(t, b, p, name, price, f, now);
    } else if Applied(b, p, credit, f) {
      DeductMoves(b, p, credit, PARTIAL, name.username, f);
      var mid := DeductCall(b, p, credit, PARTIAL, name.username, f.deduct).1;
      RefundRecorded(mid, p, credit, RefundReason(t, name, price, credit, f), name, f);
    }
  }

  lemma AtOnceOnRecord(t: Tables, b: Ledger.Book, p: Pubkey, name: Name, price: int, f: Faults, now: int)
    requires Ledger.Sound(b)
    ensures var mid := if price > 0 then DeductCall(b, p, price, FULL, name.username, f.deduct).1 else b;
            var refunded := RefundDue(t, b, p, name, price, price, f, now) && Refundable(price, f);
            RegisterAtOnceTx(t, b, p, name, price, f, now).2.history ==
            mid.history + if refunded then [OnRecord(p, price, RefundReason(t, name, price, price, f), name)] else []
  {
    RegistryEffects.RegisterEffect(t, name, p, false, now);
    if price > 0 {
      DeductMoves(b, p, price, FULL, name.username, f);
      if Applied(b, p, price, f) {
        var mid := DeductCall(b, p, price, FULL, name.username, f.deduct).1;
        RefundRecorded(mid, p, price, RefundReason(t, name, price, price, f), name, f);
      }
    }
  }

  lemma DeductRecorded(b: Ledger.Book, p: Pubkey, credit: int, reason: string, name: Name, f: Faults)
    requires Ledger.Sound(b) && credit > 0 && !Ledger.InvoiceReason(reason)
    ensures DeductCall(b, p, credit, reason, name.username, f.deduct).1.history ==
            b.history + if Debited(b, p, credit, f) then [OnRecord(p, -credit, reason, name)] else []
  {
  }

  lemma RefundRecorded(b: Ledger.Book, p: Pubkey, credit: int, reason: string, name: Name, f: Faults)
    requires Ledger.Sound(b) && credit > 0 && !Ledger.InvoiceReason(reason)
    requires credit <= 0x8000_0000 && Ledger.Storable(Ledger.Balance(b, p) + credit)
    ensures RefundCall(b, p, credit, reason, name.username, f.refund).1.history ==
            b.history + if Refundable(credit, f) then [OnRecord(p, credit, reason, name)] else []
  {
  }

  /** Credits go first: with the balance as it was read, a purchase that asks for them and
      succeeds is paid in credits up to the whole price or the whole balance, whichever is
      less, and by invoice only beyond that. */
  lemma CreditsGoFirst(t: Tables, b: Ledger.Book, p: Pubkey, name: Name, price: int, f: Faults, now: int)
    requires Ledger.Sound(b) && 0 <= price <= 0x8000_0000 && f.deduct.NoFault?
    ensures var credit := Applicable(price, true, Some(Ledger.Balance(b, p)));
            var reply := PurchaseTx(t, b, p, name, price, credit, f, now).0;
            !reply.Rejected? ==>
              && Total(reply) == price
              && 0 <= Charged(reply) <= price && Charged(reply) <= Ledger.Balance(b, p)
              && (Charged(reply) == price || Charged(reply) == Ledger.Balance(b, p))
  {
    PurchaseEffect(t, b, p, name, price, Applicable(price, true, Some(Ledger.Balance(b, p))), f, now);
  }

  /** And a purchase that does not ask for credits, or could not read them, uses none. */
  lemma NoCreditsUnasked(t: Tables, b: Ledger.Book, p: Pubkey, name: Name, price: int, useCredits: bool,
                         creditsRead: Option<int>, f: Faults, now: int)
    requires Ledger.Sound(b) && (!useCredits || creditsRead.None? || creditsRead.value <= 0)
    ensures var (reply, _, b') := PurchaseTx(t, b, p, name, price, Applicable(price, useCredits, creditsRead), f, now);
            b' == b && Charged(reply) == 0
  {
  }

  /** The price is split, credits and invoice, with no part negative and no more credits
      than were read. */
  lemma PriceIsSplit(t: Tables, b: Ledger.Book, p: Pubkey, name: Name, price: int, useCredits: bool,
                     creditsRead: Option<int>, f: Faults, now: int)
    requires Ledger.Sound(b) && price >= 0
    ensures var credit := Applicable(price, useCredits, creditsRead);
            var reply := PurchaseTx(t, b, p, name, price, credit, f, now).0;
            && (reply.RegisteredNow? ==> reply.creditsUsed == price)
            && (reply.Invoiced? ==>
                  reply.amount + reply.creditsApplied == price && reply.amount > 0 && reply.creditsApplied >= 0)
            && (Charged(reply) > 0 ==> useCredits && creditsRead.Some? && Charged(reply) <= creditsRead.value)
            && (reply.Rejected? ==> 0 <= reply.owed <= price)
  {
    var credit := Applicable(price, useCredits, creditsRead);
    PurchaseEffect(t, b, p, name, price, credit, f, now);
  }
}
