/** The two request handlers that move credits and names together, as the service runs
    them: the purchase of a name, and the delivery of a settled invoice for one. */
module Handlers {
  import opened AddressTables
  import opened StoreFaults
  import opened Purchase
  import Registry
  import AddressStore
  import Ledger
  import NamePrice
  import Webhook
  import SerialDelivery

  class Desk {
    const store: AddressStore.Store
    const credits: Ledger.CreditStore

    constructor (store: AddressStore.Store, credits: Ledger.CreditStore)
      ensures this.store == store && this.credits == credits
    {
      this.store, this.credits := store, credits;
    }

    // ---- calls that may go wrong ------------------------------------------------

    method Register(p: Pubkey, name: Name, fault: Fault, now: int) returns (outcome: Registry.Outcome)
      requires store.Valid()
      modifies store
      ensures store.Valid()
      ensures var before := old(store.Contents());
              (outcome, store.Contents()) ==
              Registry.UnderFault(before, Registry.RegisterTx(before, name, p, false, now), fault)
    {
      if fault.NoEffect? {
        return Registry.Failed;
      }
      outcome := store.AtomicRegisterAddress(name, p, false, now);
      if fault.LostReply? && outcome.Committed? {
        outcome := Registry.Failed;
      }
    }

    method Deduct(p: Pubkey, amount: int, reason: string, username: string, fault: Fault)
      returns (result: Ledger.Result)
      modifies credits
      ensures (result, credits.Contents()) == DeductCall(old(credits.Contents()), p, amount, reason, username, fault)
    {
      if fault.NoEffect? {
        return Ledger.Aborted;
      }
      result := credits.DeductCredits(p, amount, reason, username);
      if fault.LostReply? && result.Done? {
        result := Ledger.Aborted;
      }
    }

    /** Give back what was deducted, if anything. */
    method Refund(p: Pubkey, amount: int, reason: string, username: string, fault: Fault) returns (owed: int)
      modifies credits
      ensures (owed, credits.Contents()) == RefundCall(old(credits.Contents()), p, amount, reason, username, fault)
    {
      if amount <= 0 {
        return 0;
      }
      if fault.NoEffect? {
        return amount;
      }
      var result := credits.AddCredits(p, amount, reason, username);
      if fault.LostReply? && result.Done? {
        result := Ledger.Aborted;
      }
      owed := if result.Done? then 0 else amount;
    }

    // ---- the purchase -----------------------------------------------------------

    method RegisterAtOnce(p: Pubkey, name: Name, creditsApplied: int, f: Faults, now: int) returns (reply: Reply)
      requires store.Valid()
      modifies store, credits
      ensures store.Valid()
      ensures (reply, store.Contents(), credits.Contents()) ==
              RegisterAtOnceTx(old(store.Contents()), old(credits.Contents()), p, name, creditsApplied, f, now)
    {
      if creditsApplied > 0 {
        var deducted := Deduct(p, creditsApplied, FULL, name.username, f.deduct);
        if deducted.Insufficient? {
          return Rejected(400, 0);
        }
        if !deducted.Done? {
          return Rejected(500, 0);
        }
      }
      var outcome := Register(p, name, f.register, now);
      if outcome.Failed? {
        var owed := Refund(p, creditsApplied, "purchase_failed_refund", name.username, f.refund);
        return Rejected(500, owed);
      }
      if outcome.Refused? {
        var owed := Refund(p, creditsApplied, "username_taken_refund", name.username, f.refund);
        return Rejected(409, owed);
      }
      reply := RegisteredNow(creditsApplied);
    }

    method IssueInvoice(p: Pubkey, username: string, price: int, credit: int, f: Faults) returns (reply: Reply)
      requires credit >= 0
      modifies credits
      ensures (reply, credits.Contents()) == IssueInvoiceTx(old(credits.Contents()), p, username, price, credit, f)
    {
      var creditsApplied, finalPrice := credit, price - credit;
      if creditsApplied > 0 {
        var deducted := Deduct(p, creditsApplied, PARTIAL, username, f.deduct);
        if !deducted.Done? {
          creditsApplied := 0;
          finalPrice := price;
        }
      }
      if f.unconfigured {
        var owed := Refund(p, creditsApplied, "btcpay_unavailable_refund", username, f.refund);
        return Rejected(503, owed);
      }
      if !f.invoice.Created? {
        var owed := Refund(p, creditsApplied, "invoice_creation_failed_refund", username, f.refund);
        return Rejected(if f.invoice.Unavailable? then 503 else 500, owed);
      }
      reply := Invoiced(finalPrice, creditsApplied);
    }

    /** The handler from pricing on. `creditsRead` is what GetCredits answered, None if
        it failed: by the time of the deduction the balance may be another. */
    method CreatePurchaseInvoice(p: Pubkey, name: Name, base: Option<int>, countFails: bool, catalog: NamePrice.Lookup,
                                 useCredits: bool, creditsRead: Option<int>, f: Faults, now: int)
      returns (reply: Reply)
      requires store.Valid() && Ledger.Sound(credits.Contents())
      modifies store, credits
      ensures store.Valid() && Ledger.Sound(credits.Contents())
      ensures var priced := NamePrice.PriceNameFor(old(store.rows), p, base, countFails, catalog);
              var t, b := old(store.Contents()), old(credits.Contents());
              if priced.None? then reply == Rejected(500, 0) && store.Contents() == t && credits.Contents() == b
              else
                var price := priced.value.sats;
                var credit := Applicable(price, useCredits, creditsRead);
                && (reply, store.Contents(), credits.Contents()) == PurchaseTx(t, b, p, name, price, credit, f, now)
                && (Conserves(t, b, p, name, now, reply, store.Contents(), credits.Contents()) <==>
                    !Breaks(t, b, p, name, price, credit, f, now))
      // a purchase that succeeds covers the name's price, and no more
      ensures !reply.Rejected? ==>
                base.Some? && NamePrice.Costs(old(store.rows), p, base.value, catalog, Total(reply))
    {
      var priced := NamePrice.PriceNameFor(store.rows, p, base, countFails, catalog);
      if priced.None? {
        return Rejected(500, 0);
      }
      NamePrice.PriceInNumbers(store.rows, p, base, countFails, catalog);
      var price := priced.value.sats;
      var creditsApplied := 0;
      if useCredits && creditsRead.Some? && creditsRead.value > 0 {
        creditsApplied := if creditsRead.value >= price then price else creditsRead.value;
      }
      PurchaseEffect(store.Contents(), credits.Contents(), p, name, price, creditsApplied, f, now);
      PurchaseConservesIff(store.Contents(), credits.Contents(), p, name, price, creditsApplied, f, now);
      var finalPrice := price - creditsApplied;
      if finalPrice == 0 {
        reply := RegisterAtOnce(p, name, creditsApplied, f, now);
      } else {
        reply := IssueInvoice(p, name.username, price, creditsApplied, f);
      }
    }

    // ---- the webhook ------------------------------------------------------------

    /** The address branch of the webhook, for one delivery of invoice `id`. */
    method HandleSettledInvoice(id: string, invoice: Webhook.Invoice, f: SerialDelivery.Faults, now: int)
      returns (answer: Webhook.Stage)
      requires store.Valid()
      modifies store, credits
      ensures store.Valid()
      ensures (answer, store.Contents(), credits.Contents()) ==
              SerialDelivery.SettleTx(old(store.Contents()), old(credits.Contents()), id, invoice, f, now)
    {
      if f.lookup {
        return Webhook.Answered(500, Webhook.Retry);
      }
      var amount := invoice.amount;
      var row := |store.rows|;
      var outcome := Register(invoice.payer, invoice.name, f.register, now);
      if outcome.Committed? {
        return Webhook.Answered(200, Webhook.Registered(row));
      }
      if amount > 0 {
        var reason := if outcome.Refused? then Ledger.RACE_LOSS else Ledger.REGISTRATION_ERROR;
        var result := CreditOnce(invoice.payer, amount, reason, id, f.credit);
        if result.Aborted? {
          return Webhook.Answered(500, Webhook.Retry);
        }
        return Webhook.Answered(200, Webhook.Credited);
      }
      answer := Webhook.Answered(200, Webhook.NothingOwed);
    }

    method CreditOnce(p: Pubkey, amount: int, reason: string, id: string, fault: Fault) returns (result: Ledger.Result)
      modifies credits
      ensures var before := old(credits.Contents());
              (result, credits.Contents()) ==
              Ledger.UnderFault(before, Ledger.CreditOnceTx(before, p, amount, reason, id), fault)
    {
      if fault.NoEffect? {
        return Ledger.Aborted;
      }
      result := credits.AddInvoiceCreditOnce(p, amount, reason, id);
      if fault.LostReply? && result.Done? {
        result := Ledger.Aborted;
      }
    }
  }

  /** A buyer who loses the race gets back the invoice and nothing else: after paying it,
      the buyer is made whole if and only if no credits had been deducted towards the
      price, whether the purchase reported them or not. */
  lemma RaceLossMakesWholeIff(t: Tables, b: Ledger.Book, p: Pubkey, name: Name, price: int, credit: int, f: Faults,
                              now: int, id: string, t2: Tables, later: int)
    requires Ledger.Sound(b) && 0 <= credit < price && !Ledger.Credited(b.history, Ledger.Text(id))
    requires PurchaseTx(t, b, p, name, price, credit, f, now).0.Invoiced?
    requires var (reply, _, b') := PurchaseTx(t, b, p, name, price, credit, f, now);
             var inv := Webhook.Invoice(p, name, reply.amount);
             SerialDelivery.SettleTx(t2, b', id, inv, SerialDelivery.NO_FAULTS, later).0
             == Webhook.Answered(200, Webhook.Credited)
    ensures var (reply, _, b') := PurchaseTx(t, b, p, name, price, credit, f, now);
            var inv := Webhook.Invoice(p, name, reply.amount);
            var gained := Ledger.Balance(SerialDelivery.SettleTx(t2, b', id, inv, SerialDelivery.NO_FAULTS, later).2, p)
                          - Ledger.Balance(b, p);
            && gained == reply.amount - (if Debited(b, p, credit, f) then credit else 0)
            && (gained == reply.amount <==> !Debited(b, p, credit, f))
  {
    PurchaseEffect(t, b, p, name, price, credit, f, now);
    var b' := PurchaseTx(t, b, p, name, price, credit, f, now).2;
    DeductionIsNoInvoiceCredit(b, p, credit, name.username, f, id);
    assert !Ledger.Credited(b'.history, Ledger.Text(id));
  }

  lemma DeductionIsNoInvoiceCredit(b: Ledger.Book, p: Pubkey, credit: int, username: string, f: Faults, id: string)
    requires !Ledger.Credited(b.history, Ledger.Text(id))
    ensures !Ledger.Credited(DeductCall(b, p, credit, PARTIAL, username, f.deduct).1.history, Ledger.Text(id))
  {
    var history' := DeductCall(b, p, credit, PARTIAL, username, f.deduct).1.history;
    assert forall k | 0 <= k < |b.history| :: !Ledger.InvoiceCredit(b.history[k], Ledger.Text(id));
    forall k | 0 <= k < |history'| ensures !Ledger.InvoiceCredit(history'[k], Ledger.Text(id)) {
      if k < |b.history| {
        assert history'[k] == b.history[k];
      } else {
        assert history'[k].reason == PARTIAL;
      }
    }
  }
}
