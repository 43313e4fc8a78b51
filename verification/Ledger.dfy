/** The credit ledger: balances, their history, and withdrawals. The closed form of
    each transaction, the invariant of every run, and the transactions themselves. */
module Ledger {
  import opened AddressTables
  import opened StoreFaults

  /** Withdrawals write the reference withdrawal_<id>. */
  datatype Ref = Text(text: string) | WithdrawalRef(id: nat)

  datatype Entry = Entry(owner: Pubkey, amount: int, reason: string, ref: Ref)

  datatype Withdrawal = Withdrawal(owner: Pubkey, amount: int)

  /** The tables pubkey_credits, credit_history and credit_withdrawals. */
  datatype Book = Book(balances: map<Pubkey, int>, history: seq<Entry>, withdrawals: seq<Withdrawal>)

  datatype Result = Done | Insufficient | AlreadyCredited | Aborted

  const RACE_LOSS := "race_loss"
  const REGISTRATION_ERROR := "registration_error"

  predicate FitsInteger(n: int) { -0x8000_0000 <= n <= 0x7fff_ffff }

  predicate FitsBigint(n: int) { -0x8000_0000_0000_0000 <= n <= 0x7fff_ffff_ffff_ffff }

  // ---- constraints ------------------------------------------------------------

  predicate InvoiceReason(reason: string) {
    reason == RACE_LOSS || reason == REGISTRATION_ERROR
  }

  /** The key of the partial unique index of migration 012. */
  predicate InvoiceCredit(e: Entry, ref: Ref) {
    InvoiceReason(e.reason) && e.ref == ref
  }

  predicate Credited(history: seq<Entry>, ref: Ref) {
    exists k | 0 <= k < |history| :: InvoiceCredit(history[k], ref)
  }

  /** INTEGER column and partial unique index of credit_history. */
  predicate Insertable(history: seq<Entry>, e: Entry) {
    FitsInteger(e.amount) && !(InvoiceReason(e.reason) && Credited(history, e.ref))
  }

  /** balance_non_negative and the BIGINT column. */
  predicate Storable(balance: int) {
    0 <= balance && FitsBigint(balance)
  }

  // ---- transactions in closed form --------------------------------------------

  function Balance(b: Book, p: Pubkey): int {
    if p in b.balances then b.balances[p] else 0
  }

  /** Add e's amount to its owner's balance and e to the history. */
  function Post(b: Book, e: Entry): Book {
    b.(balances := b.balances[e.owner := Balance(b, e.owner) + e.amount], history := b.history + [e])
  }

  /** The proposed row of an upsert is checked before the conflict is looked for, so
      a negative amount fails even where a balance exists. */
  predicate Upsertable(b: Book, p: Pubkey, amount: int) {
    Storable(amount) && Storable(Balance(b, p) + amount)
  }

  function AddCreditsTx(b: Book, p: Pubkey, amount: int, reason: string, ref: string): (Result, Book) {
    var e := Entry(p, amount, reason, Text(ref));
    if Upsertable(b, p, amount) && Insertable(b.history, e) then (Done, Post(b, e)) else (Aborted, b)
  }

  function CreditOnceTx(b: Book, p: Pubkey, amount: int, reason: string, invoice: string): (Result, Book) {
    var e := Entry(p, amount, reason, Text(invoice));
    if invoice == "" || !FitsInteger(amount) then (Aborted, b)
    else if InvoiceReason(reason) && Credited(b.history, e.ref) then (AlreadyCredited, b)
    else if Upsertable(b, p, amount) then (Done, Post(b, e))
    else (Aborted, b)
  }

  predicate Affords(b: Book, p: Pubkey, amount: int) {
    p in b.balances && b.balances[p] >= amount
  }

  function DeductTx(b: Book, p: Pubkey, amount: int, reason: string, ref: string): (Result, Book) {
    var e := Entry(p, -amount, reason, Text(ref));
    if amount == 0 then (Done, b)
    else if !Affords(b, p, amount) then (Insufficient, b)
    else if Storable(b.balances[p] - amount) && Insertable(b.history, e) then (Done, Post(b, e))
    else (Aborted, b)
  }

  function WithdrawTx(b: Book, p: Pubkey, amount: int): (Result, Book) {
    var e := Entry(p, -amount, "withdrawal_request", WithdrawalRef(|b.withdrawals|));
    if !Affords(b, p, amount) then (Insufficient, b)
    else if amount > 0 && Storable(b.balances[p] - amount) && FitsInteger(-amount) then
      (Done, Post(b, e).(withdrawals := b.withdrawals + [Withdrawal(p, amount)]))
    else (Aborted, b)
  }

  /** The UPDATE of a refund touches nothing when the pubkey has no balance row, but
      the history row is written all the same. */
  function RefundTx(b: Book, id: nat): (Result, Book) {
    if id >= |b.withdrawals| then (Aborted, b)
    else
      var w := b.withdrawals[id];
      var e := Entry(w.owner, w.amount, "withdrawal_refund", WithdrawalRef(id));
      if !FitsInteger(w.amount) then (Aborted, b)
      else if w.owner !in b.balances then (Done, b.(history := b.history + [e]))
      else if Storable(b.balances[w.owner] + w.amount) then (Done, Post(b, e))
      else (Aborted, b)
  }

  /** What a transaction leaves under a fault, and what its caller is told. Only a
      transaction that commits has a reply to lose. */
  function UnderFault(b: Book, tx: (Result, Book), fault: Fault): (Result, Book) {
    match fault
    case NoFault => tx
    case NoEffect => (Aborted, b)
    case LostReply => if tx.0.Done? then (Aborted, tx.1) else tx
  }

  // ---- runs -------------------------------------------------------------------

  datatype Op =
    | AddCredits(owner: Pubkey, amount: int, reason: string, ref: string)
    | CreditOnce(owner: Pubkey, amount: int, reason: string, ref: string)
    | Deduct(owner: Pubkey, amount: int, reason: string, ref: string)
    | Withdraw(owner: Pubkey, amount: int)
    | Refund(id: nat)

  function Apply(b: Book, op: Op): (Result, Book) {
    match op
    case AddCredits(p, amount, reason, ref) => AddCreditsTx(b, p, amount, reason, ref)
    case CreditOnce(p, amount, reason, invoice) => CreditOnceTx(b, p, amount, reason, invoice)
    case Deduct(p, amount, reason, ref) => DeductTx(b, p, amount, reason, ref)
    case Withdraw(p, amount) => WithdrawTx(b, p, amount)
    case Refund(id) => RefundTx(b, id)
  }

  function Run(ops: seq<Op>): Book {
    if ops == [] then Book(map[], [], [])
    else Apply(Run(ops[..|ops| - 1]), ops[|ops| - 1]).1
  }

  /** The sum of a pubkey's history rows. */
  function Total(history: seq<Entry>, p: Pubkey): int {
    if history == [] then 0
    else
      var e := history[|history| - 1];
      Total(history[..|history| - 1], p) + if e.owner == p then e.amount else 0
  }

  ghost predicate Balanced(b: Book, p: Pubkey) {
    Balance(b, p) == Total(b.history, p)
  }

  ghost predicate Sound(b: Book) {
    && (forall p: Pubkey :: Balanced(b, p))
    && (forall p | p in b.balances :: Storable(b.balances[p]))
    && (forall k | 0 <= k < |b.withdrawals| ::
          0 < b.withdrawals[k].amount && b.withdrawals[k].owner in b.balances)
    && (forall k, l | 0 <= k < l < |b.history| ::
          InvoiceReason(b.history[k].reason) && InvoiceReason(b.history[l].reason) ==>
          b.history[k].ref != b.history[l].ref)
  }

  lemma TotalAppend(history: seq<Entry>, e: Entry, p: Pubkey)
    ensures Total(history + [e], p) == Total(history, p) + if e.owner == p then e.amount else 0
  {
    assert (history + [e])[..|history|] == history;
  }

  lemma PostKeepsSound(b: Book, e: Entry)
    requires Sound(b) && Storable(Balance(b, e.owner) + e.amount)
    requires InvoiceReason(e.reason) ==> !Credited(b.history, e.ref)
    ensures Sound(Post(b, e))
  {
    forall p: Pubkey ensures Balanced(Post(b, e), p) {
      assert Balanced(b, p);
      TotalAppend(b.history, e, p);
    }
  }

  lemma ApplyKeepsSound(b: Book, op: Op)
    requires Sound(b)
    ensures Sound(Apply(b, op).1)
  {
    if Apply(b, op).0.Done? {
      match op
      case AddCredits(p, amount, reason, ref) => PostKeepsSound(b, Entry(p, amount, reason, Text(ref)));
      case CreditOnce(p, amount, reason, ref) => PostKeepsSound(b, Entry(p, amount, reason, Text(ref)));
      case Deduct(p, amount, reason, ref) =>
        if amount != 0 {
          PostKeepsSound(b, Entry(p, -amount, reason, Text(ref)));
        }
      case Withdraw(p, amount) =>
        var e := Entry(p, -amount, "withdrawal_request", WithdrawalRef(|b.withdrawals|));
        PostKeepsSound(b, e);
        assert forall q: Pubkey :: Balanced(Post(b, e), q) ==> Balanced(Apply(b, op).1, q);
      case Refund(id) =>
        var w := b.withdrawals[id];
        PostKeepsSound(b, Entry(w.owner, w.amount, "withdrawal_refund", WithdrawalRef(id)));
    }
  }

  /** In every state of every run, each balance is the sum of its history rows and is
      not negative, and an invoice has been credited at most once. */
  lemma {:induction false} LedgerBalancesInEveryRun(ops: seq<Op>)
    ensures Sound(Run(ops))
  {
    if ops == [] {
    } else {
      LedgerBalancesInEveryRun(ops[..|ops| - 1]);
      ApplyKeepsSound(Run(ops[..|ops| - 1]), ops[|ops| - 1]);
    }
  }

  /** Why the invariant keeps a balance row for every withdrawal: a refund leaves the
      books balanced exactly when that row is there. */
  lemma RefundBalancesIff(b: Book, id: nat)
    requires forall p: Pubkey :: Balanced(b, p)
    requires RefundTx(b, id).0.Done? && b.withdrawals[id].amount != 0
    ensures (forall p: Pubkey :: Balanced(RefundTx(b, id).1, p)) <==> b.withdrawals[id].owner in b.balances
  {
    var w := b.withdrawals[id];
    var e := Entry(w.owner, w.amount, "withdrawal_refund", WithdrawalRef(id));
    var b' := RefundTx(b, id).1;
    forall p: Pubkey
      ensures Balanced(b', p) <==> p != w.owner || w.owner in b.balances
    {
      assert Balanced(b, p);
      TotalAppend(b.history, e, p);
    }
    assert Balanced(b', w.owner) <==> w.owner in b.balances;
  }

  /** Undoing a deduction: a refund of the same amount restores every balance, and it
      commits exactly when the amount is below 2^31, one less than a deduction allows. */
  lemma RefundUndoesDeduction(b: Book, p: Pubkey, amount: int, r1: string, r2: string, ref: string)
    requires Sound(b) && amount > 0 && DeductTx(b, p, amount, r1, ref).0.Done?
    requires !InvoiceReason(r2)
    ensures var mid := DeductTx(b, p, amount, r1, ref).1;
            var (result, after) := AddCreditsTx(mid, p, amount, r2, ref);
            && amount <= 0x8000_0000
            && Balance(mid, p) == Balance(b, p) - amount
            && (result.Done? <==> amount <= 0x7fff_ffff)
            && (result.Done? ==> after.balances == b.balances)
            && (!result.Done? ==> after == mid)
  {
    var mid := DeductTx(b, p, amount, r1, ref).1;
    assert p in b.balances && mid.balances[p := b.balances[p]] == b.balances;
  }

  // ---- what each transaction does ---------------------------------------------

  /** Every balance is as before, but p's, which changed by `delta`. */
  ghost predicate MovesOnly(before: Book, after: Book, p: Pubkey, delta: int) {
    forall q: Pubkey ::
      Balance(after, q) == Balance(before, q) + if q == p then delta else 0
  }

  /** One row was added to the history. */
  predicate Recorded(before: Book, after: Book, p: Pubkey, amount: int, reason: string, ref: Ref) {
    && |after.history| == |before.history| + 1 && after.history[..|before.history|] == before.history
    && var e := after.history[|before.history|];
       e.owner == p && e.amount == amount && e.reason == reason && e.ref == ref
  }

  /** Adding credits raises one balance by the amount and records it, exactly for an amount
      from 0 to 2^31 - 1 that the balance can hold, not credited before if an invoice's. */
  lemma AddCreditsEffect(b: Book, p: Pubkey, amount: int, reason: string, ref: string)
    requires Sound(b)
    ensures var (result, b') := AddCreditsTx(b, p, amount, reason, ref);
            && (result.Done? <==>
                && 0 <= amount <= 0x7fff_ffff && Balance(b, p) + amount <= 0x7fff_ffff_ffff_ffff
                && !(InvoiceReason(reason) && Credited(b.history, Text(ref))))
            && (result.Done? ==>
                  MovesOnly(b, b', p, amount) && Recorded(b, b', p, amount, reason, Text(ref))
                  && b'.withdrawals == b.withdrawals)
            && (!result.Done? ==> result.Aborted? && b' == b)
  {
  }

  /** The webhook's credit does the same, but for an invoice credited before, which it
      reports and leaves alone. */
  lemma CreditOnceEffect(b: Book, p: Pubkey, amount: int, reason: string, invoice: string)
    requires Sound(b) && InvoiceReason(reason)
    ensures var (result, b') := CreditOnceTx(b, p, amount, reason, invoice);
            var valid := invoice != "" && FitsInteger(amount);
            var before := Credited(b.history, Text(invoice));
            && (result.AlreadyCredited? <==> valid && before)
            && (result.Done? <==>
                valid && !before && 0 <= amount && Balance(b, p) + amount <= 0x7fff_ffff_ffff_ffff)
            && !result.Insufficient?
            && (result.Done? ==>
                  MovesOnly(b, b', p, amount) && Recorded(b, b', p, amount, reason, Text(invoice))
                  && b'.withdrawals == b.withdrawals)
            && (!result.Done? ==> b' == b)
  {
  }

  /** A deduction of a positive amount is refused exactly where the balance does not cover
      it, and else commits exactly for amounts up to 2^31. */
  lemma DeductEffect(b: Book, p: Pubkey, amount: int, reason: string, ref: string)
    requires Sound(b) && amount > 0 && !InvoiceReason(reason)
    ensures var (result, b') := DeductTx(b, p, amount, reason, ref);
            && (result.Insufficient? <==> Balance(b, p) < amount)
            && (result.Done? <==> Balance(b, p) >= amount && amount <= 0x8000_0000)
            && !result.AlreadyCredited?
            && (result.Done? ==>
                  MovesOnly(b, b', p, -amount) && Recorded(b, b', p, -amount, reason, Text(ref))
                  && b'.withdrawals == b.withdrawals)
            && (!result.Done? ==> b' == b)
  {
  }

  /** A withdrawal takes exactly its amount, from its pubkey alone, and is put on file. */
  lemma WithdrawEffect(b: Book, p: Pubkey, amount: int)
    requires Sound(b)
    ensures var (result, b') := WithdrawTx(b, p, amount);
            var id := |b.withdrawals|;
            && (result.Done? <==> p in b.balances && 0 < amount <= 0x8000_0000 && Balance(b, p) >= amount)
            && (result.Insufficient? <==> p !in b.balances || Balance(b, p) < amount)
            && !result.AlreadyCredited?
            && (result.Done? ==>
                  && MovesOnly(b, b', p, -amount)
                  && Recorded(b, b', p, -amount, "withdrawal_request", WithdrawalRef(id))
                  && |b'.withdrawals| == id + 1 && b'.withdrawals[..id] == b.withdrawals
                  && b'.withdrawals[id].owner == p && b'.withdrawals[id].amount == amount)
            && (!result.Done? ==> b' == b)
  {
  }

  /** A refund gives back exactly what the withdrawal took, to its pubkey alone. */
  lemma RefundEffect(b: Book, id: nat)
    requires Sound(b)
    ensures var (result, b') := RefundTx(b, id);
            && (result.Done? <==>
                && id < |b.withdrawals| && b.withdrawals[id].amount <= 0x7fff_ffff
                && Balance(b, b.withdrawals[id].owner) + b.withdrawals[id].amount <= 0x7fff_ffff_ffff_ffff)
            && (result.Done? ==>
                  var w := b.withdrawals[id];
                  && MovesOnly(b, b', w.owner, w.amount)
                  && Recorded(b, b', w.owner, w.amount, "withdrawal_refund", WithdrawalRef(id))
                  && b'.withdrawals == b.withdrawals)
            && (!result.Done? ==> result.Aborted? && b' == b)
  {
  }

  /** A refund for a pubkey without balance row is recorded, and reaches nobody. */
  lemma RefundWithoutBalanceRow(b: Book, id: nat)
    requires id < |b.withdrawals| && b.withdrawals[id].owner !in b.balances
    ensures var (result, b') := RefundTx(b, id);
            var w := b.withdrawals[id];
            && (result.Done? <==> FitsInteger(w.amount))
            && b'.balances == b.balances && b'.withdrawals == b.withdrawals
            && (result.Done? ==> Recorded(b, b', w.owner, w.amount, "withdrawal_refund", WithdrawalRef(id)))
            && (!result.Done? ==> b' == b)
  {
  }

  /** Undoing a withdrawal: its refund restores every balance, and commits exactly when the
      amount is below 2^31, one less than a withdrawal allows. */
  lemma RefundUndoesWithdrawal(b: Book, p: Pubkey, amount: int)
    requires Sound(b) && WithdrawTx(b, p, amount).0.Done?
    ensures var mid := WithdrawTx(b, p, amount).1;
            var (result, after) := RefundTx(mid, |b.withdrawals|);
            && MovesOnly(b, mid, p, -amount)
            && (result.Done? <==> amount <= 0x7fff_ffff)
            && (result.Done? ==>
                  && after.balances == b.balances
                  && Recorded(mid, after, p, amount, "withdrawal_refund", WithdrawalRef(|b.withdrawals|)))
            && (!result.Done? ==> after == mid)
  {
    WithdrawEffect(b, p, amount);
    var mid := WithdrawTx(b, p, amount).1;
    ApplyKeepsSound(b, Withdraw(p, amount));
    RefundEffect(mid, |b.withdrawals|);
    assert mid.balances[p := b.balances[p]] == b.balances;
  }

  // ---- the transactions, statement by statement -------------------------------

  class CreditStore {
    var balances: map<Pubkey, int>
    var history: seq<Entry>
    var withdrawals: seq<Withdrawal>

    constructor ()
      ensures Contents() == Run([])
    {
      balances, history, withdrawals := map[], [], [];
    }

    function Contents(): Book
      reads this
    {
      Book(balances, history, withdrawals)
    }

    method GetCredits(p: Pubkey) returns (balance: int)
      ensures balance == Balance(Contents(), p)
    {
      balance := if p in balances then balances[p] else 0;
    }

    /** One new row of credit_history. */
    method Record(e: Entry) returns (ok: bool)
      modifies this`history
      ensures ok <==> Insertable(old(history), e)
      ensures history == if ok then old(history) + [e] else old(history)
    {
      ok := FitsInteger(e.amount) && !(InvoiceReason(e.reason) && Credited(history, e.ref));
      if ok {
        history := history + [e];
      }
    }

    /** A balance row is created, or raised where there is one. */
    method Upsert(p: Pubkey, amount: int) returns (ok: bool)
      modifies this`balances
      ensures ok <==> Upsertable(old(Contents()), p, amount)
      ensures balances == if ok then old(balances)[p := Balance(old(Contents()), p) + amount] else old(balances)
    {
      if !Storable(amount) {
        return false;
      }
      var updated := if p in balances then balances[p] + amount else amount;
      ok := Storable(updated);
      if ok {
        balances := balances[p := updated];
      }
    }

    method AddCredits(p: Pubkey, amount: int, reason: string, ref: string) returns (result: Result)
      modifies this
      ensures (result, Contents()) == AddCreditsTx(old(Contents()), p, amount, reason, ref)
    {
      var saved := balances;
      var ok := Upsert(p, amount);
      if !ok {
        return Aborted;
      }
      ok := Record(Entry(p, amount, reason, Text(ref)));
      if !ok {
        balances := saved;
        return Aborted;
      }
      result := Done;
    }

    method AddInvoiceCreditOnce(p: Pubkey, amount: int, reason: string, invoice: string) returns (result: Result)
      modifies this
      ensures (result, Contents()) == CreditOnceTx(old(Contents()), p, amount, reason, invoice)
    {
      if invoice == "" {
        return Aborted;
      }
      var saved := history;
      var e := Entry(p, amount, reason, Text(invoice));
      if !FitsInteger(amount) {
        return Aborted;
      }
      var inserted := Record(e);
      if !inserted {
        return AlreadyCredited;
      }
      var ok := Upsert(p, amount);
      if !ok {
        history := saved;
        return Aborted;
      }
      result := Done;
    }

    /** The guarded deduction: a balance row too small is left alone. */
    method Subtract(p: Pubkey, amount: int) returns (result: Result)
      modifies this`balances
      ensures result == if !Affords(old(Contents()), p, amount) then Insufficient
                        else if Storable(old(balances)[p] - amount) then Done else Aborted
      ensures balances == if result.Done? then old(balances)[p := old(balances)[p] - amount] else old(balances)
    {
      if p !in balances || balances[p] < amount {
        return Insufficient;
      }
      if !Storable(balances[p] - amount) {
        return Aborted;
      }
      balances := balances[p := balances[p] - amount];
      result := Done;
    }

    method DeductCredits(p: Pubkey, amount: int, reason: string, ref: string) returns (result: Result)
      modifies this
      ensures (result, Contents()) == DeductTx(old(Contents()), p, amount, reason, ref)
    {
      if amount == 0 {
        return Done;
      }
      var saved := balances;
      result := Subtract(p, amount);
      if result.Done? {
        var ok := Record(Entry(p, -amount, reason, Text(ref)));
        if !ok {
          balances := saved;
          return Aborted;
        }
      }
    }

    method CreateWithdrawalRequest(p: Pubkey, amount: int) returns (result: Result)
      modifies this
      ensures (result, Contents()) == WithdrawTx(old(Contents()), p, amount)
    {
      var saved := balances;
      result := Subtract(p, amount);
      if !result.Done? {
        return;
      }
      if amount <= 0 {
        balances := saved;
        return Aborted;
      }
      var id := |withdrawals|;
      withdrawals := withdrawals + [Withdrawal(p, amount)];
      var ok := Record(Entry(p, -amount, "withdrawal_request", WithdrawalRef(id)));
      if !ok {
        balances, withdrawals := saved, withdrawals[..id];
        return Aborted;
      }
    }

    method RefundFailedWithdrawal(id: nat) returns (result: Result)
      modifies this
      ensures (result, Contents()) == RefundTx(old(Contents()), id)
    {
      if id >= |withdrawals| {
        return Aborted;
      }
      var w, saved := withdrawals[id], balances;
      if w.owner in balances {
        if !Storable(balances[w.owner] + w.amount) {
          return Aborted;
        }
        balances := balances[w.owner := balances[w.owner] + w.amount];
      }
      var ok := Record(Entry(w.owner, w.amount, "withdrawal_refund", WithdrawalRef(id)));
      if !ok {
        balances := saved;
        return Aborted;
      }
      result := Done;
    }
  }
}
