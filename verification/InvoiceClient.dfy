/** The BTCPay client's invoice creation: a retry loop under a deadline. Times are in
    milliseconds from the call. */
module InvoiceClient {

  const INVOICE_BUDGET := 15000
  const PER_ATTEMPT_TIMEOUT := 7000
  const TRANSIENT_RETRY_WAIT := 500
  const MAX_INVOICE_ATTEMPTS := 3

  /** The client's timeouts; only the constants above are used in production. */
  datatype Timing = Timing(budget: nat, attemptTimeout: nat, retryWait: nat)

  /** What the server does with one request: an answer, or a transport failure, after
      `latency`; `created` says whether it has minted an invoice, heard of or not. */
  datatype Reply =
    | Answer(status: int, body: string, latency: nat, parses: bool, created: bool)
    | Broken(latency: nat, created: bool)

  datatype Outcome = Created | Unavailable | Rejected | Failed

  predicate OccursAt(s: string, part: string, i: nat) {
    i + |part| <= |s| && s[i..i + |part|] == part
  }

  predicate Contains(s: string, part: string) {
    exists i: nat | i <= |s| :: OccursAt(s, part, i)
  }

  predicate IsTransientLNFailure(status: int, body: string) {
    && status == 400
    && (Contains(body, "did not reply in a timely manner") || Contains(body, "Payment method unavailable"))
  }

  /** Either of BTCPay's two phrases, anywhere in the body, and the status 400 make a
      failure transient; nothing is transient under another status or without them. */
  lemma TransientIff(status: int, body: string, before: string, after: string)
    ensures IsTransientLNFailure(400, before + "did not reply in a timely manner" + after)
    ensures IsTransientLNFailure(400, before + "Payment method unavailable" + after)
    ensures IsTransientLNFailure(status, body) ==>
              && status == 400
              && exists i: nat, j: nat | i <= j <= |body| ::
                   body[i..j] in {"did not reply in a timely manner", "Payment method unavailable"}
  {
    OccursBetween(before, "did not reply in a timely manner", after);
    OccursBetween(before, "Payment method unavailable", after);
    if Contains(body, "did not reply in a timely manner") {
      var i: nat :| i <= |body| && OccursAt(body, "did not reply in a timely manner", i);
      assert body[i..i + |"did not reply in a timely manner"|] == "did not reply in a timely manner";
    }
    if Contains(body, "Payment method unavailable") {
      var i: nat :| i <= |body| && OccursAt(body, "Payment method unavailable", i);
      assert body[i..i + |"Payment method unavailable"|] == "Payment method unavailable";
    }
  }

  lemma OccursBetween(before: string, part: string, after: string)
    ensures Contains(before + part + after, part)
  {
    assert OccursAt(before + part + after, part, |before|);
  }

  predicate Success(r: Reply) {
    r.Answer? && (r.status == 200 || r.status == 201)
  }

  predicate Transient(r: Reply) {
    r.Answer? && IsTransientLNFailure(r.status, r.body)
  }

  /** What is assumed of BTCPay: the transient 400 mints nothing, a success one invoice. */
  ghost predicate Honest(server: nat -> Reply) {
    forall k: nat :: (Transient(server(k)) ==> !server(k).created) && (Success(server(k)) ==> server(k).created)
  }

  /** Invoices existing at the server after its first n requests. */
  function Minted(server: nat -> Reply, n: nat): nat {
    if n == 0 then 0 else Minted(server, n - 1) + if server(n - 1).created then 1 else 0
  }

  lemma {:induction false} NoneMinted(server: nat -> Reply, n: nat)
    requires Honest(server) && forall i: nat | i < n :: Transient(server(i))
    ensures Minted(server, n) == 0
  {
    if n != 0 {
      NoneMinted(server, n - 1);
    }
  }

  /** The time an attempt begun at `start` may take: both contexts bound it. */
  function Patience(t: Timing, start: nat): nat
    requires start <= t.budget
  {
    if t.budget - start < t.attemptTimeout then t.budget - start else t.attemptTimeout
  }

  /** A retry follows only a transient failure, after the wait, and, but for the
      lateness of the timer, with a whole attempt left before the deadline. */
  predicate RetryFits(t: Timing, server: nat -> Reply, slip: nat -> nat, starts: seq<nat>, k: nat)
    requires 1 <= k < |starts|
  {
    && Transient(server(k - 1))
    && starts[k] == starts[k - 1] + server(k - 1).latency + t.retryWait + slip(k)
    && starts[k] + t.attemptTimeout <= t.budget + slip(k)
    && starts[k] <= t.budget
  }

  /** The times at which attempts begin. */
  predicate Paced(t: Timing, server: nat -> Reply, slip: nat -> nat, starts: seq<nat>) {
    && 1 <= |starts| <= MAX_INVOICE_ATTEMPTS && starts[0] == 0
    && forall k: nat | 1 <= k < |starts| :: RetryFits(t, server, slip, starts, k)
  }

  /** How the last attempt decides the outcome, and why the call stops there. */
  predicate Concludes(t: Timing, server: nat -> Reply, slip: nat -> nat, starts: seq<nat>, outcome: Outcome)
    requires starts != [] && starts[|starts| - 1] <= t.budget
  {
    var k: nat := |starts| - 1;
    var reply := server(k);
    if reply.Broken? || reply.latency > Patience(t, starts[k]) then outcome == Failed
    else if Success(reply) then outcome == if reply.parses then Created else Failed
    else if !Transient(reply) then outcome == Rejected
    else
      && outcome == Unavailable
      && (|starts| == MAX_INVOICE_ATTEMPTS
          || starts[k] + reply.latency + t.retryWait + t.attemptTimeout > t.budget
          || starts[k] + reply.latency + t.retryWait + slip(k + 1) > t.budget)
  }

  /** `server(k)` is what attempt k meets, `slip(k)` how late the timer before it fires.
      For every server the call ends within the budget after at most three attempts. */
  method CreateInvoice(t: Timing, server: nat -> Reply, slip: nat -> nat)
    returns (outcome: Outcome, starts: seq<nat>, elapsed: nat)
    ensures Paced(t, server, slip, starts)
    ensures starts[|starts| - 1] <= elapsed <= t.budget
    ensures Concludes(t, server, slip, starts, outcome)
  {
    var now, attempt := 0, 1;
    starts := [now];
    while true
      invariant attempt == |starts| && Paced(t, server, slip, starts)
      invariant now == starts[|starts| - 1] && now <= t.budget
      decreases MAX_INVOICE_ATTEMPTS - attempt
    {
      var reply, patience := server(attempt - 1), Patience(t, now);
      if reply.Broken? || reply.latency > patience {
        elapsed := now + if reply.latency < patience then reply.latency else patience;
        return Failed, starts, elapsed;
      }
      now := now + reply.latency;
      if reply.status == 200 || reply.status == 201 {
        return if reply.parses then Created else Failed, starts, now;
      }
      if !IsTransientLNFailure(reply.status, reply.body) {
        return Rejected, starts, now;
      }
      if attempt >= MAX_INVOICE_ATTEMPTS {
        return Unavailable, starts, now;
      }
      if t.budget - now < t.attemptTimeout + t.retryWait {
        return Unavailable, starts, now;
      }
      if now + t.retryWait + slip(attempt) > t.budget {
        return Unavailable, starts, t.budget;
      }
      now := now + t.retryWait + slip(attempt);
      PacedExtends(t, server, slip, starts, now);
      starts := starts + [now];
      attempt := attempt + 1;
    }
  }

  lemma PacedExtends(t: Timing, server: nat -> Reply, slip: nat -> nat, starts: seq<nat>, next: nat)
    requires Paced(t, server, slip, starts) && |starts| < MAX_INVOICE_ATTEMPTS
    requires RetryFits(t, server, slip, starts + [next], |starts|)
    ensures Paced(t, server, slip, starts + [next])
  {
    forall k: nat | 1 <= k < |starts| + 1 ensures RetryFits(t, server, slip, starts + [next], k) {
      if k < |starts| {
        assert RetryFits(t, server, slip, starts, k);
      }
    }
  }

  /** Retrying is safe: with an honest server at most one invoice exists after the call,
      exactly one if it succeeded, none if Lightning stayed unavailable. */
  lemma AtMostOneInvoice(t: Timing, server: nat -> Reply, slip: nat -> nat, starts: seq<nat>, outcome: Outcome)
    requires Honest(server) && Paced(t, server, slip, starts)
    requires starts[|starts| - 1] <= t.budget && Concludes(t, server, slip, starts, outcome)
    ensures Minted(server, |starts|) <= 1
    ensures outcome.Created? ==> Minted(server, |starts|) == 1
    ensures outcome.Unavailable? ==> Minted(server, |starts|) == 0
  {
    var n: nat := |starts| - 1;
    forall i: nat | i < n ensures Transient(server(i)) {
      assert RetryFits(t, server, slip, starts, i + 1);
    }
    NoneMinted(server, n);
  }

  /** Transient trouble is survived: if the server fails transiently once or twice and then
      succeeds, and answers and timers leave a whole attempt each time, the call creates the
      invoice with the attempt that succeeds. */
  lemma TransientTroubleIsSurvived(t: Timing, server: nat -> Reply, slip: nat -> nat, starts: seq<nat>,
                                   outcome: Outcome, n: nat)
    requires Paced(t, server, slip, starts) && starts[|starts| - 1] <= t.budget
    requires Concludes(t, server, slip, starts, outcome)
    requires n < MAX_INVOICE_ATTEMPTS && (forall i: nat | i < n :: Transient(server(i)))
    requires Success(server(n)) && server(n).parses
    requires forall k: nat | k < |starts| && k <= n ::
               && starts[k] <= t.budget && server(k).latency <= Patience(t, starts[k])
               && (k < n ==> starts[k] + server(k).latency + t.retryWait + slip(k + 1) + t.attemptTimeout <= t.budget)
    ensures |starts| == n + 1 && outcome.Created?
  {
    forall i: nat | i < |starts| - 1 ensures Transient(server(i)) {
      assert RetryFits(t, server, slip, starts, i + 1);
    }
  }

  /** When the timer before attempt k is due. */
  function Due(t: Timing, server: nat -> Reply, starts: seq<nat>, k: nat): nat
    requires 1 <= k <= |starts|
  {
    starts[k - 1] + server(k - 1).latency + t.retryWait
  }

  /** A retry has its whole attempt timeout if and only if the timer before it fires no
      later than the slack left when it was due, which is never negative; so a timer on
      time always leaves a whole attempt. The first attempt is whole if any is. */
  lemma AttemptIsWholeIff(t: Timing, server: nat -> Reply, slip: nat -> nat, starts: seq<nat>, k: nat)
    requires Paced(t, server, slip, starts) && k < |starts| && t.attemptTimeout <= t.budget
    ensures starts[k] <= t.budget
    ensures k == 0 ==> Patience(t, starts[k]) == t.attemptTimeout
    ensures k > 0 ==>
              var slack := t.budget - t.attemptTimeout - Due(t, server, starts, k);
              slack >= 0 && (Patience(t, starts[k]) == t.attemptTimeout <==> slip(k) <= slack)
  {
    if k != 0 {
      assert RetryFits(t, server, slip, starts, k);
    }
  }

  const PRODUCTION := Timing(INVOICE_BUDGET, PER_ATTEMPT_TIMEOUT, TRANSIENT_RETRY_WAIT)

  /** In production: each of the at most three attempts has its whole seven seconds as
      long as it begins within eight, and a timer on time sees to that. */
  lemma ProductionAttempts(server: nat -> Reply, slip: nat -> nat, starts: seq<nat>, k: nat)
    requires Paced(PRODUCTION, server, slip, starts) && k < |starts|
    ensures starts[k] <= 15000
    ensures Patience(PRODUCTION, starts[k]) == PER_ATTEMPT_TIMEOUT <==> starts[k] <= 8000
    ensures slip(k) == 0 ==> starts[k] <= 8000
  {
    AttemptIsWholeIff(PRODUCTION, server, slip, starts, k);
  }
}
