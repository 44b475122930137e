/** The retries around one webhook delivery. */
module WebhookRetry {

  /** What one call of the wrapped function does. */
  datatype Outcome = Answer(code: int, body: string) | DeliveryError | NonRetryableError | OtherError(name: string)

  /** What the wrapper does: a pair, the pair of two `None`, a bare `None`, or an exception. */
  datatype Result = Pair(code: int, body: string) | NonePair | Nothing | Raised(name: string)

  /** The call that decides: the first that is not a delivery error, if one of the first n. */
  function FirstDecisive(call: nat -> Outcome, n: nat): (k: nat)
    ensures k <= n
    ensures forall i :: 0 <= i < k ==> call(i).DeliveryError?
    ensures k < n ==> !call(k).DeliveryError?
  {
    if n == 0 then 0
    else
      var k := FirstDecisive(call, n - 1);
      if k < n - 1 then k else if call(n - 1).DeliveryError? then n else n - 1
  }

  function Decided(outcome: Outcome): Result {
    match outcome
    case Answer(code, body) => Pair(code, body)
    case DeliveryError => Nothing
    case NonRetryableError => NonePair
    case OtherError(name) => Raised(name)
  }

  predicate Retryable(outcome: Outcome, codes: set<int>) {
    outcome.Answer? && outcome.code in codes
  }

  /** The call that should decide: the first of the first n that is neither a delivery error
      nor an answer with a code to be retried. */
  function PromisedDecisive(call: nat -> Outcome, n: nat, codes: set<int>): (k: nat)
    ensures k <= n
    ensures forall i :: 0 <= i < k ==> call(i).DeliveryError? || Retryable(call(i), codes)
    ensures k < n ==> !call(k).DeliveryError? && !Retryable(call(k), codes)
  {
    if n == 0 then 0
    else
      var k := PromisedDecisive(call, n - 1, codes);
      if k < n - 1 then k
      else if call(n - 1).DeliveryError? || Retryable(call(n - 1), codes) then n
      else n - 1
  }

  /** The result when the k-th of n calls decides, or none does, and how many were made. */
  function Concluded(call: nat -> Outcome, k: nat, n: nat): (Result, nat)
    requires k <= n
  {
    if k < n then (Decided(call(k)), k + 1) else (Nothing, n)
  }

  function Budget(maxAttempt: int): nat {
    if maxAttempt < 0 then 0 else maxAttempt + 1
  }

  /** As written: an answer is returned whatever its code is, after `attempt` was increased
      in vain for a retryable one, so `retryCodes` has no effect.  At most `maxAttempt + 1`
      calls are made; delivery errors are retried, everything else decides at once; when
      every call failed the wrapper returns nothing at all. */
  method Retry(call: nat -> Outcome, maxAttempt: int, retryCodes: set<int>) returns (r: Result, calls: nat)
    ensures (r, calls) == Concluded(call, FirstDecisive(call, Budget(maxAttempt)), Budget(maxAttempt))
    ensures calls <= maxAttempt + 1 || calls == 0
    ensures forall i :: 0 <= i < calls - 1 ==> call(i).DeliveryError?
    ensures calls > 0 && !call(calls - 1).DeliveryError? ==>
      match call(calls - 1)
      case Answer(code, body) => r == Pair(code, body)
      case NonRetryableError => r == NonePair
      case OtherError(name) => r == Raised(name)
    ensures calls == 0 || call(calls - 1).DeliveryError? ==>
      r == Nothing && calls == if maxAttempt >= 0 then maxAttempt + 1 else 0
  {
    var attempt := 0;
    calls := 0;
    while attempt <= maxAttempt
      invariant 0 <= attempt == calls
      invariant maxAttempt >= 0 ==> calls <= maxAttempt + 1
      invariant maxAttempt < 0 ==> calls == 0
      invariant forall i :: 0 <= i < calls ==> call(i).DeliveryError?
      decreases maxAttempt - attempt
    {
      var outcome := call(calls);
      if !outcome.DeliveryError? {
        DecisiveIs(call, calls, Budget(maxAttempt));
      }
      calls := calls + 1;
      match outcome {
        case Answer(code, body) =>
          if code in retryCodes {
            attempt := attempt + 1;
          }
          return Pair(code, body), calls;
        case DeliveryError =>
          attempt := attempt + 1;
        case NonRetryableError =>
          return NonePair, calls;
        case OtherError(name) =>
          return Raised(name), calls;
      }
    }
    DecisiveIs(call, calls, calls);
    return Nothing, calls;
  }

  /** For every sequence of outcomes, budget and set of codes, the code does what is promised
      exactly when the first outcome that is no delivery error, if one comes within the
      budget, is not an answer to be retried. */
  lemma KeptIffNotRetryable(call: nat -> Outcome, n: nat, codes: set<int>)
    ensures var k, p := FirstDecisive(call, n), PromisedDecisive(call, n, codes);
      && (k == p <==> !(k < n && call(k).Answer? && call(k).code in codes))
      && (Concluded(call, k, n) == Concluded(call, p, n) <==> !(k < n && call(k).Answer? && call(k).code in codes))
  {
    var k, p := FirstDecisive(call, n), PromisedDecisive(call, n, codes);
    assert p < n ==> !call(p).DeliveryError?;
    assert k < n && k < p ==> Retryable(call(k), codes);
  }

  /** A retryable answer on the last allowed call, after delivery errors only: the promise
      has used up its calls and has nothing to return, the code returns the answer. */
  lemma LastAttempt(call: nat -> Outcome, n: nat, codes: set<int>)
    requires n > 0 && Retryable(call(n - 1), codes) && forall i :: 0 <= i < n - 1 ==> call(i).DeliveryError?
    ensures Concluded(call, FirstDecisive(call, n), n) == (Pair(call(n - 1).code, call(n - 1).body), n)
    ensures Concluded(call, PromisedDecisive(call, n, codes), n) == (Nothing, n)
  {
    var last := call(n - 1);
    var k := FirstDecisive(call, n);
    assert k == n ==> last.DeliveryError?;
    assert k < n ==> !call(k).DeliveryError?;
    KeptIffNotRetryable(call, n, codes);
  }

  lemma DecisiveIs(call: nat -> Outcome, k: nat, n: nat)
    requires k <= n && (k < n ==> !call(k).DeliveryError?)
    requires forall i :: 0 <= i < k ==> call(i).DeliveryError?
    ensures FirstDecisive(call, n) == k
  {
  }

  /** The documented retry on a status code, 503 among them, does not happen: one call that
      answers with it is the last. */
  method UnavailableIsNotRetried(maxAttempt: nat) returns (r: Result, calls: nat)
    ensures calls == 1 && r == Pair(503, "")
  {
    var call: nat -> Outcome := i => if i == 0 then Answer(503, "") else Answer(200, "");
    r, calls := Retry(call, maxAttempt, {408, 429, 500, 502, 503, 504});
    assert call(0).Answer?;
    DecisiveIs(call, 0, maxAttempt + 1);
  }
}
