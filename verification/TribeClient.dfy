/**
 * The SDK's request: attempts with exponential backoff and jitter, and the typed errors it raises.
 * What each attempt meets and what Math.random returns come from outside.
 */
module TribeClient {
  import opened Prelude

  /** An Axios error: `status` when there was a response, and what its body and headers said. */
  datatype AxiosError = AxiosError(status: Option<int>, code: Option<string>, message: string,
                                   errorMessage: Option<string>, bodyMessage: Option<string>, retryAfter: Option<int>)

  datatype SdkError =
    | AuthenticationError(detail: string)
    | AuthorizationError(detail: string)
    | ServiceNotFoundError
    | RateLimitError(retryAfterMs: Option<int>)
    | BadGatewayError(detail: string)
    | ServiceUnavailableError(detail: string)
    | GatewayTimeoutError(detail: string)
    | NetworkError(detail: string)
    | TribeClientError(detail: string, status: int)

  datatype Attempt<T> = Response(data: T) | AxiosFailure(error: AxiosError) | OtherFailure(reason: string)

  datatype Outcome<T> = Returned(data: T) | Thrown(error: SdkError) | Rethrown(reason: string)

  const RETRYABLE_STATUSES: set<int> := {502, 503, 504}

  const RETRYABLE_CODES: set<string> :=
    {"ECONNABORTED", "ETIMEDOUT", "ECONNRESET", "ECONNREFUSED", "ENETUNREACH", "ERR_NETWORK"}

  predicate IsRetryable(e: AxiosError) {
    (e.status.Some? && e.status.value in RETRYABLE_STATUSES) || (e.code.Some? && e.code.value in RETRYABLE_CODES)
  }

  function Detail(e: AxiosError): string {
    match e.errorMessage
    case Some(m) => m
    case None => match e.bodyMessage case Some(m) => m case None => e.message
  }

  function WrapAxiosError(e: AxiosError): SdkError {
    match e.status
    case None =>
      if e.code == Some("ECONNABORTED") || e.code == Some("ETIMEDOUT") then GatewayTimeoutError(Detail(e))
      else NetworkError(Detail(e))
    case Some(status) =>
      if status == 401 then AuthenticationError(Detail(e))
      else if status == 403 then AuthorizationError(Detail(e))
      else if status == 404 then ServiceNotFoundError
      else if status == 429 then
        RateLimitError(if e.retryAfter.Some? && e.retryAfter.value != 0 then Some(e.retryAfter.value * 1000) else None)
      else if status == 502 then BadGatewayError(Detail(e))
      else if status == 503 then ServiceUnavailableError(Detail(e))
      else if status == 504 then GatewayTimeoutError(Detail(e))
      else TribeClientError(Detail(e), status)
  }

  /** The HTTP status an SDK error stands for, None for a failure without a response. */
  function StatusOf(e: SdkError): Option<int> {
    match e
    case AuthenticationError(_) => Some(401)
    case AuthorizationError(_) => Some(403)
    case ServiceNotFoundError => Some(404)
    case RateLimitError(_) => Some(429)
    case BadGatewayError(_) => Some(502)
    case ServiceUnavailableError(_) => Some(503)
    case GatewayTimeoutError(_) => Some(504)
    case NetworkError(_) => None
    case TribeClientError(_, s) => Some(s)
  }

  /** The text an SDK error carries; two of them carry a text of their own. */
  function TextOf(e: SdkError): Option<string> {
    match e
    case ServiceNotFoundError => None
    case RateLimitError(_) => None
    case AuthenticationError(d) => Some(d)
    case AuthorizationError(d) => Some(d)
    case BadGatewayError(d) => Some(d)
    case ServiceUnavailableError(d) => Some(d)
    case GatewayTimeoutError(d) => Some(d)
    case NetworkError(d) => Some(d)
    case TribeClientError(d, _) => Some(d)
  }

  /**
   * The typed error keeps the status of the response; without one it is a timeout or a network error. It
   * keeps the message too, and the wait of a 429, except when that is zero.
   */
  lemma WrapKeepsStatus(e: AxiosError)
    ensures e.status.Some? ==> StatusOf(WrapAxiosError(e)) == e.status
    ensures e.status.None? ==>
      StatusOf(WrapAxiosError(e)) == if e.code in {Some("ECONNABORTED"), Some("ETIMEDOUT")} then Some(504) else None
    ensures e.status !in {Some(404), Some(429)} ==> TextOf(WrapAxiosError(e)) == Some(Detail(e))
    ensures e.status == Some(429) && e.retryAfter.Some? ==>
      WrapAxiosError(e).retryAfterMs == if e.retryAfter.value == 0 then None else Some(1000 * e.retryAfter.value)
    ensures e.status == Some(429) && e.retryAfter.None? ==> WrapAxiosError(e).retryAfterMs.None?
  {
  }

  /** Each class of error is raised for its own status, and the generic one only for a status without a class. */
  lemma WrapPicksClass(e: AxiosError)
    ensures var w := WrapAxiosError(e);
      && (w.AuthenticationError? <==> e.status == Some(401))
      && (w.AuthorizationError? <==> e.status == Some(403))
      && (w.ServiceNotFoundError? <==> e.status == Some(404))
      && (w.RateLimitError? <==> e.status == Some(429))
      && (w.BadGatewayError? <==> e.status == Some(502))
      && (w.ServiceUnavailableError? <==> e.status == Some(503))
      && (w.GatewayTimeoutError? <==>
            e.status == Some(504) || (e.status.None? && e.code in {Some("ECONNABORTED"), Some("ETIMEDOUT")}))
      && (w.NetworkError? <==> e.status.None? && e.code !in {Some("ECONNABORTED"), Some("ETIMEDOUT")})
  {
  }

  /**
   * What is retried, by the error it would be raised as: a response exactly when it is a bad gateway, an
   * unavailable service or a gateway timeout, unless Axios gives it a connection code; a failure without a
   * response exactly when it is a timeout, or one of four connection codes.
   */
  lemma RetriedExactly(e: AxiosError)
    ensures var w := WrapAxiosError(e);
      && (e.status.Some? && e.code.None? ==>
            (IsRetryable(e) <==> w.BadGatewayError? || w.ServiceUnavailableError? || w.GatewayTimeoutError?))
      && (e.status.None? ==>
            (IsRetryable(e) <==>
               || w.GatewayTimeoutError?
               || e.code in {Some("ECONNRESET"), Some("ECONNREFUSED"), Some("ENETUNREACH"), Some("ERR_NETWORK")}))
      && (e.status.Some? && e.code.Some? ==>
            (IsRetryable(e) <==> IsRetryable(e.(code := None)) || IsRetryable(e.(status := None))))
  {
  }

  /** The text of an error is the gateway's own message if there is one, then the body's, then Axios's. */
  lemma DetailPrefersGateway(e: AxiosError)
    ensures Detail(e) == e.message <==> || (e.errorMessage.None? && e.bodyMessage.None?)
                                        || e.errorMessage == Some(e.message)
                                        || (e.errorMessage.None? && e.bodyMessage == Some(e.message))
    ensures e.errorMessage.Some? ==> Detail(e) == e.errorMessage.value
    ensures e.errorMessage.None? && e.bodyMessage.Some? ==> Detail(e) == e.bodyMessage.value
  {
  }

  // ---------------------------------------------------------------- backoff

  function Pow2(k: nat): nat {
    if k == 0 then 1 else 2 * Pow2(k - 1)
  }

  /** Math.round. */
  function Round(x: real): int {
    (x + 0.5).Floor
  }

  /** A delay of x spread by 25 % either way, for a random number in [0, 1). */
  function Jittered(x: real, random: real): real {
    x + x * 0.25 * (random * 2.0 - 1.0)
  }

  /** The exponential delay after attempt k, before jitter. */
  function Backoff(base: real, k: nat): real {
    base * Pow2(k) as real
  }

  /** The delay after attempt k, in milliseconds. */
  function Delay(base: real, k: nat, random: real): int {
    Max(0, Round(Jittered(Backoff(base, k), random)))
  }

  /** `delay` is x within 25 % and rounding. */
  predicate Near(delay: real, x: real, rounding: real) {
    0.75 * x - rounding <= delay <= 1.25 * x + rounding
  }

  function Total(delays: seq<int>): int {
    if delays == [] then 0 else Total(delays[..|delays| - 1]) + delays[|delays| - 1]
  }

  /** b * (2^m - 1), what m doublings of b add up to. */
  function Doublings(base: real, m: nat): real {
    base * (Pow2(m) as real - 1.0)
  }

  lemma RoundBound(x: real)
    ensures x - 0.5 < Round(x) as real <= x + 0.5
  {
  }

  lemma ScaleBound(x: real, j: real)
    requires 0.0 <= x && -1.0 <= j <= 1.0
    ensures -(x * 0.25) <= x * 0.25 * j <= x * 0.25
  {
  }

  lemma JitterBound(x: real, random: real)
    requires 0.0 <= x && 0.0 <= random < 1.0
    ensures 0.75 * x <= Jittered(x, random) <= 1.25 * x
  {
    ScaleBound(x, random * 2.0 - 1.0);
  }

  /** The jitter spans the whole quarter either way, evenly: its middle is no jitter at all. */
  lemma JitterSpans(x: real, random: real)
    ensures Jittered(x, 0.0) == 0.75 * x && Jittered(x, 0.5) == x && Jittered(x, 1.0) == 1.25 * x
    ensures Jittered(x, random) - Jittered(x, 0.0) == random * (Jittered(x, 1.0) - Jittered(x, 0.0))
  {
    assert random * (0.5 * x) == x * 0.25 * (random * 2.0);
  }

  lemma DelayBound(base: real, k: nat, random: real)
    requires 0.0 <= base && 0.0 <= random < 1.0
    ensures Near(Delay(base, k, random) as real, Backoff(base, k), 0.5)
  {
    var x := Backoff(base, k);
    assert 0.0 <= x;
    JitterBound(x, random);
    RoundBound(Jittered(x, random));
  }

  lemma OneMoreDoubling(base: real, m: nat)
    ensures Doublings(base, m + 1) == Doublings(base, m) + Backoff(base, m)
  {
  }

  lemma AddDelay(total: real, delay: real, full: real, x: real, rounding: real)
    requires Near(total, full, rounding) && Near(delay, x, 0.5)
    ensures Near(total + delay, full + x, rounding + 0.5)
  {
  }

  lemma {:induction false} TotalOfNear(base: real, delays: seq<int>)
    requires forall k | 0 <= k < |delays| :: Near(delays[k] as real, Backoff(base, k), 0.5)
    ensures Near(Total(delays) as real, Doublings(base, |delays|), |delays| as real * 0.5)
  {
    if delays == [] {
      assert Doublings(base, 0) == 0.0;
    } else {
      var m := |delays| - 1;
      TotalOfNear(base, delays[..m]);
      OneMoreDoubling(base, m);
      AddDelay(Total(delays[..m]) as real, delays[m] as real, Doublings(base, m), Backoff(base, m), m as real * 0.5);
      assert (m + 1) as real * 0.5 == m as real * 0.5 + 0.5;
    }
  }

  /** The backoff bound: m retries sleep between 0.75 and 1.25 of b * (2^m - 1), give or take m / 2. */
  lemma {:induction false} TotalDelayBound(base: real, random: nat -> real, delays: seq<int>)
    requires 0.0 <= base && forall k: nat :: 0.0 <= random(k) < 1.0
    requires forall k | 0 <= k < |delays| :: delays[k] == Delay(base, k, random(k))
    ensures var full, rounding := Doublings(base, |delays|), |delays| as real * 0.5;
            0.75 * full - rounding <= Total(delays) as real <= 1.25 * full + rounding
  {
    forall k | 0 <= k < |delays| ensures Near(delays[k] as real, Backoff(base, k), 0.5) {
      DelayBound(base, k, random(k));
    }
    TotalOfNear(base, delays);
  }

  lemma {:induction false} Pow2Grows(m: nat, n: nat)
    requires m <= n
    ensures 1 <= Pow2(m) <= Pow2(n)
  {
    if n > 0 {
      Pow2Grows(if m == n then m - 1 else m, n - 1);
    }
  }

  lemma DoublingsGrow(base: real, m: nat, n: nat)
    requires 0.0 <= base && m <= n
    ensures Doublings(base, m) <= Doublings(base, n)
  {
    Pow2Grows(m, n);
    var more := Pow2(n) as real - Pow2(m) as real;
    assert 0.0 <= base * more;
  }

  // ---------------------------------------------------------------- the attempt loop

  predicate WorthRetrying<T>(a: Attempt<T>) {
    a.AxiosFailure? && IsRetryable(a.error)
  }

  /**
   * request: `attempt(k)` is what attempt k meets. Every attempt before the last is a retryable
   * failure; the last one is decisive, or the retries are spent; and its outcome is the caller's.
   * A negative maxRetries makes no call at all.
   */
  method Request<T>(maxRetries: int, base: real, attempt: nat -> Attempt<T>, random: nat -> real)
    returns (r: Outcome<T>, calls: nat, delays: seq<int>)
    ensures maxRetries < 0 ==> calls == 0 && delays == [] && r.Thrown? && r.error.NetworkError?
    ensures 0 <= maxRetries ==> 1 <= calls <= maxRetries + 1 && |delays| == calls - 1
    ensures 0 <= maxRetries ==> forall k | 0 <= k < calls - 1 :: WorthRetrying(attempt(k))
    ensures 0 <= maxRetries ==> calls == maxRetries + 1 || !WorthRetrying(attempt(calls - 1))
    ensures 0 <= maxRetries ==>
      match attempt(calls - 1)
      case Response(data) => r == Returned(data)
      case AxiosFailure(error) => r == Thrown(WrapAxiosError(error))
      case OtherFailure(reason) => r == Rethrown(reason)
    ensures forall k | 0 <= k < |delays| :: delays[k] == Delay(base, k, random(k))
  {
    calls, delays := 0, [];
    var n := 0;
    var lastError: Option<AxiosError> := None;
    while n <= maxRetries
      invariant 0 <= n && (if maxRetries < 0 then n == 0 else n <= maxRetries)
      invariant calls == n && |delays| == n
      invariant forall k | 0 <= k < n :: WorthRetrying(attempt(k))
      invariant forall k | 0 <= k < n :: delays[k] == Delay(base, k, random(k))
      invariant n == 0 ==> lastError.None?
    {
      calls := calls + 1;
      match attempt(n) {
        case Response(data) => return Returned(data), calls, delays;
        case OtherFailure(reason) => return Rethrown(reason), calls, delays;
        case AxiosFailure(error) =>
          lastError := Some(error);
          if !IsRetryable(error) || n == maxRetries {
            return Thrown(WrapAxiosError(error)), calls, delays;
          }
          var exponential := base * Pow2(n) as real;
          assert exponential == Backoff(base, n);
          var jitter := exponential * 0.25 * (random(n) * 2.0 - 1.0);
          assert exponential + jitter == Jittered(exponential, random(n));
          var ms := Max(0, Round(exponential + jitter));
          assert ms == Delay(base, n, random(n));
          delays := delays + [ms];
      }
      n := n + 1;
    }
    r := Thrown(match lastError case Some(error) => WrapAxiosError(error) case None => NetworkError("Network error"));
  }

  /**
   * What the delays of a request add up to: at most 1.25 * b * (2^n - 1) + n / 2 ms, and at least
   * 0.75 * b * (2^n - 1) - n / 2 ms when all n retries were spent.
   */
  lemma SleepBudget(maxRetries: nat, base: real, random: nat -> real, calls: nat, delays: seq<int>)
    requires 0.0 <= base && forall k: nat :: 0.0 <= random(k) < 1.0
    requires |delays| + 1 == calls <= maxRetries + 1
    requires forall k | 0 <= k < |delays| :: delays[k] == Delay(base, k, random(k))
    ensures var full, rounding := Doublings(base, maxRetries), maxRetries as real * 0.5;
      && Total(delays) as real <= 1.25 * full + rounding
      && (calls == maxRetries + 1 ==> 0.75 * full - rounding <= Total(delays) as real)
  {
    TotalDelayBound(base, random, delays);
    DoublingsGrow(base, |delays|, maxRetries);
  }
}
