/** The request retry loop: one budget for network errors, another for HTTP 429. */
module Retry {
  import opened Options

  const DEFAULT_RETRIES: nat := 3
  const MAX_RATE_LIMIT_RETRIES: nat := 5

  /** What one request attempt comes back with. */
  datatype Reply = NetworkError(error: string) | RateLimited | Response(body: string)

  datatype RetryEnd =
    | Returned(body: string)
    | Http(error: string)
    | StillRateLimited
    | LastError(reply: Reply)
    | RetryExhausted

  /** The replies to come, one for each request built. */
  type Replies = nat -> Reply

  function CountNetworkErrors(replies: Replies, n: nat): nat {
    if n == 0 then 0
    else CountNetworkErrors(replies, n - 1) + (if replies(n - 1).NetworkError? then 1 else 0)
  }

  function CountRateLimits(replies: Replies, n: nat): nat {
    if n == 0 then 0
    else CountRateLimits(replies, n - 1) + (if replies(n - 1).RateLimited? then 1 else 0)
  }

  /** Nothing among the first `n` replies decides: no response, fewer than `retries`
  network errors, at most five rate limits. */
  ghost predicate Undecided(retries: nat, replies: Replies, n: nat) {
    && (forall i :: 0 <= i < n ==> !replies(i).Response?)
    && CountNetworkErrors(replies, n) < retries
    && CountRateLimits(replies, n) <= 5
  }

  /** Reply number `n` is the first that decides. */
  ghost predicate DecidedAt(retries: nat, replies: Replies, n: nat) {
    n > 0 && Undecided(retries, replies, n - 1) && !Undecided(retries, replies, n)
  }

  function EndOf(reply: Reply): RetryEnd {
    match reply
    case Response(body) => Returned(body)
    case NetworkError(error) => Http(error)
    case RateLimited => StillRateLimited
  }

  /** A response is returned as it came, a network error with its own message, and a rate
  limit as such. */
  ghost predicate Reports(reply: Reply, end: RetryEnd) {
    && (forall body :: reply == Response(body) ==> end == Returned(body))
    && (forall error :: reply == NetworkError(error) ==> end == Http(error))
    && (reply == RateLimited ==> end == StillRateLimited)
  }

  /** The first deciding reply determines the outcome; with any retries at all the
  fall-through after the loop is never reached. */
  method ExecuteWithRetries(retries: nat, replies: Replies) returns (end: RetryEnd, built: nat)
    ensures retries == 0 ==> end.RetryExhausted? && built == 0
    ensures retries > 0 ==> DecidedAt(retries, replies, built) && end == EndOf(replies(built - 1))
    ensures retries > 0 ==> Reports(replies(built - 1), end)
    ensures built <= retries + 5
  {
    var lastErr: Option<Reply> := None;
    var rateLimitHits, attempt := 0, 0;
    built := 0;
    while attempt < retries
      invariant attempt <= retries && rateLimitHits <= MAX_RATE_LIMIT_RETRIES
      invariant attempt == CountNetworkErrors(replies, built)
      invariant rateLimitHits == CountRateLimits(replies, built)
      invariant built == attempt + rateLimitHits
      invariant retries > 0 ==> Undecided(retries, replies, built)
      invariant retries == 0 ==> lastErr.None? && built == 0
      decreases retries - attempt + MAX_RATE_LIMIT_RETRIES - rateLimitHits
    {
      var reply := replies(built);
      built := built + 1;
      match reply {
        case NetworkError(error) =>
          if attempt < retries - 1 {
            lastErr := Some(reply);
            attempt := attempt + 1;
          } else {
            return Http(error), built;
          }
        case RateLimited =>
          rateLimitHits := rateLimitHits + 1;
          if rateLimitHits > MAX_RATE_LIMIT_RETRIES {
            return StillRateLimited, built;
          }
          lastErr := Some(reply);
        case Response(body) =>
          return Returned(body), built;
      }
    }
    end := if lastErr.Some? then LastError(lastErr.value) else RetryExhausted;
  }

  /** The signed and the public clients retry with the default budget: the first response,
  the third network error or the sixth rate limit ends the call, within 8 requests. */
  method SendWithRetry(replies: Replies) returns (end: RetryEnd, built: nat)
    ensures DecidedAt(DEFAULT_RETRIES, replies, built) && end == EndOf(replies(built - 1))
    ensures 1 <= built <= 8 && Reports(replies(built - 1), end)
    ensures forall i :: 0 <= i < built - 1 ==> !replies(i).Response?
    ensures CountNetworkErrors(replies, built - 1) < 3 && CountRateLimits(replies, built - 1) < 6
    ensures replies(built - 1).NetworkError? ==> CountNetworkErrors(replies, built) == 3
    ensures replies(built - 1).RateLimited? ==> CountRateLimits(replies, built) == 6
  {
    end, built := ExecuteWithRetries(DEFAULT_RETRIES, replies);
    DecisiveReply(DEFAULT_RETRIES, replies, built);
  }

  lemma {:induction false} UndecidedEarlier(retries: nat, replies: Replies, m: nat, n: nat)
    requires m <= n && Undecided(retries, replies, n)
    ensures Undecided(retries, replies, m)
  {
    if m == n {
    } else {
      UndecidedEarlier(retries, replies, m, n - 1);
    }
  }

  /** Only one reply can be the first that decides. */
  lemma DecidedOnce(retries: nat, replies: Replies, m: nat, n: nat)
    requires DecidedAt(retries, replies, m) && DecidedAt(retries, replies, n)
    ensures m == n
  {
    if m < n {
      UndecidedEarlier(retries, replies, m, n - 1);
    } else if n < m {
      UndecidedEarlier(retries, replies, n, m - 1);
    }
  }

  /** The deciding reply is a response, the `retries`-th network error, or the rate
  limit one past the cap, whichever comes first. */
  lemma DecisiveReply(retries: nat, replies: Replies, n: nat)
    requires retries > 0
    ensures DecidedAt(retries, replies, n) <==>
      n > 0 && Undecided(retries, replies, n - 1) &&
      match replies(n - 1)
      case Response(_) => true
      case NetworkError(_) => CountNetworkErrors(replies, n) == retries
      case RateLimited => CountRateLimits(replies, n) == 6
  {
    if n > 0 && Undecided(retries, replies, n) {
      assert !replies(n - 1).Response?;
    }
  }
}
