/** Polling for a device authorization, section 3.5 of RFC 8628: `DeviceFlowClient::poll`. Times
    and durations are whole nanoseconds; the clock and the provider's replies are given. */
module DeviceFlow {
  import opened Text
  import opened Versions
  import Tokens

  const SLOW_DOWN: nat := 5 * Tokens.SECOND

  /** The provider's answer to one poll: tokens, one of the named errors, or anything else,
      including no answer. */
  datatype Reply =
    | TokenSet(accessToken: string)
    | AuthorizationPending
    | SlowDown
    | AccessDenied
    | ExpiredToken
    | Unusable

  /** `begin`'s choice of the first interval, from the seconds the provider asked for. */
  function FirstInterval(requested: Option<nat>): (interval: nat)
    ensures Tokens.SECOND <= interval
    ensures requested.None? ==> interval == 5 * Tokens.SECOND
    ensures requested.Some? && 1 <= requested.value ==> interval == requested.value * Tokens.SECOND
    ensures requested == Some(0) ==> interval == Tokens.SECOND
  {
    var wanted := if requested.Some? then requested.value else 5;
    if wanted < 1 then Tokens.SECOND else wanted * Tokens.SECOND
  }

  /** How many of the first `n` replies asked to slow down. */
  ghost function SlowDowns(reply: nat -> Reply, n: nat): nat {
    if n == 0 then 0 else SlowDowns(reply, n - 1) + if reply(n - 1) == SlowDown then 1 else 0
  }

  /** The interval slept before poll `n`: the first, and five seconds more per earlier slow-down. */
  ghost function IntervalBefore(first: nat, reply: nat -> Reply, n: nat): nat { first + SLOW_DOWN * SlowDowns(reply, n) }

  /** The total of the first `n` intervals. */
  ghost function Slept(first: nat, reply: nat -> Reply, n: nat): nat {
    if n == 0 then 0 else Slept(first, reply, n - 1) + IntervalBefore(first, reply, n - 1)
  }

  /** The clock read before poll `n + 1` is at least the slept interval after the reading before. */
  ghost predicate SleepLasts(first: nat, reply: nat -> Reply, clock: nat -> nat, n: nat) {
    clock(n) + IntervalBefore(first, reply, n) <= clock(n + 1)
  }

  ghost predicate SleepsLast(first: nat, reply: nat -> Reply, clock: nat -> nat) {
    forall n: nat :: SleepLasts(first, reply, clock, n)
  }

  predicate GoesOn(reply: Reply) { reply == AuthorizationPending || reply == SlowDown }

  /** Poll `n` can be made before the authorization expires. */
  ghost predicate InTime(first: nat, expiresAt: nat, reply: nat -> Reply, clock: nat -> nat, n: nat) {
    clock(n) + IntervalBefore(first, reply, n) < expiresAt
  }

  /** Every poll before `n` is made in time and says to go on. */
  ghost predicate Reached(first: nat, expiresAt: nat, reply: nat -> Reply, clock: nat -> nat, n: nat) {
    n == 0 || (Reached(first, expiresAt, reply, clock, n - 1)
               && InTime(first, expiresAt, reply, clock, n - 1) && GoesOn(reply(n - 1)))
  }

  function Outcome(reply: Reply): Result<string>
    requires !GoesOn(reply)
  {
    match reply
    case TokenSet(token) => if token == "" then Err(Unavailable) else Ok(token)
    case AccessDenied => Err(Unauthenticated)
    case ExpiredToken => Err(Unauthenticated)
    case _ => Err(Unavailable)
  }

  /** What each final answer means: tokens that can be used, a refusal by the person or by time, or a
      provider that cannot be understood. */
  lemma OutcomeMeans(reply: Reply)
    requires !GoesOn(reply)
    ensures forall token: string :: Outcome(reply) == Ok(token) <==> token != "" && reply == TokenSet(token)
    ensures Outcome(reply) == Err(Unauthenticated) <==> reply == AccessDenied || reply == ExpiredToken
    ensures Outcome(reply) == Err(Unavailable) <==> reply == Unusable || reply == TokenSet("")
  {
  }

  /** `poll`, with the number of polls made: it ends with the first reply that does not say to go
      on, or as expired at the first poll that would come too late. */
  method Poll(first: nat, expiresAt: nat, reply: nat -> Reply, clock: nat -> nat) returns (r: Result<string>, polls: nat)
    requires 1 <= first && SleepsLast(first, reply, clock)
    ensures || (&& Reached(first, expiresAt, reply, clock, polls)
                && !InTime(first, expiresAt, reply, clock, polls)
                && r == Err(Unauthenticated))
            || (&& polls > 0
                && Reached(first, expiresAt, reply, clock, polls - 1)
                && InTime(first, expiresAt, reply, clock, polls - 1)
                && !GoesOn(reply(polls - 1)) && r == Outcome(reply(polls - 1)))
  {
    var interval := first;
    polls := 0;
    while true
      invariant interval == IntervalBefore(first, reply, polls)
      invariant Reached(first, expiresAt, reply, clock, polls)
      decreases expiresAt - clock(polls)
    {
      if clock(polls) + interval >= expiresAt {
        return Err(Unauthenticated), polls;
      }
      assert SleepLasts(first, reply, clock, polls);
      var answer := reply(polls);
      polls := polls + 1;
      match answer {
        case TokenSet(token) =>
          if token == "" { return Err(Unavailable), polls; }
          return Ok(token), polls;
        case AuthorizationPending =>
        case SlowDown => interval := interval + SLOW_DOWN;
        case AccessDenied => return Err(Unauthenticated), polls;
        case ExpiredToken => return Err(Unauthenticated), polls;
        case Unusable => return Err(Unavailable), polls;
      }
    }
  }

  /** What is slept passes on the clock. */
  lemma {:induction false} SleptHasPassed(first: nat, reply: nat -> Reply, clock: nat -> nat, n: nat)
    requires SleepsLast(first, reply, clock)
    ensures clock(0) + Slept(first, reply, n) <= clock(n)
  {
    if n > 0 {
      SleptHasPassed(first, reply, clock, n - 1);
      assert SleepLasts(first, reply, clock, n - 1);
    }
  }

  // ---------- How many polls fit ----------

  /** The sum of the numbers below `n`. */
  function Triangle(n: nat): nat { if n == 0 then 0 else Triangle(n - 1) + (n - 1) }

  lemma {:induction false} TriangleClosed(n: nat)
    ensures Triangle(n) == n * (n - 1) / 2
  {
    if n > 0 {
      TriangleClosed(n - 1);
      assert n * (n - 1) == (n - 1) * (n - 2) + 2 * (n - 1);
    }
  }

  lemma {:induction false} SlowDownsAtMost(reply: nat -> Reply, n: nat)
    ensures SlowDowns(reply, n) <= n
    ensures SlowDowns(reply, n) == n <==> forall k :: 0 <= k < n ==> reply(k) == SlowDown
  {
    if n > 0 {
      SlowDownsAtMost(reply, n - 1);
    }
  }

  /** The slow-downs summed over the intervals they lengthen. */
  ghost function Lengthenings(reply: nat -> Reply, n: nat): nat {
    if n == 0 then 0 else Lengthenings(reply, n - 1) + SlowDowns(reply, n - 1)
  }

  lemma {:induction false} LengtheningsAtMost(reply: nat -> Reply, n: nat)
    ensures Lengthenings(reply, n) <= Triangle(n)
    ensures Lengthenings(reply, n) == Triangle(n) <==> forall k :: 0 <= k < n - 1 ==> reply(k) == SlowDown
  {
    if n > 0 {
      LengtheningsAtMost(reply, n - 1);
      SlowDownsAtMost(reply, n - 1);
    }
  }

  lemma {:induction false} SleptIsLengthened(first: nat, reply: nat -> Reply, n: nat)
    ensures Slept(first, reply, n) == n * first + SLOW_DOWN * Lengthenings(reply, n)
  {
    if n > 0 {
      SleptIsLengthened(first, reply, n - 1);
      assert n * first == (n - 1) * first + first;
    }
  }

  /** A run that makes `polls` polls slept less than the time to expiry, so they fit it even at
      the first interval. When every reply before the last asks to slow down, and only then, the
      intervals sum to the quadratic total, which then fits too. */
  lemma PollsFit(first: nat, expiresAt: nat, reply: nat -> Reply, clock: nat -> nat, polls: nat)
    requires SleepsLast(first, reply, clock) && polls > 0
    requires InTime(first, expiresAt, reply, clock, polls - 1)
    ensures polls * first <= Slept(first, reply, polls) < expiresAt - clock(0)
    ensures (forall k :: 0 <= k < polls - 1 ==> reply(k) == SlowDown) <==>
            Slept(first, reply, polls) == polls * first + 5 * Tokens.SECOND * (polls * (polls - 1) / 2)
  {
    SleptHasPassed(first, reply, clock, polls - 1);
    SleptIsLengthened(first, reply, polls);
    LengtheningsAtMost(reply, polls);
    TriangleClosed(polls);
    Totals(polls * first, Lengthenings(reply, polls), polls * (polls - 1) / 2);
  }

  lemma Totals(base: nat, lengthened: nat, most: nat)
    ensures base <= base + SLOW_DOWN * lengthened
    ensures lengthened == most <==> base + SLOW_DOWN * lengthened == base + SLOW_DOWN * most
  {
  }
}
