/** The request loop: pacing, sending, and re-sending after network failures,
    server errors and 429s (section 4 of RFC 6585).

    Times and waits are nanoseconds.  The world is a script: what each attempt
    meets, in order, and how long it takes.  A script that runs out leaves the
    loop running. */
module Retry {
  import opened Wrappers

  const SECOND: int := 1_000_000_000

  const DEFAULT_TIMEOUT: int := 60 * SECOND

  /** `retryAfter` is the delay the reply's headers ask for. */
  datatype Outcome =
    | NotPaced                 // a limiter wait ended with the context
    | Unreachable(permanent: bool, callerGone: bool)
    | Unreadable               // the response body could not be read
    | Status(code: int, retryAfter: int)

  /** The outcome is known `delay` after the attempt began; a sleep after it takes
      `late` longer than asked, and `cancelled` ends it at once. */
  datatype Attempt = Attempt(outcome: Outcome, delay: nat, late: nat, cancelled: bool)

  datatype Config = Config(
    replaySafe: bool,
    maxRetries: int,
    retryBudget: int,
    started: int,
    deadline: int)

  datatype Verdict =
    | Answered(code: int)
    | ApiError(code: int)
    | RateLimited(attempts: int)
    | NetworkError
    | ContextEnded

  /** Why the loop went round again: after a failure, after a 429 within the retry
      policy, or after a 429 beyond it.  The wait began at `at`. */
  datatype Cause = Backoff | Throttled | Refill

  datatype Resend = Resend(cause: Cause, wait: int, at: int)

  datatype Loop = Loop(
    attempt: nat,          // counts from zero
    clock: int,
    sends: nat,            // requests put on the wire
    resends: seq<Resend>,
    met: seq<Attempt>)     // the attempts that led to another one

  datatype Turn = Again(loop: Loop) | Done(loop: Loop, verdict: Verdict)

  // ----- the surroundings -----

  /** What the caller, the client and the platform's retry policy ask for. */
  datatype Setup = Setup(
    readOnlyIntent: bool,
    mutationIntent: bool,
    retryableRequest: bool,       // by its method and idempotency key
    clientRetries: int,
    maxAttempts: int,             // 0 when the policy sets none
    retryBudget: int,
    boundAt: int,                 // when the operation's deadline was bound
    callerDeadline: Option<int>,
    clientTimeout: int,
    started: int)

  /** A caller's deadline wins; else the client's timeout, which is never absent. */
  function BindDeadline(now: int, callerDeadline: Option<int>, clientTimeout: int): int {
    if callerDeadline.Some? then callerDeadline.value
    else now + Timeout(clientTimeout)
  }

  function Timeout(clientTimeout: int): int { if clientTimeout > 0 then clientTimeout else DEFAULT_TIMEOUT }

  function MaxRetries(clientRetries: int, maxAttempts: int): int {
    if maxAttempts > 0 && clientRetries > maxAttempts - 1 then maxAttempts - 1 else clientRetries
  }

  function Configure(s: Setup): Config {
    Config(s.readOnlyIntent || (!s.mutationIntent && s.retryableRequest), MaxRetries(s.clientRetries, s.maxAttempts),
           s.retryBudget, s.started, BindDeadline(s.boundAt, s.callerDeadline, s.clientTimeout))
  }

  function BackoffWait(attempt: nat): int {
    if attempt == 0 then SECOND else 2 * BackoffWait(attempt - 1)
  }

  predicate WithinBudget(cfg: Config, clock: int, wait: int) {
    cfg.retryBudget > 0 && clock - cfg.started + wait <= cfg.retryBudget
  }

  /** A refill wait is never zero. */
  function RefillWait(wait: int): int { if wait <= 0 then SECOND else wait }

  /** A sleep ends in time, or with the operation's context.  A wait of nothing
      may end either way even when the deadline is past. */
  function AfterSleep(cfg: Config, l: Loop, a: Attempt, cause: Cause, wait: int): Turn {
    if a.cancelled || (wait > 0 && l.clock + wait > cfg.deadline) then Done(l, ContextEnded)
    else
      Again(Loop(l.attempt + 1, l.clock + (if wait > 0 then wait else 0) + a.late, l.sends,
                 l.resends + [Resend(cause, wait, l.clock)], l.met + [a]))
  }

  // ----- one attempt -----

  function OnFailure(cfg: Config, l: Loop, a: Attempt, retryable: bool, otherwise: Verdict): Turn {
    if retryable && l.attempt < cfg.maxRetries && cfg.replaySafe && WithinBudget(cfg, l.clock, BackoffWait(l.attempt))
    then AfterSleep(cfg, l, a, Backoff, BackoffWait(l.attempt))
    else Done(l, otherwise)
  }

  function OnTooMany(cfg: Config, l: Loop, a: Attempt, wait: int): Turn {
    if l.attempt < cfg.maxRetries && cfg.replaySafe && WithinBudget(cfg, l.clock, wait)
    then AfterSleep(cfg, l, a, Throttled, wait)
    else if cfg.replaySafe && cfg.maxRetries > 0 && l.attempt >= cfg.maxRetries
    then AfterSleep(cfg, l, a, Refill, RefillWait(wait))
    else Done(l, RateLimited(l.attempt + 1))
  }

  function TakeTurn(cfg: Config, before: Loop, a: Attempt): Turn {
    var waited := before.(clock := before.clock + a.delay);
    var l := waited.(sends := before.sends + 1);
    match a.outcome
    case NotPaced => Done(waited, ContextEnded)
    case Unreachable(permanent, callerGone) =>
      if callerGone then Done(l, ContextEnded) else OnFailure(cfg, l, a, !permanent, NetworkError)
    case Unreadable => Done(l, NetworkError)
    case Status(code, retryAfter) =>
      if code < 400 then Done(l, Answered(code))
      else if code == 429 then OnTooMany(cfg, l, a, retryAfter)
      else OnFailure(cfg, l, a, code >= 500, ApiError(code))
  }

  function Start(cfg: Config): Loop {
    Loop(0, cfg.started, 0, [], [])
  }

  function Run(cfg: Config, l: Loop, script: seq<Attempt>): Turn
    decreases |script|
  {
    if script == [] then Again(l)
    else
      match TakeTurn(cfg, l, script[0])
      case Done(l', v) => Done(l', v)
      case Again(l') => Run(cfg, l', script[1..])
  }

  /** The loop itself, as far as the script reaches. */
  method DoInternal(cfg: Config, script: seq<Attempt>) returns (turn: Turn)
    ensures turn == Run(cfg, Start(cfg), script)
    ensures if turn.Again? then GoesOnThrough(cfg, script, Waits(turn.loop.resends)) else Ends(cfg, script, turn)
  {
    hide BackoffWait, WithinBudget, GoesOnThrough, Ends;
    if Run(cfg, Start(cfg), script).Again? {
      RunGoesOn(cfg, script);
    } else {
      VerdictsExactly(cfg, script);
    }
    var l := Start(cfg);
    for next := 0 to |script|
      invariant Run(cfg, l, script[next..]) == Run(cfg, Start(cfg), script)
    {
      var a := script[next];
      assert script[next..][1..] == script[next + 1..];
      l := l.(clock := l.clock + a.delay);
      if a.outcome.NotPaced? {
        return Done(l, ContextEnded);
      }
      l := l.(sends := l.sends + 1);
      var again: Turn;
      match a.outcome {
        case Unreachable(permanent, callerGone) =>
          if callerGone {
            return Done(l, ContextEnded);
          }
          if !(l.attempt < cfg.maxRetries && cfg.replaySafe && !permanent) {
            return Done(l, NetworkError);
          }
          var wait := BackoffWait(l.attempt);
          if !WithinBudget(cfg, l.clock, wait) {
            return Done(l, NetworkError);
          }
          again := AfterSleep(cfg, l, a, Backoff, wait);
        case Unreadable =>
          return Done(l, NetworkError);
        case Status(code, retryAfter) =>
          if code < 400 {
            return Done(l, Answered(code));
          }
          if code == 429 {
            if l.attempt < cfg.maxRetries && cfg.replaySafe && WithinBudget(cfg, l.clock, retryAfter) {
              again := AfterSleep(cfg, l, a, Throttled, retryAfter);
            } else if cfg.replaySafe && cfg.maxRetries > 0 && l.attempt >= cfg.maxRetries {
              again := AfterSleep(cfg, l, a, Refill, RefillWait(retryAfter));
            } else {
              return Done(l, RateLimited(l.attempt + 1));
            }
          } else if code >= 500 && l.attempt < cfg.maxRetries && cfg.replaySafe {
            var wait := BackoffWait(l.attempt);
            if !WithinBudget(cfg, l.clock, wait) {
              return Done(l, ApiError(code));
            }
            again := AfterSleep(cfg, l, a, Backoff, wait);
          } else {
            return Done(l, ApiError(code));
          }
      }
      if again.Done? {
        return again;
      }
      l := again.loop;
    }
    turn := Again(l);
  }

  // ----- what every run keeps -----

  predicate Is429(a: Attempt) { a.outcome.Status? && a.outcome.code == 429 }

  predicate IsAmbiguousFailure(a: Attempt) {
    || (a.outcome.Unreachable? && !a.outcome.permanent && !a.outcome.callerGone)
    || (a.outcome.Status? && a.outcome.code >= 500)
  }

  /** The k-th re-send and the attempt that led to it. */
  predicate ResendOk(cfg: Config, k: nat, r: Resend, a: Attempt) {
    && cfg.replaySafe
    && (r.wait > 0 ==> r.at + r.wait <= cfg.deadline)
    && match r.cause
       case Backoff =>
         k < cfg.maxRetries && IsAmbiguousFailure(a) && r.wait == BackoffWait(k) && WithinBudget(cfg, r.at, r.wait)
       case Throttled => k < cfg.maxRetries && Is429(a) && WithinBudget(cfg, r.at, r.wait)
       case Refill => k >= cfg.maxRetries > 0 && Is429(a) && r.wait > 0
  }

  ghost predicate LoopOk(cfg: Config, l: Loop) {
    && |l.resends| == |l.met| == l.attempt
    && l.attempt <= l.sends + 1 && l.sends <= l.attempt + 1
    && (l.attempt > 0 ==> cfg.replaySafe)
    && (forall k :: 0 <= k < l.attempt ==> ResendOk(cfg, k, l.resends[k], l.met[k]))
    && (forall k :: 0 < k < l.attempt ==> l.resends[k - 1].at + l.resends[k - 1].wait <= l.resends[k].at)
    && (l.attempt > 0 ==> l.resends[l.attempt - 1].at + l.resends[l.attempt - 1].wait <= l.clock)
    && cfg.started <= l.clock
    && (forall k :: 0 <= k < l.attempt ==> cfg.started <= l.resends[k].at)
  }

  /** Time passes, and at most one more request is sent. */
  lemma SendingKeeps(cfg: Config, l: Loop, a: Attempt)
    requires LoopOk(cfg, l) && l.sends == l.attempt
    ensures var waited := l.(clock := l.clock + a.delay);
      LoopOk(cfg, waited) && LoopOk(cfg, waited.(sends := l.sends + 1))
  {
    hide ResendOk;
  }

  lemma SleepingKeeps(cfg: Config, l: Loop, a: Attempt, cause: Cause, wait: int)
    requires LoopOk(cfg, l) && l.sends == l.attempt + 1
    requires (wait > 0 ==> l.clock + wait <= cfg.deadline) ==> ResendOk(cfg, l.attempt, Resend(cause, wait, l.clock), a)
    ensures var t := AfterSleep(cfg, l, a, cause, wait);
      LoopOk(cfg, t.loop) && (t.Again? ==> t.loop.sends == t.loop.attempt == l.attempt + 1)
  {
  }

  lemma FailureKeeps(cfg: Config, l: Loop, a: Attempt, retryable: bool, otherwise: Verdict)
    requires LoopOk(cfg, l) && l.sends == l.attempt + 1 && (retryable ==> IsAmbiguousFailure(a))
    ensures var t := OnFailure(cfg, l, a, retryable, otherwise);
      LoopOk(cfg, t.loop) && (t.Again? ==> t.loop.sends == t.loop.attempt == l.attempt + 1)
  {
    hide LoopOk, AfterSleep, BackoffWait, WithinBudget, IsAmbiguousFailure;
    var wait := BackoffWait(l.attempt);
    if retryable && l.attempt < cfg.maxRetries && cfg.replaySafe && WithinBudget(cfg, l.clock, wait) {
      SleepingKeeps(cfg, l, a, Backoff, wait);
    }
  }

  lemma TooManyKeeps(cfg: Config, l: Loop, a: Attempt, wait: int)
    requires LoopOk(cfg, l) && l.sends == l.attempt + 1 && Is429(a)
    ensures var t := OnTooMany(cfg, l, a, wait);
      LoopOk(cfg, t.loop) && (t.Again? ==> t.loop.sends == t.loop.attempt == l.attempt + 1)
  {
    hide LoopOk, AfterSleep, BackoffWait, WithinBudget, Is429;
    if l.attempt < cfg.maxRetries && cfg.replaySafe && WithinBudget(cfg, l.clock, wait) {
      SleepingKeeps(cfg, l, a, Throttled, wait);
    } else if cfg.replaySafe && cfg.maxRetries > 0 && l.attempt >= cfg.maxRetries {
      SleepingKeeps(cfg, l, a, Refill, RefillWait(wait));
    }
  }

  lemma TurnKeeps(cfg: Config, l: Loop, a: Attempt)
    requires LoopOk(cfg, l) && l.sends == l.attempt
    ensures var t := TakeTurn(cfg, l, a);
      LoopOk(cfg, t.loop) && (t.Again? ==> t.loop.sends == t.loop.attempt == l.attempt + 1)
  {
    hide LoopOk, OnFailure, OnTooMany;
    SendingKeeps(cfg, l, a);
    var sent := l.(clock := l.clock + a.delay).(sends := l.sends + 1);
    match a.outcome {
      case Unreachable(permanent, callerGone) =>
        if !callerGone {
          FailureKeeps(cfg, sent, a, !permanent, NetworkError);
        }
      case Status(code, wait) =>
        if code == 429 {
          TooManyKeeps(cfg, sent, a, wait);
        } else {
          FailureKeeps(cfg, sent, a, code >= 500, ApiError(code));
        }
      case _ =>
    }
  }

  lemma {:induction false} RunKeeps(cfg: Config, l: Loop, script: seq<Attempt>)
    requires LoopOk(cfg, l) && l.sends == l.attempt
    ensures var t := Run(cfg, l, script);
      LoopOk(cfg, t.loop) && (t.Again? ==> t.loop.sends == t.loop.attempt == l.attempt + |script|)
    decreases |script|
  {
    hide TakeTurn, LoopOk;
    if script != [] {
      TurnKeeps(cfg, l, script[0]);
      var t := TakeTurn(cfg, l, script[0]);
      if t.Again? {
        RunKeeps(cfg, t.loop, script[1..]);
      }
    }
  }

  lemma TurnMeets(cfg: Config, l: Loop, a: Attempt)
    ensures var t := TakeTurn(cfg, l, a); t.loop.met == if t.Again? then l.met + [a] else l.met
  {
    hide BackoffWait, WithinBudget;
  }

  lemma {:induction false} RunSplits(cfg: Config, l: Loop, head: seq<Attempt>, tail: seq<Attempt>)
    ensures var t := Run(cfg, l, head); Run(cfg, l, head + tail) == if t.Again? then Run(cfg, t.loop, tail) else t
    decreases |head|
  {
    hide TakeTurn;
    if head == [] {
      assert head + tail == tail;
    } else {
      assert (head + tail)[0] == head[0] && (head + tail)[1..] == head[1..] + tail;
      var t := TakeTurn(cfg, l, head[0]);
      if t.Again? {
        RunSplits(cfg, t.loop, head[1..], tail);
      }
    }
  }

  /** What the loop counts as met is the script up to the attempt that ends it,
      and that attempt, taken in the state the earlier ones lead to, is the end. */
  lemma {:induction false} RunMeetsTheScript(cfg: Config, script: seq<Attempt>)
    ensures var t := Run(cfg, Start(cfg), script); var met := t.loop.met;
      && met <= script
      && (t.Again? <==> met == script)
      && (t.Done? ==> Run(cfg, Start(cfg), met).Again?
                      && t == TakeTurn(cfg, Run(cfg, Start(cfg), met).loop, script[|met|]))
    decreases |script|
  {
    hide TakeTurn;
    if script != [] {
      var head, last := script[..|script| - 1], script[|script| - 1];
      assert script == head + [last];
      RunMeetsTheScript(cfg, head);
      RunSplits(cfg, Start(cfg), head, [last]);
      var before := Run(cfg, Start(cfg), head);
      if before.Again? {
        TurnMeets(cfg, before.loop, last);
        OneAttempt(cfg, before.loop, last);
      }
    }
  }

  lemma OneAttempt(cfg: Config, l: Loop, a: Attempt)
    ensures Run(cfg, l, [a]) == TakeTurn(cfg, l, a)
  {
  }

  /** A request that is not safe to replay is sent at most once. */
  lemma {:induction false} UnsafeIsSentOnce(cfg: Config, script: seq<Attempt>)
    requires !cfg.replaySafe
    ensures Run(cfg, Start(cfg), script).loop.sends <= 1
  {
    RunKeeps(cfg, Start(cfg), script);
  }

  function Count(resends: seq<Resend>, cause: Cause): nat {
    if resends == [] then 0
    else Count(resends[..|resends| - 1], cause) + if resends[|resends| - 1].cause == cause then 1 else 0
  }

  lemma {:induction false} EarlyCauses(resends: seq<Resend>, bound: nat)
    requires forall k :: bound <= k < |resends| ==> resends[k].cause == Refill
    ensures Count(resends, Backoff) + Count(resends, Throttled) <= bound
    ensures Count(resends, Backoff) + Count(resends, Throttled) <= |resends|
  {
    if resends != [] {
      EarlyCauses(resends[..|resends| - 1], bound);
    }
  }

  /** Two to the power `k`. */
  function Doublings(k: nat): nat { if k == 0 then 1 else Doublings(k - 1) * 2 }

  lemma {:induction false} BackoffDoubles(k: nat)
    ensures BackoffWait(k) == Doublings(k) * 1_000_000_000
  {
    if k > 0 {
      BackoffDoubles(k - 1);
    }
  }

  /** Re-sends after network failures, server errors and 429s within the policy
      number at most `maxRetries` together, and each of their waits ends within
      the retry budget; every later re-send follows a 429 and a positive wait. */
  lemma RetriesAreBounded(cfg: Config, script: seq<Attempt>, k: nat)
    requires k < |Run(cfg, Start(cfg), script).loop.resends|
    ensures var l := Run(cfg, Start(cfg), script).loop; var r := l.resends[k];
      && |l.met| == |l.resends| && l.met <= script
      && Count(l.resends, Backoff) + Count(l.resends, Throttled) <= (if cfg.maxRetries > 0 then cfg.maxRetries else 0)
      && (r.cause != Refill ==> r.at - cfg.started + r.wait <= cfg.retryBudget)
      && (r.cause == Backoff ==> IsAmbiguousFailure(script[k]) && r.wait == Doublings(k) * 1_000_000_000)
      && (r.cause != Backoff ==> Is429(script[k]))
      && (k >= cfg.maxRetries ==> r.cause == Refill && r.wait > 0)
  {
    hide Run, BackoffWait, Doublings;
    RunKeeps(cfg, Start(cfg), script);
    RunMeetsTheScript(cfg, script);
    BackoffDoubles(k);
    var l := Run(cfg, Start(cfg), script).loop;
    assert forall j :: 0 <= j < l.attempt ==> ResendOk(cfg, j, l.resends[j], l.met[j]);
    EarlyCauses(l.resends, if cfg.maxRetries > 0 then cfg.maxRetries else 0);
  }

  lemma {:induction false} RefillsTakeTime(cfg: Config, l: Loop, k: nat)
    requires LoopOk(cfg, l) && k < l.attempt && k >= cfg.maxRetries
    ensures k - (if cfg.maxRetries > 0 then cfg.maxRetries else 0) < l.resends[k].at + l.resends[k].wait - cfg.started
  {
    hide BackoffWait, WithinBudget;
    assert ResendOk(cfg, k, l.resends[k], l.met[k]);
    if k > 0 && k - 1 >= cfg.maxRetries {
      RefillsTakeTime(cfg, l, k - 1);
    }
  }

  /** The loop has no bound of its own, yet it ends: no script keeps it running
      for more attempts than the retries and the nanoseconds to the deadline. */
  lemma LoopEndsByDeadline(cfg: Config, script: seq<Attempt>)
    requires Run(cfg, Start(cfg), script).Again?
    ensures |script| <= (if cfg.maxRetries > 0 then cfg.maxRetries else 0)
                      + (if cfg.deadline > cfg.started then cfg.deadline - cfg.started else 0)
  {
    hide Run, BackoffWait;
    RunKeeps(cfg, Start(cfg), script);
    var l := Run(cfg, Start(cfg), script).loop;
    if l.attempt > 0 && l.attempt - 1 >= cfg.maxRetries {
      RefillsTakeTime(cfg, l, l.attempt - 1);
      assert ResendOk(cfg, l.attempt - 1, l.resends[l.attempt - 1], l.met[l.attempt - 1]);
    }
  }

  /** A failure within the policy is re-sent after 2^attempt seconds.  A 429 is
      re-sent after the wait it asks for, or, once the policy is spent, after
      that wait or a second when it asks for none.  Within the policy the wait
      must fit the retry budget. */
  predicate MayResend(cfg: Config, attempt: nat, clock: int, a: Attempt, wait: int) {
    var early := attempt < cfg.maxRetries;
    var fits := cfg.retryBudget > 0 && clock + wait <= cfg.started + cfg.retryBudget;
    var doubling := early && fits && wait == Doublings(attempt) * 1_000_000_000;
    match a.outcome
    case NotPaced => false
    case Unreadable => false
    case Unreachable(permanent, callerGone) => !permanent && !callerGone && doubling
    case Status(code, retryAfter) =>
      if code != 429 then code >= 500 && doubling
      else if early then wait == retryAfter && fits
      else cfg.maxRetries > 0 && wait == if retryAfter > 0 then retryAfter else 1_000_000_000
  }

  /** The clock when the attempts have been made and the waits after them waited. */
  function ClockAfter(cfg: Config, script: seq<Attempt>, waits: seq<int>): int
    requires |waits| == |script|
  {
    if script == [] then cfg.started
    else
      var n := |script| - 1;
      var wait := if waits[n] > 0 then waits[n] else 0;
      ClockAfter(cfg, script[..n], waits[..n]) + script[n].delay + wait + script[n].late
  }

  /** When the outcome of the k-th attempt is known. */
  function KnownAt(cfg: Config, script: seq<Attempt>, waits: seq<int>, k: nat): int
    requires k < |script| && k <= |waits|
  {
    ClockAfter(cfg, script[..k], waits[..k]) + script[k].delay
  }

  /** After the k-th attempt the request is sent again, when `waits[k]` is over. */
  predicate GoesOn(cfg: Config, script: seq<Attempt>, waits: seq<int>, k: nat)
    requires k < |script| && k < |waits|
  {
    var clock := KnownAt(cfg, script, waits, k);
    && cfg.replaySafe && !script[k].cancelled
    && MayResend(cfg, k, clock, script[k], waits[k])
    && (waits[k] > 0 ==> clock + waits[k] <= cfg.deadline)
  }

  ghost predicate GoesOnThrough(cfg: Config, script: seq<Attempt>, waits: seq<int>) {
    |waits| == |script| && forall k :: 0 <= k < |script| ==> GoesOn(cfg, script, waits, k)
  }

  /** One turn goes on exactly when the request may be sent again. */
  predicate TurnGoesOn(cfg: Config, l: Loop, a: Attempt, wait: int) {
    var clock := l.clock + a.delay;
    cfg.replaySafe && !a.cancelled && MayResend(cfg, l.attempt, clock, a, wait)
        && (wait > 0 ==> clock + wait <= cfg.deadline)
  }

  lemma TurnResends(cfg: Config, l: Loop, a: Attempt)
    ensures var t := TakeTurn(cfg, l, a);
      && (t.Again? ==>
            && |t.loop.resends| == |l.resends| + 1 && t.loop.resends[..|l.resends|] == l.resends
            && TurnGoesOn(cfg, l, a, t.loop.resends[|l.resends|].wait))
      && (forall wait :: TurnGoesOn(cfg, l, a, wait) ==>
            && t.Again? && t.loop.resends[|l.resends|].wait == wait && t.loop.attempt == l.attempt + 1
            && t.loop.clock == l.clock + a.delay + (if wait > 0 then wait else 0) + a.late)
  {
    hide BackoffWait, Doublings;
    BackoffDoubles(l.attempt);
  }

  function Waits(resends: seq<Resend>): seq<int> {
    seq(|resends|, i requires 0 <= i < |resends| => resends[i].wait)
  }

  lemma {:induction false} RunGoesOn(cfg: Config, script: seq<Attempt>)
    ensures var t := Run(cfg, Start(cfg), script); var waits := Waits(t.loop.resends);
      t.Again? ==>
        && t.loop.attempt == |script| && GoesOnThrough(cfg, script, waits)
        && t.loop.clock == ClockAfter(cfg, script, waits)
    decreases |script|
  {
    hide TakeTurn, MayResend, LoopOk;
    if script != [] {
      var n := |script| - 1;
      var head, last := script[..n], script[n];
      assert script == head + [last];
      RunGoesOn(cfg, head);
      RunSplits(cfg, Start(cfg), head, [last]);
      var before := Run(cfg, Start(cfg), head);
      OneAttempt(cfg, before.loop, last);
      TurnResends(cfg, before.loop, last);
      var t := Run(cfg, Start(cfg), script);
      if t.Again? {
        RunKeepsCount(cfg, head);
        RunKeepsCount(cfg, script);
        var waits := Waits(t.loop.resends);
        assert waits[..n] == Waits(before.loop.resends);
        PrefixGoesOn(cfg, script, waits, n);
      }
    }
  }

  lemma RunKeepsCount(cfg: Config, script: seq<Attempt>)
    ensures var t := Run(cfg, Start(cfg), script);
      |t.loop.resends| == t.loop.attempt && (t.Again? ==> t.loop.attempt == |script|)
  {
    RunKeeps(cfg, Start(cfg), script);
  }

  lemma PrefixGoesOn(cfg: Config, script: seq<Attempt>, waits: seq<int>, n: nat)
    requires |waits| == |script| && n <= |script|
    ensures GoesOnThrough(cfg, script[..n], waits[..n]) <==> forall k :: 0 <= k < n ==> GoesOn(cfg, script, waits, k)
  {
    hide MayResend;
    forall k | 0 <= k < n ensures GoesOn(cfg, script[..n], waits[..n], k) <==> GoesOn(cfg, script, waits, k) {
      assert script[..n][..k] == script[..k] && waits[..n][..k] == waits[..k];
    }
  }

  lemma {:induction false} GoingOnRuns(cfg: Config, script: seq<Attempt>, waits: seq<int>)
    requires GoesOnThrough(cfg, script, waits)
    ensures var t := Run(cfg, Start(cfg), script); t.Again? && Waits(t.loop.resends) == waits
    decreases |script|
  {
    hide TakeTurn, MayResend, LoopOk;
    if script != [] {
      var n := |script| - 1;
      var head, last := script[..n], script[n];
      assert script == head + [last];
      PrefixGoesOn(cfg, script, waits, n);
      GoingOnRuns(cfg, head, waits[..n]);
      RunGoesOn(cfg, head);
      RunSplits(cfg, Start(cfg), head, [last]);
      var before := Run(cfg, Start(cfg), head).loop;
      OneAttempt(cfg, before, last);
      RunKeepsCount(cfg, head);
      TurnResends(cfg, before, last);
      assert GoesOn(cfg, script, waits, n);
      assert TurnGoesOn(cfg, before, last, waits[n]);
      assert waits == waits[..n] + [waits[n]];
    }
  }

  /** The loop is still running at the end of a script exactly when after every
      attempt of it the request was safe to replay, the policy or a spent
      policy's 429 asked for another one, and the sleep ended in time.  The waits
      that show it are the loop's own, and its clock is their sum. */
  lemma ResendsExactlyWhenItMay(cfg: Config, script: seq<Attempt>)
    ensures var t := Run(cfg, Start(cfg), script);
      && (t.Again? <==> exists waits :: GoesOnThrough(cfg, script, waits))
      && (forall waits :: GoesOnThrough(cfg, script, waits) ==>
            Waits(t.loop.resends) == waits && t.loop.clock == ClockAfter(cfg, script, waits))
  {
    hide Run, Waits, ClockAfter, GoesOn;
    RunGoesOn(cfg, script);
    forall waits | GoesOnThrough(cfg, script, waits)
      ensures var t := Run(cfg, Start(cfg), script);
        t.Again? && Waits(t.loop.resends) == waits && t.loop.clock == ClockAfter(cfg, script, waits)
    {
      GoingOnRuns(cfg, script, waits);
    }
  }

  ghost predicate MayGoOn(cfg: Config, attempt: nat, clock: int, a: Attempt) {
    cfg.replaySafe && exists wait :: MayResend(cfg, attempt, clock, a, wait)
  }

  /** How a run that ended did, told by its last attempt and by whether that
      attempt may be followed by another. */
  predicate EndsAs(a: Attempt, mayResend: bool, attempts: nat, verdict: Verdict) {
    match a.outcome
    case NotPaced => verdict == ContextEnded
    case Unreadable => verdict == NetworkError
    case Unreachable(_, callerGone) =>
      verdict == if callerGone || mayResend then ContextEnded else NetworkError
    case Status(code, _) =>
      if code < 400 then verdict == Answered(code)
      else if mayResend then verdict == ContextEnded
      else verdict == if code == 429 then RateLimited(attempts) else ApiError(code)
  }

  lemma TurnEnds(cfg: Config, l: Loop, a: Attempt)
    requires TakeTurn(cfg, l, a).Done?
    ensures var t := TakeTurn(cfg, l, a);
      && t.loop.clock == l.clock + a.delay
      && t.loop.sends == l.sends + (if a.outcome.NotPaced? then 0 else 1)
      && EndsAs(a, MayGoOn(cfg, l.attempt, l.clock + a.delay, a), l.attempt + 1, t.verdict)
  {
    hide BackoffWait, Doublings;
    BackoffDoubles(l.attempt);
    var clock := l.clock + a.delay;
    var wait :=
      match a.outcome
      case Status(429, retryAfter) =>
        if l.attempt >= cfg.maxRetries && retryAfter <= 0 then 1_000_000_000 else retryAfter
      case _ => Doublings(l.attempt) * 1_000_000_000;
    assert forall other :: MayResend(cfg, l.attempt, clock, a, other) ==> other == wait;
    assert MayGoOn(cfg, l.attempt, clock, a) <==> cfg.replaySafe && MayResend(cfg, l.attempt, clock, a, wait);
  }

  /** The run went on through all attempts before its last one, and ended as that
      one tells. */
  ghost predicate Ends(cfg: Config, script: seq<Attempt>, t: Turn)
    requires t.Done?
  {
    var k, waits := |t.loop.met|, Waits(t.loop.resends);
    && k < |script| && |waits| == k
    && GoesOnThrough(cfg, script[..k], waits)
    && t.loop.clock == KnownAt(cfg, script, waits, k)
    && EndsAs(script[k], MayGoOn(cfg, k, t.loop.clock, script[k]), k + 1, t.verdict)
    && t.loop.sends == k + if script[k].outcome.NotPaced? then 0 else 1
  }

  /** Every run that ended, by its last attempt: a status below 400 is answered
      and any other but 429 is the platform's error; an unread body is a network
      failure, and so is a failure to send with the caller still there; and a
      429 is a rate limit.  When the request may be sent again, or was not paced,
      or its caller is gone, the run ended with its context instead. */
  lemma VerdictsExactly(cfg: Config, script: seq<Attempt>)
    requires Run(cfg, Start(cfg), script).Done?
    ensures Ends(cfg, script, Run(cfg, Start(cfg), script))
  {
    hide Run, TakeTurn, MayResend, GoesOnThrough, ClockAfter, EndsAs;
    RunMeetsTheScript(cfg, script);
    var t := Run(cfg, Start(cfg), script);
    var before := Run(cfg, Start(cfg), t.loop.met).loop;
    RunGoesOn(cfg, t.loop.met);
    RunKeeps(cfg, Start(cfg), t.loop.met);
    TurnEnds(cfg, before, script[|t.loop.met|]);
    EndingAddsNoWait(cfg, before, script[|t.loop.met|]);
    assert script[..|t.loop.met|] == t.loop.met;
    assert Waits(t.loop.resends)[..|t.loop.met|] == Waits(t.loop.resends);
  }

  lemma EndingAddsNoWait(cfg: Config, l: Loop, a: Attempt)
    ensures var t := TakeTurn(cfg, l, a); t.Done? ==> t.loop.resends == l.resends
  {
    hide BackoffWait;
  }

  /** One timeout covers everything: without a deadline of the caller the loop
      ends within the client's timeout, 60 seconds when none is set, and with one
      no wait outlasts it; a policy of so many attempts allows one fewer re-sends
      and never more than the client's; and a declared mutation is sent once
      unless it is also declared read-only. */
  lemma SetupBoundsTheLoop(s: Setup, script: seq<Attempt>, k: int)
    requires s.boundAt <= s.started
    ensures var t := Run(Configure(s), Start(Configure(s)), script);
      && (t.Again? && s.callerDeadline.None? ==>
            |script| <= (if s.clientRetries > 0 then s.clientRetries else 0)
                        + if s.clientTimeout > 0 then s.clientTimeout else 60_000_000_000)
      && (s.callerDeadline.Some? && 0 <= k < |t.loop.resends| && t.loop.resends[k].wait > 0 ==>
            t.loop.resends[k].at + t.loop.resends[k].wait <= s.callerDeadline.value)
      && (s.callerDeadline.None? ==>
            Configure(s).deadline - s.boundAt == if s.clientTimeout > 0 then s.clientTimeout else 60_000_000_000)
      && (Configure(s).replaySafe <==> s.readOnlyIntent || (s.retryableRequest && !s.mutationIntent))
      && (k < Configure(s).maxRetries <==> k < s.clientRetries && (s.maxAttempts > 0 ==> k + 1 < s.maxAttempts))
      && (s.maxAttempts > 0 ==> Count(t.loop.resends, Backoff) + Count(t.loop.resends, Throttled) <= s.maxAttempts - 1)
      && (s.mutationIntent && !s.readOnlyIntent ==> t.loop.sends <= 1)
  {
    hide Run, BackoffWait, Count, Start;
    var cfg := Configure(s);
    var t := Run(cfg, Start(cfg), script);
    if t.Again? {
      LoopEndsByDeadline(cfg, script);
    }
    if t.loop.resends != [] {
      RetriesAreBounded(cfg, script, 0);
    } else {
      NoResends();
    }
    if 0 <= k < |t.loop.resends| {
      ResendsKeepTheDeadline(cfg, script, k);
    }
    if !cfg.replaySafe {
      UnsafeIsSentOnce(cfg, script);
    }
  }

  lemma ResendsKeepTheDeadline(cfg: Config, script: seq<Attempt>, k: nat)
    requires k < |Run(cfg, Start(cfg), script).loop.resends|
    ensures var r := Run(cfg, Start(cfg), script).loop.resends[k]; r.wait > 0 ==> r.at + r.wait <= cfg.deadline
  {
    RunKeeps(cfg, Start(cfg), script);
    var l := Run(cfg, Start(cfg), script).loop;
    assert ResendOk(cfg, k, l.resends[k], l.met[k]);
  }

  lemma NoResends()
    ensures Count([], Backoff) == 0 && Count([], Throttled) == 0
  {
  }

  /** A persistent 429 is waited out rather than reported once the policy is
      spent: a run ends as rate limited exactly when its last attempt met a 429
      and the request may not be re-sent at all, or the policy is not spent and
      the wait asked for does not fit the retry budget. */
  lemma RateLimitedExactlyBeforeThePolicyIsSpent(cfg: Config, script: seq<Attempt>)
    requires Run(cfg, Start(cfg), script).Done?
    ensures var t := Run(cfg, Start(cfg), script); var k := |t.loop.met|;
      && k < |script|
      && (t.verdict.RateLimited? <==>
            Is429(script[k])
            && (!cfg.replaySafe || cfg.maxRetries <= 0
                || (k < cfg.maxRetries && !WithinBudget(cfg, t.loop.clock, script[k].outcome.retryAfter))))
      && (t.verdict.RateLimited? ==> t.verdict.attempts == k + 1 && (k == 0 || k < cfg.maxRetries))
  {
    hide Run, BackoffWait, WithinBudget;
    RunMeetsTheScript(cfg, script);
    RunKeeps(cfg, Start(cfg), script);
    var met := Run(cfg, Start(cfg), script).loop.met;
    RunKeeps(cfg, Start(cfg), met);
    TurnMeets(cfg, Run(cfg, Start(cfg), met).loop, script[|met|]);
  }
}
