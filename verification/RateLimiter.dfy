/** The adaptive request pacer.

    `Pacer` is the value of a limiter; the functions on it are what each locked
    section computes.  `AdaptiveLimiter` is the mutable object, proved against
    those functions.  Module RateLimiterRuns runs the locked sections of any
    number of concurrent waiters in any order.
    Rates are requests per second and times are seconds, both real numbers. */
module RateLimiter {
  import opened Wrappers

  const BRAKE_SAFETY_SECONDS: real := 2.0
  const DEFAULT_FLOOR: real := 0.5
  const RAMP_AFTER: nat := 10

  datatype Pacer = Pacer(
    rate: real,
    floor: real,
    ceiling: real,              // rate at the last 429, 0 before the first
    maxRate: real,              // explicit politeness limit, 0 when there is none
    budgetRate: real,           // inferred refill rate
    successes: nat,
    headerDriven: bool,
    lastRequest: Option<real>,  // None until the first reservation
    pending: seq<real>)         // slots of the waiters still asleep

  // ----- what each locked section computes -----

  function MinR(x: real, y: real): real { if y < x then y else x }

  function MaxR(x: real, y: real): real { if x < y then y else x }

  /** A non-positive start rate disables pacing altogether. */
  function NewPacer(startRate: real, maxRate: real): Option<Pacer> {
    if startRate <= 0.0 then None
    else Some(Pacer(startRate, MinR(DEFAULT_FLOOR, startRate), 0.0, maxRate, 0.0, 0, false, None, []))
  }

  /** How long a waiter that reads the clock at `now` must sleep. */
  function SleepFor(p: Pacer, now: real): real
    requires p.rate > 0.0
  {
    if p.lastRequest.None? then 0.0
    else MaxR(0.0, 1.0 / p.rate - (now - p.lastRequest.value))
  }

  /** The first half of a wait.  The clock is read twice: once to decide how
      long to sleep, once to place the slot. */
  function Reserve(p: Pacer, firstRead: real, secondRead: real): (Pacer, real)
    requires p.rate > 0.0
  {
    var sleep := SleepFor(p, firstRead);
    var at := secondRead + sleep;
    (p.(lastRequest := Some(at), pending := if sleep > 0.0 then p.pending + [at] else p.pending), at)
  }

  function Without(pending: seq<real>, at: real): seq<real> {
    if pending == [] then []
    else if pending[0] == at then pending[1..]
    else [pending[0]] + Without(pending[1..], at)
  }

  lemma {:induction false} WithoutFirst(pending: seq<real>, at: real, i: nat)
    requires i <= |pending| && (i < |pending| ==> pending[i] == at)
    requires forall k :: 0 <= k < i ==> pending[k] != at
    ensures Without(pending, at) == if i == |pending| then pending else pending[..i] + pending[i + 1..]
  {
    if i > 0 {
      WithoutFirst(pending[1..], at, i - 1);
    }
  }

  /** The timer fired: the slot is used. */
  function Complete(p: Pacer, at: real): Pacer {
    var q := p.(pending := Without(p.pending, at));
    if q.lastRequest.None? || q.lastRequest.value < at then q.(lastRequest := Some(at)) else q
  }

  function Latest(now: real, pending: seq<real>): real
    decreases |pending|
  {
    if pending == [] then now else Latest(MaxR(now, pending[0]), pending[1..])
  }

  /** The waiter was cancelled: its slot is given back. */
  function Release(p: Pacer, at: real, now: real): Pacer {
    var q := p.(pending := Without(p.pending, at));
    if q.lastRequest != Some(at) then q else q.(lastRequest := Some(Latest(now, q.pending)))
  }

  /** `untilReset` is None when the reset time is absent. */
  predicate Accepted(remaining: int, untilReset: Option<real>) {
    untilReset.Some? && untilReset.value > 0.0 && remaining >= 0
  }

  function Observe(p: Pacer, remaining: int, untilReset: Option<real>): Pacer {
    if !Accepted(remaining, untilReset) then p
    else
      var budget := MaxR(p.budgetRate, remaining as real / untilReset.value);
      var braked := if remaining as real < budget * BRAKE_SAFETY_SECONDS
                    then remaining as real / BRAKE_SAFETY_SECONDS else budget;
      var capped := if p.maxRate > 0.0 then MinR(braked, p.maxRate) else braked;
      p.(budgetRate := budget, rate := MaxR(capped, p.floor), headerDriven := true, successes := 0)
  }

  function Succeed(p: Pacer): Pacer {
    if p.headerDriven then p.(successes := 0)
    else if p.successes + 1 < RAMP_AFTER then p.(successes := p.successes + 1)
    else
      var ramped := p.rate * 1.25;
      var below := if p.ceiling > 0.0 then MinR(ramped, p.ceiling * 0.9) else ramped;
      var capped := if p.maxRate > 0.0 then MinR(below, p.maxRate) else below;
      p.(rate := MaxR(capped, p.floor), successes := 0)
  }

  function TooManyRequests(p: Pacer): Pacer {
    p.(ceiling := p.rate,
       rate := MaxR(p.rate / 2.0, p.floor),
       budgetRate := if p.headerDriven then p.budgetRate else p.budgetRate / 2.0,
       successes := 0)
  }

  /** The band every locked section stays in. */
  predicate InBand(p: Pacer) {
    && 0.0 < p.floor <= DEFAULT_FLOOR
    && p.floor <= p.rate
    && (p.maxRate > 0.0 ==> p.rate <= p.maxRate)
    && 0.0 <= p.ceiling
    && 0.0 <= p.budgetRate
    && (!p.headerDriven ==> p.budgetRate == 0.0)
  }

  // ----- the object -----

  class AdaptiveLimiter {
    var rate: real
    var floor: real
    var ceiling: real
    var maxRate: real
    var budgetRate: real
    var successes: nat
    var rampAfter: nat
    var headerDriven: bool
    var lastRequest: Option<real>
    var pending: seq<real>

    ghost function Value(): Pacer
      reads this
    {
      Pacer(rate, floor, ceiling, maxRate, budgetRate, successes, headerDriven, lastRequest, pending)
    }

    ghost predicate Valid()
      reads this
    {
      InBand(Value()) && rampAfter == RAMP_AFTER && successes < rampAfter
    }

    constructor (startRate: real, maxRate: real)
      requires 0.0 < startRate && (maxRate > 0.0 ==> startRate <= maxRate)
      ensures Valid() && Some(Value()) == NewPacer(startRate, maxRate)
    {
      rate, this.maxRate := startRate, maxRate;
      floor := if startRate < 0.5 then startRate else 0.5;
      ceiling, budgetRate, successes, rampAfter := 0.0, 0.0, 0, 10;
      headerDriven, lastRequest, pending := false, None, [];
    }

    /** The locked section that opens a wait; `sleeps` says whether the waiter
        has to sleep until `at`. */
    method BeginWait(firstRead: real, secondRead: real) returns (at: real, sleeps: bool)
      requires Valid()
      modifies `lastRequest, `pending
      ensures Valid() && (Value(), at) == Reserve(old(Value()), firstRead, secondRead)
      ensures sleeps == (at > secondRead)
      ensures old(lastRequest).None? ==> at == secondRead
      ensures old(lastRequest).Some? ==>
        at == MaxR(secondRead, old(lastRequest).value + 1.0 / rate + (secondRead - firstRead))
    {
      var delay := 1.0 / rate;
      var sleep := 0.0;
      if lastRequest.Some? {
        var elapsed := firstRead - lastRequest.value;
        if elapsed < delay {
          sleep := delay - elapsed;
        }
      }
      at := secondRead + sleep;
      lastRequest := Some(at);
      sleeps := sleep > 0.0;
      if sleeps {
        pending := pending + [at];
      }
    }

    method RemovePending(at: real)
      modifies `pending
      ensures pending == Without(old(pending), at)
    {
      hide Without;
      for i := 0 to |pending|
        invariant pending == old(pending) && forall k :: 0 <= k < i ==> pending[k] != at
      {
        if pending[i] == at {
          WithoutFirst(pending, at, i);
          pending := pending[..i] + pending[i + 1..];
          return;
        }
      }
      WithoutFirst(pending, at, |pending|);
    }

    method CompleteReservation(at: real)
      requires Valid()
      modifies `lastRequest, `pending
      ensures Valid() && Value() == Complete(old(Value()), at)
    {
      RemovePending(at);
      if lastRequest.None? || lastRequest.value < at {
        lastRequest := Some(at);
      }
    }

    method ReleaseUnusedReservation(at: real, now: real)
      requires Valid()
      modifies `lastRequest, `pending
      ensures Valid() && Value() == Release(old(Value()), at, now)
    {
      RemovePending(at);
      if lastRequest != Some(at) {
        return;
      }
      var next := now;
      for i := 0 to |pending|
        invariant Latest(now, pending) == Latest(next, pending[i..])
      {
        if next < pending[i] {
          next := pending[i];
        }
      }
      lastRequest := Some(next);
    }

    method ObserveHeaders(remaining: int, untilReset: Option<real>)
      requires Valid()
      modifies `rate, `budgetRate, `headerDriven, `successes
      ensures Valid() && Value() == Observe(old(Value()), remaining, untilReset)
    {
      if untilReset.None? || untilReset.value <= 0.0 || remaining < 0 {
        return;
      }
      var evenSpread := remaining as real / untilReset.value;
      if evenSpread > budgetRate {
        budgetRate := evenSpread;
      }
      var target := budgetRate;
      if remaining as real < target * BRAKE_SAFETY_SECONDS {
        target := remaining as real / BRAKE_SAFETY_SECONDS;
      }
      if maxRate > 0.0 && target > maxRate {
        target := maxRate;
      }
      if target < floor {
        target := floor;
      }
      rate, headerDriven, successes := target, true, 0;
    }

    method OnSuccess()
      requires Valid()
      modifies `rate, `successes
      ensures Valid() && Value() == Succeed(old(Value()))
    {
      if headerDriven {
        successes := 0;
        return;
      }
      successes := successes + 1;
      if successes >= rampAfter {
        var newRate := rate * 1.25;
        if ceiling > 0.0 && newRate > ceiling * 0.9 {
          newRate := ceiling * 0.9;
        }
        if maxRate > 0.0 && newRate > maxRate {
          newRate := maxRate;
        }
        if newRate < floor {
          newRate := floor;
        }
        rate, successes := newRate, 0;
      }
    }

    method OnRateLimit()
      requires Valid()
      modifies `rate, `ceiling, `budgetRate, `successes
      ensures Valid() && Value() == TooManyRequests(old(Value()))
    {
      ceiling := rate;
      rate := rate / 2.0;
      if rate < floor {
        rate := floor;
      }
      if !headerDriven {
        budgetRate := budgetRate / 2.0;
      }
      successes := 0;
    }
  }

  /** A limiter whose start rate is also the user's hard limit; null disables pacing. */
  method NewAdaptiveLimiter(ratePerSec: real) returns (l: AdaptiveLimiter?)
    ensures l == null <==> NewPacer(ratePerSec, ratePerSec).None?
    ensures l != null ==> fresh(l) && l.Valid() && Some(l.Value()) == NewPacer(ratePerSec, ratePerSec)
  {
    if ratePerSec <= 0.0 {
      return null;
    }
    l := new AdaptiveLimiter(ratePerSec, ratePerSec);
  }

  /** A limiter without a hard limit; the server's budget governs. */
  method NewAdaptiveLimiterAuto(startRate: real) returns (l: AdaptiveLimiter?)
    ensures l == null <==> NewPacer(startRate, 0.0).None?
    ensures l != null ==> fresh(l) && l.Valid() && Some(l.Value()) == NewPacer(startRate, 0.0)
  {
    if startRate <= 0.0 {
      return null;
    }
    l := new AdaptiveLimiter(startRate, 0.0);
  }
}
