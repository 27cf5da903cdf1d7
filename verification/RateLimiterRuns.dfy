/** Whole runs of the pacer: any number of concurrent waiters, header
    observations, successes and 429s, in any order the lock allows. */
module RateLimiterRuns {
  import opened Wrappers
  import opened RateLimiter

  /** `Cancelled(seen, when)`: given back at `when`, after `seen` slots had been
      reserved in all. */
  datatype Status = Asleep | Used | Cancelled(seen: nat, when: real)

  /** One reservation: its place in time, the rate it was made at, and the two
      readings of the clock it was made with. */
  datatype Slot = Slot(at: real, rate: real, asked: real, read: real, status: Status)

  datatype World = World(
    pacer: Pacer,
    clock: real,
    slots: seq<Slot>,      // every reservation so far, oldest first
    spreads: seq<real>,    // remaining/seconds of every accepted header pair
    ceilings: seq<real>)   // the ceiling each 429 recorded

  datatype Event =
    | Begin(firstRead: real, secondRead: real)
    | Fire(waiter: nat, now: real)
    | Cancel(waiter: nat, now: real)
    | Headers(remaining: int, untilReset: Option<real>)
    | Success
    | RateLimited

  function Start(startRate: real, maxRate: real, now: real): World
    requires startRate > 0.0
  {
    World(NewPacer(startRate, maxRate).value, now, [], [], [])
  }

  /** The clock never goes back, a timer never fires early, and only a waiter
      that is asleep can fire or be cancelled. */
  predicate Enabled(w: World, e: Event) {
    match e
    case Begin(firstRead, secondRead) => w.clock <= firstRead <= secondRead
    case Fire(i, now) => i < |w.slots| && w.slots[i].status.Asleep? && w.clock <= now && w.slots[i].at <= now
    case Cancel(i, now) => i < |w.slots| && w.slots[i].status.Asleep? && w.clock <= now
    case _ => true
  }

  function WithStatus(slots: seq<Slot>, i: nat, status: Status): seq<Slot>
    requires i < |slots|
  {
    slots[i := slots[i].(status := status)]
  }

  function Next(w: World, e: Event): World
    requires w.pacer.rate > 0.0 && Enabled(w, e)
  {
    var p := w.pacer;
    match e
    case Begin(firstRead, secondRead) =>
      var (q, at) := Reserve(p, firstRead, secondRead);
      var slot := Slot(at, p.rate, firstRead, secondRead, if at > secondRead then Asleep else Used);
      w.(pacer := q, clock := secondRead, slots := w.slots + [slot])
    case Fire(i, now) =>
      w.(pacer := Complete(p, w.slots[i].at), clock := now, slots := WithStatus(w.slots, i, Used))
    case Cancel(i, now) =>
      w.(pacer := Release(p, w.slots[i].at, now), clock := now,
         slots := WithStatus(w.slots, i, Cancelled(|w.slots|, now)))
    case Headers(remaining, untilReset) =>
      w.(pacer := Observe(p, remaining, untilReset),
         spreads := if !Accepted(remaining, untilReset) then w.spreads
                    else w.spreads + [remaining as real / untilReset.value])
    case Success => w.(pacer := Succeed(p))
    case RateLimited => w.(pacer := TooManyRequests(p), ceilings := w.ceilings + [p.rate])
  }

  /** The world after a run, None when the run asks for a step that cannot happen. */
  function Exec(w: World, run: seq<Event>): Option<World>
    decreases |run|
  {
    if run == [] then Some(w)
    else if w.pacer.rate <= 0.0 || !Enabled(w, run[0]) then None
    else Exec(Next(w, run[0]), run[1..])
  }

  // ----- the invariant -----

  /** The slots of the waiters still asleep, oldest first. */
  function AsleepAt(slots: seq<Slot>): seq<real> {
    if slots == [] then []
    else
      var rest := AsleepAt(slots[..|slots| - 1]);
      if slots[|slots| - 1].status.Asleep? then rest + [slots[|slots| - 1].at] else rest
  }

  /** Does slot `s` still bind the slot with index `j`?  A cancelled slot binds
      only those reserved before the cancellation. */
  predicate Binds(s: Slot, j: nat) {
    s.status.Cancelled? ==> j < s.status.seen
  }

  ghost predicate Spaced(slots: seq<Slot>) {
    forall i, j :: 0 <= i < j < |slots| && Binds(slots[i], j) ==>
      slots[j].rate > 0.0 && slots[j].at >= slots[i].at + 1.0 / slots[j].rate
  }

  ghost predicate SlotsWithinBand(w: World) {
    forall i :: 0 <= i < |w.slots| ==>
      w.slots[i].rate >= w.pacer.floor && (w.pacer.maxRate > 0.0 ==> w.slots[i].rate <= w.pacer.maxRate)
  }

  /** Every slot not given back lies at or before the tip, used slots are not in
      the future, and a cancellation never saw slots that do not exist. */
  ghost predicate SlotsBehindTip(w: World) {
    forall i :: 0 <= i < |w.slots| ==>
      match w.slots[i].status
      case Cancelled(seen, _) => seen <= |w.slots|
      case Used => w.pacer.lastRequest.Some? && w.slots[i].at <= w.pacer.lastRequest.value && w.slots[i].at <= w.clock
      case Asleep => w.pacer.lastRequest.Some? && w.slots[i].at <= w.pacer.lastRequest.value
  }

  /** A tip in the future is the slot of a waiter that is still asleep. */
  ghost predicate TipIsOwned(w: World) {
    w.pacer.lastRequest.Some? && w.pacer.lastRequest.value > w.clock ==> w.pacer.lastRequest.value in w.pacer.pending
  }

  /** The time `x` is where slot `s` lies, or where it was given back before the
      slot with index `j` was reserved. */
  predicate Marks(s: Slot, j: nat, x: real) {
    if Binds(s, j) then x == s.at else x == s.status.when
  }

  /** Before the slot with index `j` was reserved, the latest thing of note
      happened at `x`. */
  ghost predicate Marked(slots: seq<Slot>, j: nat, x: real) {
    exists i :: 0 <= i < j && i < |slots| && Marks(slots[i], j, x)
  }

  /** A slot is at its own reading, or one gap and the time between the two
      readings after an earlier slot or after one was given back. */
  ghost predicate PlacedAt(slots: seq<Slot>, j: nat)
    requires j < |slots|
  {
    var s := slots[j];
    && s.asked <= s.read <= s.at && s.rate > 0.0
    && (s.at == s.read || Marked(slots, j, s.at - 1.0 / s.rate - (s.read - s.asked)))
  }

  ghost predicate SlotsPlaced(w: World) {
    && (w.pacer.lastRequest.Some? ==> Marked(w.slots, |w.slots|, w.pacer.lastRequest.value))
    && (w.slots != [] ==> w.pacer.lastRequest.Some?)
    && forall j :: 0 <= j < |w.slots| ==> PlacedAt(w.slots, j)
  }

  ghost predicate SlotsOk(w: World) {
    && TipIsOwned(w)
    && Spaced(w.slots)
    && SlotsWithinBand(w)
    && SlotsBehindTip(w)
    && w.pacer.pending == AsleepAt(w.slots)
  }

  function HighWater(spreads: seq<real>): real {
    if spreads == [] then 0.0 else MaxR(HighWater(spreads[..|spreads| - 1]), spreads[|spreads| - 1])
  }

  /** On a header-less run each recorded ceiling has decayed from the previous
      one, and the current rate is already below the next bound. */
  ghost predicate CeilingsDecay(w: World) {
    && (forall k :: 0 <= k < |w.ceilings| ==> w.ceilings[k] > 0.0)
    && (forall k :: 0 < k < |w.ceilings| ==> w.ceilings[k] <= MaxR(w.pacer.floor, 0.9 * w.ceilings[k - 1]))
    && (|w.ceilings| > 0 ==>
          var last := w.ceilings[|w.ceilings| - 1];
          w.pacer.ceiling == last && w.pacer.rate <= MaxR(w.pacer.floor, 0.9 * last))
  }

  ghost predicate RatesOk(w: World) {
    && InBand(w.pacer)
    && w.pacer.budgetRate == HighWater(w.spreads)
    && (w.pacer.headerDriven <==> w.spreads != [])
    && (!w.pacer.headerDriven ==> CeilingsDecay(w))
  }

  // ----- every step keeps it -----

  lemma HeadersKeepRates(w: World, e: Event)
    requires RatesOk(w) && e.Headers?
    ensures RatesOk(Next(w, e))
  {
    hide CeilingsDecay;
    if Accepted(e.remaining, e.untilReset) {
      var spread := e.remaining as real / e.untilReset.value;
      assert (w.spreads + [spread])[..|w.spreads|] == w.spreads;
    }
  }

  lemma SuccessKeepsRates(w: World)
    requires RatesOk(w)
    ensures RatesOk(Next(w, Success))
  {
    hide HighWater;
  }

  lemma RateLimitedKeepsRates(w: World)
    requires RatesOk(w)
    ensures RatesOk(Next(w, RateLimited))
  {
    hide HighWater;
    var more := w.ceilings + [w.pacer.rate];
    assert forall k :: 0 <= k < |w.ceilings| ==> more[k] == w.ceilings[k];
    assert more[|w.ceilings|] == w.pacer.rate > 0.0;
  }

  /** Reserving, using and giving back slots leaves the rates alone. */
  ghost predicate SameRates(p: Pacer, q: Pacer) {
    && q.rate == p.rate && q.floor == p.floor && q.ceiling == p.ceiling && q.maxRate == p.maxRate
    && q.budgetRate == p.budgetRate && q.headerDriven == p.headerDriven
  }

  lemma SameRatesAreOk(w: World, w': World)
    requires RatesOk(w) && SameRates(w.pacer, w'.pacer) && w'.spreads == w.spreads && w'.ceilings == w.ceilings
    ensures RatesOk(w')
  {
  }

  lemma StepKeepsRates(w: World, e: Event)
    requires RatesOk(w) && Enabled(w, e)
    ensures RatesOk(Next(w, e))
    ensures Next(w, e).pacer.floor == w.pacer.floor && Next(w, e).pacer.maxRate == w.pacer.maxRate
  {
    hide HighWater, Without, Latest, CeilingsDecay;
    match e
    case Headers(_, _) => HeadersKeepRates(w, e);
    case Success => SuccessKeepsRates(w);
    case RateLimited => RateLimitedKeepsRates(w);
    case _ => SameRatesAreOk(w, Next(w, e));
  }

  lemma {:induction false} AsleepIsASlot(slots: seq<Slot>, x: real) returns (i: nat)
    requires x in AsleepAt(slots)
    ensures i < |slots| && slots[i].status.Asleep? && slots[i].at == x
  {
    if x in AsleepAt(slots[..|slots| - 1]) {
      i := AsleepIsASlot(slots[..|slots| - 1], x);
    } else {
      i := |slots| - 1;
    }
  }

  lemma GapPositive(rate: real)
    requires rate > 0.0
    ensures 1.0 / rate > 0.0
  {
  }

  lemma AsleepBeforeLast(init: seq<Slot>, last: Slot)
    requires Spaced(init + [last])
    ensures forall x :: x in AsleepAt(init) ==> x < last.at
  {
    var slots := init + [last];
    forall x | x in AsleepAt(init) ensures x < last.at {
      var i := AsleepIsASlot(init, x);
      assert Binds(slots[i], |init|) && slots[|init|] == last;
      GapPositive(last.rate);
    }
  }

  lemma {:induction false} AsleepIsStrictlyIncreasing(slots: seq<Slot>)
    requires Spaced(slots)
    ensures forall a, b :: 0 <= a < b < |AsleepAt(slots)| ==> AsleepAt(slots)[a] < AsleepAt(slots)[b]
  {
    if slots != [] {
      var init, last := slots[..|slots| - 1], slots[|slots| - 1];
      assert slots == init + [last];
      AsleepIsStrictlyIncreasing(init);
      AsleepBeforeLast(init, last);
      var rest := AsleepAt(init);
      assert forall a :: 0 <= a < |rest| ==> rest[a] in rest;
    }
  }

  lemma {:induction false} WithoutAppended(s: seq<real>, x: real, y: real)
    requires x in s
    ensures Without(s + [y], x) == Without(s, x) + [y]
  {
    if s[0] == x {
      assert (s + [y])[1..] == s[1..] + [y];
    } else {
      assert (s + [y])[1..] == s[1..] + [y];
      WithoutAppended(s[1..], x, y);
    }
  }

  lemma {:induction false} WithoutLast(s: seq<real>, y: real)
    requires y !in s
    ensures Without(s + [y], y) == s
  {
    if s != [] {
      assert (s + [y])[1..] == s[1..] + [y];
      WithoutLast(s[1..], y);
    }
  }

  lemma {:induction false} WithoutKeepsOthers(s: seq<real>, x: real, y: real)
    requires y in s && y != x
    ensures y in Without(s, x)
  {
    if s[0] != x && s[0] != y {
      WithoutKeepsOthers(s[1..], x, y);
    }
  }

  /** Splicing the woken slot out of `pending` removes that waiter and no other. */
  lemma {:induction false} WakingRemovesOne(slots: seq<Slot>, i: nat, status: Status)
    requires i < |slots| && slots[i].status.Asleep? && !status.Asleep? && Spaced(slots)
    ensures slots[i].at in AsleepAt(slots)
    ensures AsleepAt(WithStatus(slots, i, status)) == Without(AsleepAt(slots), slots[i].at)
  {
    hide Spaced, Without;
    var init, last := slots[..|slots| - 1], slots[|slots| - 1];
    assert slots == init + [last];
    if i == |slots| - 1 {
      assert WithStatus(slots, i, status)[..|slots| - 1] == init;
      AsleepBeforeLast(init, last);
      WithoutLast(AsleepAt(init), last.at);
    } else {
      SpacedInit(init, last);
      WakingRemovesOne(init, i, status);
      assert WithStatus(slots, i, status)[..|slots| - 1] == WithStatus(init, i, status);
      if last.status.Asleep? {
        WithoutAppended(AsleepAt(init), slots[i].at, last.at);
      }
    }
  }

  lemma SpacedInit(init: seq<Slot>, last: Slot)
    requires Spaced(init + [last])
    ensures Spaced(init)
  {
    assert forall i :: 0 <= i < |init| ==> (init + [last])[i] == init[i];
  }

  lemma {:induction false} LatestIsMaximum(now: real, pending: seq<real>)
    ensures Latest(now, pending) >= now
    ensures forall x :: x in pending ==> x <= Latest(now, pending)
    ensures Latest(now, pending) == now || Latest(now, pending) in pending
    decreases |pending|
  {
    if pending != [] {
      LatestIsMaximum(MaxR(now, pending[0]), pending[1..]);
      assert forall x :: x in pending ==> x == pending[0] || x in pending[1..];
    }
  }

  lemma {:induction false} AsleepMember(slots: seq<Slot>, i: nat)
    requires i < |slots| && slots[i].status.Asleep?
    ensures slots[i].at in AsleepAt(slots)
  {
    if i < |slots| - 1 {
      AsleepMember(slots[..|slots| - 1], i);
    }
  }

  /** A slot is placed at least one gap after the tip, and never in the past. */
  lemma ReservedPlace(p: Pacer, firstRead: real, secondRead: real)
    requires p.rate > 0.0 && firstRead <= secondRead
    ensures var (q, at) := Reserve(p, firstRead, secondRead);
      && at >= secondRead
      && (p.lastRequest.Some? ==> at >= p.lastRequest.value + 1.0 / p.rate)
      && q.lastRequest == Some(at)
      && q.pending == if at > secondRead then p.pending + [at] else p.pending
  {
  }

  lemma {:induction false} AsleepAppended(slots: seq<Slot>, slot: Slot)
    ensures AsleepAt(slots + [slot]) == if slot.status.Asleep? then AsleepAt(slots) + [slot.at] else AsleepAt(slots)
  {
    assert (slots + [slot])[..|slots|] == slots;
  }

  lemma SpacedAppended(slots: seq<Slot>, slot: Slot, tip: Option<real>)
    requires Spaced(slots) && slot.rate > 0.0
    requires forall i :: 0 <= i < |slots| && Binds(slots[i], |slots|) ==> tip.Some? && slots[i].at <= tip.value
    requires tip.Some? ==> slot.at >= tip.value + 1.0 / slot.rate
    ensures Spaced(slots + [slot])
  {
    var more := slots + [slot];
    forall i, j | 0 <= i < j < |more| && Binds(more[i], j)
      ensures more[j].rate > 0.0 && more[j].at >= more[i].at + 1.0 / more[j].rate
    {
      assert Binds(slots[i], j);
    }
  }

  lemma BeginKeepsSpacing(w: World, e: Event)
    requires RatesOk(w) && SlotsOk(w) && Enabled(w, e) && e.Begin?
    ensures Spaced(Next(w, e).slots)
    ensures Next(w, e).pacer.pending == AsleepAt(Next(w, e).slots)
  {
    var (q, at) := Reserve(w.pacer, e.firstRead, e.secondRead);
    ReservedPlace(w.pacer, e.firstRead, e.secondRead);
    var slot := Slot(at, w.pacer.rate, e.firstRead, e.secondRead, if at > e.secondRead then Asleep else Used);
    assert Next(w, e).slots == w.slots + [slot];
    forall i | 0 <= i < |w.slots| && Binds(w.slots[i], |w.slots|)
      ensures w.pacer.lastRequest.Some? && w.slots[i].at <= w.pacer.lastRequest.value
    {
      assert !w.slots[i].status.Cancelled?;
    }
    SpacedAppended(w.slots, slot, w.pacer.lastRequest);
    AsleepAppended(w.slots, slot);
  }

  lemma BeginKeepsTip(w: World, e: Event)
    requires RatesOk(w) && SlotsBehindTip(w) && Enabled(w, e) && e.Begin?
    ensures SlotsBehindTip(Next(w, e))
  {
    ReservedPlace(w.pacer, e.firstRead, e.secondRead);
    GapPositive(w.pacer.rate);
    var w' := Next(w, e);
    assert forall i :: 0 <= i < |w.slots| ==> w'.slots[i] == w.slots[i];
  }

  lemma BeginKeepsBand(w: World, e: Event)
    requires RatesOk(w) && SlotsWithinBand(w) && Enabled(w, e) && e.Begin?
    ensures SlotsWithinBand(Next(w, e))
  {
    var w' := Next(w, e);
    assert forall i :: 0 <= i < |w.slots| ==> w'.slots[i] == w.slots[i];
  }

  lemma WakingKeepsOwner(w: World, at: real)
    requires TipIsOwned(w) && w.pacer.lastRequest != Some(at)
    ensures TipIsOwned(w.(pacer := w.pacer.(pending := Without(w.pacer.pending, at))))
  {
    if w.pacer.lastRequest.Some? && w.pacer.lastRequest.value in w.pacer.pending {
      WithoutKeepsOthers(w.pacer.pending, at, w.pacer.lastRequest.value);
    }
  }

  lemma FireKeepsSlots(w: World, e: Event)
    requires SlotsOk(w) && w.pacer.rate > 0.0 && Enabled(w, e) && e.Fire?
    ensures SlotsOk(Next(w, e))
    ensures Next(w, e).pacer.lastRequest == w.pacer.lastRequest
  {
    WakingRemovesOne(w.slots, e.waiter, Used);
    if w.pacer.lastRequest != Some(w.slots[e.waiter].at) {
      WakingKeepsOwner(w, w.slots[e.waiter].at);
    }
  }

  lemma CancelKeepsSlots(w: World, e: Event)
    requires SlotsOk(w) && w.pacer.rate > 0.0 && Enabled(w, e) && e.Cancel?
    ensures SlotsOk(Next(w, e))
  {
    var w' := Next(w, e);
    WakingRemovesOne(w.slots, e.waiter, Cancelled(|w.slots|, e.now));
    if w.pacer.lastRequest != Some(w.slots[e.waiter].at) {
      WakingKeepsOwner(w, w.slots[e.waiter].at);
    }
    LatestIsMaximum(e.now, w'.pacer.pending);
    forall i | 0 <= i < |w.slots| && w'.slots[i].status.Asleep?
      ensures w'.pacer.lastRequest.Some? && w'.slots[i].at <= w'.pacer.lastRequest.value
    {
      AsleepMember(w'.slots, i);
    }
  }

  lemma BeginKeepsSlots(w: World, e: Event)
    requires RatesOk(w) && SlotsOk(w) && Enabled(w, e) && e.Begin?
    ensures SlotsOk(Next(w, e))
  {
    hide RatesOk, Spaced, SlotsWithinBand, SlotsBehindTip;
    BeginKeepsSpacing(w, e);
    BeginKeepsTip(w, e);
    BeginKeepsBand(w, e);
    PositiveRate(w);
    ReservedPlace(w.pacer, e.firstRead, e.secondRead);
  }

  lemma PositiveRate(w: World)
    requires RatesOk(w)
    ensures w.pacer.rate > 0.0
  {
  }

  /** Setting a new pace moves no slot. */
  lemma PaceKeepsSlots(w: World, e: Event)
    requires SlotsOk(w) && w.pacer.rate > 0.0 && (e.Headers? || e.Success? || e.RateLimited?)
    ensures SlotsOk(Next(w, e))
  {
    hide Spaced, AsleepAt;
  }

  lemma StepKeepsSlots(w: World, e: Event)
    requires RatesOk(w) && SlotsOk(w) && Enabled(w, e)
    ensures SlotsOk(Next(w, e))
  {
    hide RatesOk, SlotsOk;
    PositiveRate(w);
    match e
    case Begin(_, _) => BeginKeepsSlots(w, e);
    case Fire(_, _) => FireKeepsSlots(w, e);
    case Cancel(_, _) => CancelKeepsSlots(w, e);
    case _ => PaceKeepsSlots(w, e);
  }

  lemma BeginKeepsPlaces(w: World, e: Event)
    requires w.pacer.rate > 0.0 && SlotsPlaced(w) && Enabled(w, e) && e.Begin?
    ensures SlotsPlaced(Next(w, e))
  {
    hide Marks;
    var w' := Next(w, e);
    var n := |w.slots|;
    forall j, x | 0 <= j <= n && Marked(w.slots, j, x) ensures Marked(w'.slots, j, x) {
      var i :| 0 <= i < j && i < |w.slots| && Marks(w.slots[i], j, x);
      assert w'.slots[i] == w.slots[i];
    }
    forall j | 0 <= j < n ensures PlacedAt(w'.slots, j) {
      assert PlacedAt(w.slots, j) && w'.slots[j] == w.slots[j];
    }
    NewSlotMarks(w'.slots[n], n + 1);
    assert w'.slots[n] == w'.slots[|w'.slots| - 1];
  }

  lemma NewSlotMarks(s: Slot, j: nat)
    requires !s.status.Cancelled?
    ensures Marks(s, j, s.at)
  {
  }

  /** What a waiter does with its slot moves no other slot, and marks what the
      slot marked, or the time it was given back. */
  lemma WakingKeepsPlaces(slots: seq<Slot>, i: nat, status: Status)
    requires i < |slots| && slots[i].status.Asleep? && (status.Cancelled? ==> status.seen == |slots|)
    requires forall j :: 0 <= j < |slots| ==> PlacedAt(slots, j)
    ensures var slots' := WithStatus(slots, i, status); forall j :: 0 <= j < |slots| ==> PlacedAt(slots', j)
  {
    var slots' := WithStatus(slots, i, status);
    forall j | 0 <= j < |slots| ensures PlacedAt(slots', j) {
      assert PlacedAt(slots, j);
      var s := slots[j];
      if s.at != s.read {
        var x := s.at - 1.0 / s.rate - (s.read - s.asked);
        var k :| 0 <= k < j && k < |slots| && Marks(slots[k], j, x);
        assert Marks(slots'[k], j, x);
      }
    }
  }

  lemma FireKeepsPlaces(w: World, e: Event)
    requires SlotsOk(w) && w.pacer.rate > 0.0 && SlotsPlaced(w) && Enabled(w, e) && e.Fire?
    ensures SlotsPlaced(Next(w, e))
  {
    hide SlotsOk;
    WakingKeepsPlaces(w.slots, e.waiter, Used);
    FireKeepsSlots(w, e);
    var n, w' := |w.slots|, Next(w, e);
    var k :| 0 <= k < n && Marks(w.slots[k], n, w.pacer.lastRequest.value);
    assert Marks(w'.slots[k], n, w.pacer.lastRequest.value);
  }

  lemma CancelKeepsPlaces(w: World, e: Event)
    requires SlotsOk(w) && w.pacer.rate > 0.0 && SlotsPlaced(w) && Enabled(w, e) && e.Cancel?
    ensures SlotsPlaced(Next(w, e))
  {
    hide SlotsOk, PlacedAt;
    CancelKeepsSlots(w, e);
    var i, n, w' := e.waiter, |w.slots|, Next(w, e);
    WakingKeepsPlaces(w.slots, i, Cancelled(n, e.now));
    var tip := w'.pacer.lastRequest.value;
    if w.pacer.lastRequest != Some(w.slots[i].at) {
      var k :| 0 <= k < n && Marks(w.slots[k], n, tip);
      assert Marks(w'.slots[k], n, tip);
    } else {
      LatestIsMaximum(e.now, w'.pacer.pending);
      assert w'.pacer.pending == AsleepAt(w'.slots) by { TheSleepersPend(w'); }
      if tip == e.now {
        assert Marks(w'.slots[i], n, tip);
      } else {
        var k := AsleepIsASlot(w'.slots, tip);
        assert Marks(w'.slots[k], n, tip);
      }
    }
  }

  lemma TheSleepersPend(w: World)
    requires SlotsOk(w)
    ensures w.pacer.pending == AsleepAt(w.slots)
  {
  }

  lemma StepKeepsPlaces(w: World, e: Event)
    requires RatesOk(w) && SlotsOk(w) && SlotsPlaced(w) && Enabled(w, e)
    ensures SlotsPlaced(Next(w, e))
  {
    hide RatesOk, SlotsOk;
    PositiveRate(w);
    match e
    case Begin(_, _) => BeginKeepsPlaces(w, e);
    case Fire(_, _) => FireKeepsPlaces(w, e);
    case Cancel(_, _) => CancelKeepsPlaces(w, e);
    case _ =>
  }

  lemma {:induction false} RunKeepsPlaces(w: World, run: seq<Event>)
    requires RatesOk(w) && SlotsOk(w) && SlotsPlaced(w) && Exec(w, run).Some?
    ensures SlotsPlaced(Exec(w, run).value)
    decreases |run|
  {
    hide RatesOk, SlotsOk, SlotsPlaced, Next, Enabled;
    if run != [] {
      PositiveRate(w);
      StepKeepsRates(w, run[0]);
      StepKeepsSlots(w, run[0]);
      StepKeepsPlaces(w, run[0]);
      RunKeepsPlaces(Next(w, run[0]), run[1..]);
    }
  }

  lemma {:induction false} RunKeepsBoth(w: World, run: seq<Event>)
    requires RatesOk(w) && SlotsOk(w) && Exec(w, run).Some?
    ensures var w' := Exec(w, run).value;
      RatesOk(w') && SlotsOk(w') && w'.pacer.floor == w.pacer.floor && w'.pacer.maxRate == w.pacer.maxRate
    decreases |run|
  {
    if run != [] {
      StepKeepsRates(w, run[0]);
      StepKeepsSlots(w, run[0]);
      RunKeepsBoth(Next(w, run[0]), run[1..]);
    }
  }

  /** A world some run reaches from a fresh limiter. */
  ghost predicate Reached(w: World, startRate: real, maxRate: real) {
    && startRate > 0.0 && (maxRate > 0.0 ==> startRate <= maxRate)
    && exists now: real, run: seq<Event> :: Exec(Start(startRate, maxRate, now), run) == Some(w)
  }

  lemma ReachedIsOk(w: World, startRate: real, maxRate: real)
    requires Reached(w, startRate, maxRate)
    ensures RatesOk(w) && SlotsOk(w)
    ensures w.pacer.floor == MinR(DEFAULT_FLOOR, startRate) && w.pacer.maxRate == maxRate
  {
    var now: real, run: seq<Event> :| Exec(Start(startRate, maxRate, now), run) == Some(w);
    RunKeepsBoth(Start(startRate, maxRate, now), run);
  }

  // ----- what every run keeps -----

  /** Slot spacing over every interleaving: a slot lies at least 1/rate after
      every earlier slot that had not been given back when it was reserved. */
  lemma SlotsAreSpaced(w: World, startRate: real, maxRate: real, i: nat, j: nat)
    requires Reached(w, startRate, maxRate)
    requires i < j < |w.slots|
    requires w.slots[i].status.Cancelled? ==> j < w.slots[i].status.seen
    ensures w.slots[j].rate > 0.0 && w.slots[j].at >= w.slots[i].at + 1.0 / w.slots[j].rate
  {
    ReachedIsOk(w, startRate, maxRate);
    assert Binds(w.slots[i], j);
  }

  /** No slot lies later than it must: the first wait reserves its own reading,
      and a later one its own reading or a time one gap at its rate, and what
      passed between its two readings, after an earlier slot not given back
      before, or after the moment one was given back. */
  lemma SlotsAreNoLater(w: World, startRate: real, maxRate: real, j: nat) returns (i: int)
    requires Reached(w, startRate, maxRate) && j < |w.slots|
    ensures -1 <= i < j
    ensures w.slots[j].rate > 0.0 && w.slots[j].asked <= w.slots[j].read <= w.slots[j].at
    ensures var s := w.slots[j];
      if i == -1 then s.at == s.read
      else
        var earlier := w.slots[i];
        var tip := if earlier.status.Cancelled? && earlier.status.seen <= j then earlier.status.when else earlier.at;
        s.at == tip + 1.0 / s.rate + (s.read - s.asked)
  {
    hide Marks, SlotsOk, RatesOk;
    ReachedIsPlaced(w, startRate, maxRate);
    var s := w.slots[j];
    assert PlacedAt(w.slots, j);
    if s.at == s.read {
      i := -1;
    } else {
      var k :| 0 <= k < j && k < |w.slots| && Marks(w.slots[k], j, s.at - 1.0 / s.rate - (s.read - s.asked));
      i := k;
      WhatASlotMarks(w.slots[k], j, s.at - 1.0 / s.rate - (s.read - s.asked));
    }
  }

  lemma WhatASlotMarks(s: Slot, j: nat, x: real)
    requires Marks(s, j, x)
    ensures x == if s.status.Cancelled? && s.status.seen <= j then s.status.when else s.at
  {
  }

  lemma ReachedIsPlaced(w: World, startRate: real, maxRate: real)
    requires Reached(w, startRate, maxRate)
    ensures SlotsPlaced(w)
  {
    var now: real, run: seq<Event> :| Exec(Start(startRate, maxRate, now), run) == Some(w);
    RunKeepsPlaces(Start(startRate, maxRate, now), run);
  }

  /** When the clock is read alike both times and no slot had been given back
      yet, a slot is exactly the later of its reading and one gap after the slot
      before it. */
  lemma SlotsAreExact(w: World, startRate: real, maxRate: real, j: nat)
    requires Reached(w, startRate, maxRate) && j < |w.slots| && w.slots[j].asked == w.slots[j].read
    requires forall i :: 0 <= i < j && w.slots[i].status.Cancelled? ==> j < w.slots[i].status.seen
    ensures var s := w.slots[j];
      s.rate > 0.0 && s.at == if j == 0 then s.read else MaxR(s.read, w.slots[j - 1].at + 1.0 / s.rate)
  {
    var s := w.slots[j];
    var i := SlotsAreNoLater(w, startRate, maxRate, j);
    if j > 0 {
      SlotsAreSpaced(w, startRate, maxRate, j - 1, j);
      if 0 <= i < j - 1 {
        SlotsAreSpaced(w, startRate, maxRate, i, j - 1);
        GapPositive(w.slots[j - 1].rate);
      }
    }
  }

  /** `pending` is exactly the sleeping waiters' slots, strictly increasing and
      bounded by the tip. */
  lemma PendingIsTheSleepers(w: World, startRate: real, maxRate: real)
    requires Reached(w, startRate, maxRate)
    ensures w.pacer.pending == AsleepAt(w.slots)
    ensures forall a, b :: 0 <= a < b < |w.pacer.pending| ==> w.pacer.pending[a] < w.pacer.pending[b]
    ensures forall x :: x in w.pacer.pending ==> w.pacer.lastRequest.Some? && x <= w.pacer.lastRequest.value
  {
    ReachedIsOk(w, startRate, maxRate);
    AsleepIsStrictlyIncreasing(w.slots);
    forall x | x in w.pacer.pending ensures w.pacer.lastRequest.Some? && x <= w.pacer.lastRequest.value {
      var i := AsleepIsASlot(w.slots, x);
    }
  }

  /** The repair branch of a completion is dead: the tip is never behind a slot
      that fires. */
  lemma RepairIsUnreachable(w: World, startRate: real, maxRate: real, i: nat, now: real)
    requires Reached(w, startRate, maxRate)
    requires Enabled(w, Fire(i, now))
    ensures w.pacer.lastRequest.Some? && !(w.pacer.lastRequest.value < w.slots[i].at)
    ensures Complete(w.pacer, w.slots[i].at) == w.pacer.(pending := Without(w.pacer.pending, w.slots[i].at))
  {
    ReachedIsOk(w, startRate, maxRate);
  }

  /** A wait that was given up never pushes later ones back: whatever lies
      beyond the clock at the tip belongs to a waiter that still wants it. */
  lemma AbandonedSlotsDelayNobody(w: World, startRate: real, maxRate: real)
    requires Reached(w, startRate, maxRate)
    requires w.pacer.lastRequest.Some? && w.pacer.lastRequest.value > w.clock
    ensures exists i :: 0 <= i < |w.slots| && w.slots[i].status.Asleep? && w.slots[i].at == w.pacer.lastRequest.value
  {
    ReachedIsOk(w, startRate, maxRate);
    var i := AsleepIsASlot(w.slots, w.pacer.lastRequest.value);
  }

  /** The rate never leaves [floor, limit]. */
  lemma RateStaysInBand(w: World, startRate: real, maxRate: real)
    requires Reached(w, startRate, maxRate)
    ensures 0.0 < MinR(DEFAULT_FLOOR, startRate) <= w.pacer.rate
    ensures maxRate > 0.0 ==> w.pacer.rate <= maxRate
  {
    ReachedIsOk(w, startRate, maxRate);
  }

  // ----- the politeness ceiling over a time window -----

  predicate LiveIn(s: Slot, from: real, length: real) {
    !s.status.Cancelled? && from <= s.at <= from + length
  }

  function CountLive(slots: seq<Slot>, from: real, length: real): nat {
    if slots == [] then 0
    else CountLive(slots[..|slots| - 1], from, length) + if LiveIn(slots[|slots| - 1], from, length) then 1 else 0
  }

  lemma GapAtLeast(rate: real, limit: real)
    requires 0.0 < rate <= limit
    ensures 1.0 / rate >= 1.0 / limit
  {
    var x, y := 1.0 / rate, 1.0 / limit;
    assert x * rate == 1.0 && y * limit == 1.0 && x > 0.0 && y > 0.0;
    TimesMonotone(rate, limit, y);
    TimesMonotone(rate * y, 1.0, x);
    assert y == y * (rate * x) == (rate * y) * x;
  }

  lemma TimesMonotone(a: real, b: real, c: real)
    requires a <= b && c >= 0.0
    ensures a * c <= b * c
  {
  }

  ghost predicate SpacedBy(slots: seq<Slot>, gap: real) {
    forall i, j :: 0 <= i < j < |slots| && Binds(slots[i], j) ==> slots[j].at >= slots[i].at + gap
  }

  lemma LimitSpaces(slots: seq<Slot>, limit: real)
    requires Spaced(slots) && limit > 0.0
    requires forall i :: 0 <= i < |slots| ==> 0.0 < slots[i].rate <= limit
    ensures SpacedBy(slots, 1.0 / limit)
  {
    forall i, j | 0 <= i < j < |slots| && Binds(slots[i], j) ensures slots[j].at >= slots[i].at + 1.0 / limit {
      GapAtLeast(slots[j].rate, limit);
    }
  }

  /** `n` gaps end to end. */
  function Gaps(n: nat, gap: real): real {
    if n == 0 then 0.0 else Gaps(n - 1, gap) + gap
  }

  lemma {:induction false} GapsIsProduct(n: nat, gap: real)
    ensures Gaps(n, gap) == n as real * gap
  {
    if n > 0 {
      GapsIsProduct(n - 1, gap);
      var m := (n - 1) as real;
      assert n as real == m + 1.0;
      assert (m + 1.0) * gap == m * gap + gap;
    }
  }

  lemma GapsIntoLength(n: nat, limit: real, length: real)
    requires limit > 0.0 && Gaps(n, 1.0 / limit) <= length
    ensures n as real <= limit * length
  {
    var gap, x := 1.0 / limit, n as real;
    GapsIsProduct(n, gap);
    assert gap * limit == 1.0;
    assert (x * gap) * limit == x * (gap * limit) == x;
    assert (x * gap) * limit <= length * limit;
  }

  /** The latest live slot of a window lies a whole number of gaps after its start. */
  lemma {:induction false} LiveSlotsFillWindow(slots: seq<Slot>, gap: real, from: real, length: real)
    returns (latest: int)
    requires SpacedBy(slots, gap)
    ensures -1 <= latest < |slots|
    ensures latest == -1 <==> CountLive(slots, from, length) == 0
    ensures latest >= 0 ==>
      && LiveIn(slots[latest], from, length)
      && slots[latest].at >= from + Gaps(CountLive(slots, from, length) - 1, gap)
  {
    if slots == [] {
      latest := -1;
    } else {
      var init, k := slots[..|slots| - 1], |slots| - 1;
      latest := LiveSlotsFillWindow(init, gap, from, length);
      if LiveIn(slots[k], from, length) {
        assert latest >= 0 ==> Binds(slots[latest], k);
        latest := k;
      }
    }
  }

  /** With an explicit limit R, no window of length T ever holds more than
      R*T + 1 slots that were not given back, used or still to be used. */
  lemma WindowHoldsAtMost(w: World, limit: real, from: real, length: real)
    requires limit > 0.0 && Reached(w, limit, limit) && length >= 0.0
    ensures CountLive(w.slots, from, length) as real <= limit * length + 1.0
  {
    ReachedIsOk(w, limit, limit);
    LimitSpaces(w.slots, limit);
    var latest := LiveSlotsFillWindow(w.slots, 1.0 / limit, from, length);
    if latest >= 0 {
      GapsIntoLength(CountLive(w.slots, from, length) - 1, limit, length);
    } else {
      assert limit * length >= 0.0;
    }
  }

  // ----- the pace the server's headers set -----

  /** What the headers ask for: the inferred refill rate, or half the remaining
      allowance per second when that is less, within an explicit limit. */
  function HeaderPace(spreads: seq<real>, remaining: int, maxRate: real): real {
    var pace := MinR(HighWater(spreads), remaining as real / BRAKE_SAFETY_SECONDS);
    if maxRate > 0.0 then MinR(pace, maxRate) else pace
  }

  function Halved(x: real, k: nat): real
    decreases k
  {
    if k == 0 then x else Halved(x / 2.0, k - 1)
  }

  function Throttles(run: seq<Event>): nat {
    if run == [] then 0 else (if run[0].RateLimited? then 1 else 0) + Throttles(run[1..])
  }

  predicate NoHeaders(run: seq<Event>) {
    forall k :: 0 <= k < |run| && run[k].Headers? ==> !Accepted(run[k].remaining, run[k].untilReset)
  }

  lemma {:induction false} SmallStaysSmall(x: real, bound: real, k: nat)
    requires x <= bound && bound > 0.0
    ensures Halved(x, k) <= bound
    decreases k
  {
    if k > 0 {
      SmallStaysSmall(x / 2.0, bound, k - 1);
    }
  }

  lemma HalvedFromFloor(x: real, floor: real, k: nat)
    requires floor > 0.0
    ensures MaxR(floor, Halved(MaxR(x, floor), k)) == MaxR(floor, Halved(x, k))
  {
    if x < floor {
      SmallStaysSmall(x, floor, k);
      SmallStaysSmall(floor, floor, k);
    }
  }

  /** A pace set by headers is changed by 429s and by nothing else. */
  lemma HeaderDrivenStep(w: World, e: Event)
    requires RatesOk(w) && w.pacer.headerDriven && Enabled(w, e) && NoHeaders([e])
    ensures RatesOk(Next(w, e)) && Next(w, e).pacer.headerDriven
    ensures Next(w, e).pacer.floor == w.pacer.floor
    ensures Next(w, e).pacer.rate == if e.RateLimited? then MaxR(w.pacer.rate / 2.0, w.pacer.floor) else w.pacer.rate
  {
    hide HighWater, Without, Latest, CeilingsDecay, RatesOk;
    assert [e][0] == e;
    StepKeepsRates(w, e);
    RatesOkGivesBand(w);
  }

  lemma RatesOkGivesBand(w: World)
    requires RatesOk(w)
    ensures InBand(w.pacer)
  {
  }

  lemma {:induction false} HeaderPaceIsKept(w: World, run: seq<Event>)
    requires RatesOk(w) && w.pacer.headerDriven && NoHeaders(run) && Exec(w, run).Some?
    ensures Exec(w, run).value.pacer.rate == MaxR(w.pacer.floor, Halved(w.pacer.rate, Throttles(run)))
    decreases |run|
  {
    hide RatesOk, Next, Enabled;
    RatesOkGivesBand(w);
    if run != [] {
      var q := Next(w, run[0]);
      HeaderDrivenStep(w, run[0]);
      HeaderPaceIsKept(q, run[1..]);
      HalvedFromFloor(w.pacer.rate / 2.0, w.pacer.floor, Throttles(run[1..]));
    }
  }

  /** From an accepted header pair to the next one, whatever waits, successes and
      429s come between, the rate is the pace those headers ask for, halved once
      for each 429 and never below the floor. */
  lemma HeadersSetThePace(w: World, startRate: real, maxRate: real, headers: Event, run: seq<Event>, end: World)
    requires Reached(w, startRate, maxRate) && NoHeaders(run)
    requires headers.Headers? && Accepted(headers.remaining, headers.untilReset)
    requires Exec(w, [headers] + run) == Some(end)
    ensures var spread := headers.remaining as real / headers.untilReset.value;
      end.pacer.rate
      == MaxR(MinR(DEFAULT_FLOOR, startRate),
              Halved(HeaderPace(w.spreads + [spread], headers.remaining, maxRate), Throttles(run)))
  {
    hide Exec, SlotsOk, Next, RatesOk, Throttles, Halved;
    ReachedIsOk(w, startRate, maxRate);
    RatesOkGivesBand(w);
    StepKeepsRates(w, headers);
    HeadersSetRate(w, headers);
    ExecFirst(w, headers, run);
    var q := Next(w, headers);
    HeaderPaceIsKept(q, run);
    var spread := headers.remaining as real / headers.untilReset.value;
    HalvedFromFloor(HeaderPace(w.spreads + [spread], headers.remaining, maxRate), w.pacer.floor, Throttles(run));
  }

  lemma HeadersSetRate(w: World, headers: Event)
    requires RatesOk(w) && headers.Headers? && Accepted(headers.remaining, headers.untilReset)
    ensures var spread := headers.remaining as real / headers.untilReset.value; var q := Next(w, headers).pacer;
      && q.headerDriven
      && q.rate == MaxR(HeaderPace(w.spreads + [spread], headers.remaining, w.pacer.maxRate), w.pacer.floor)
  {
    hide CeilingsDecay;
    var spread := headers.remaining as real / headers.untilReset.value;
    assert (w.spreads + [spread])[..|w.spreads|] == w.spreads;
  }

  lemma ExecFirst(w: World, e: Event, run: seq<Event>)
    requires w.pacer.rate > 0.0 && Enabled(w, e)
    ensures Exec(w, [e] + run) == Exec(Next(w, e), run)
  {
    assert ([e] + run)[1..] == run;
  }

  // ----- the limiter's memory -----

  /** The inferred budget is the high-water mark of every accepted header pair;
      no 429 and no success ever lowers it. */
  lemma BudgetIsHighWater(w: World, startRate: real, maxRate: real)
    requires Reached(w, startRate, maxRate)
    ensures w.pacer.budgetRate == HighWater(w.spreads)
    ensures forall x :: x in w.spreads ==> x <= w.pacer.budgetRate
    ensures w.spreads != [] && w.pacer.budgetRate > 0.0 ==> w.pacer.budgetRate in w.spreads
  {
    ReachedIsOk(w, startRate, maxRate);
    HighWaterIsMaximum(w.spreads);
  }

  lemma {:induction false} HighWaterIsMaximum(spreads: seq<real>)
    ensures forall x :: x in spreads ==> x <= HighWater(spreads)
    ensures HighWater(spreads) > 0.0 ==> HighWater(spreads) in spreads
  {
    if spreads != [] {
      var init := spreads[..|spreads| - 1];
      HighWaterIsMaximum(init);
      assert forall x :: x in spreads ==> x in init || x == spreads[|spreads| - 1];
    }
  }

  /** `first` times 0.9 to the power `k`. */
  function NineTenths(first: real, k: nat): real {
    if k == 0 then first else 0.9 * NineTenths(first, k - 1)
  }

  lemma {:induction false} DecayIsGeometric(ceilings: seq<real>, floor: real, k: nat)
    requires k < |ceilings| && floor > 0.0
    requires forall i :: 0 < i < |ceilings| ==> ceilings[i] <= MaxR(floor, 0.9 * ceilings[i - 1])
    ensures ceilings[k] <= MaxR(floor, NineTenths(ceilings[0], k))
  {
    if k > 0 {
      DecayIsGeometric(ceilings, floor, k - 1);
    }
  }

  /** Without rate-limit headers, the ceiling of each 429 is at most nine tenths
      of the one before, hence at most 0.9^k times the first, down to the floor. */
  lemma HeaderlessCeilings(w: World, startRate: real, maxRate: real, k: nat)
    requires Reached(w, startRate, maxRate) && w.spreads == []
    requires k < |w.ceilings|
    ensures k > 0 ==> w.ceilings[k] <= MaxR(w.pacer.floor, 0.9 * w.ceilings[k - 1])
    ensures w.ceilings[k] <= MaxR(w.pacer.floor, NineTenths(w.ceilings[0], k))
  {
    ReachedIsOk(w, startRate, maxRate);
    DecayIsGeometric(w.ceilings, w.pacer.floor, k);
  }

  // ----- the pace without headers -----

  /** `x` raised by a quarter, `k` times. */
  function Raised(x: real, k: nat): real {
    if k == 0 then x else 1.25 * Raised(x, k - 1)
  }

  function Successes(run: seq<Event>): nat {
    if run == [] then 0 else (if run[0].Success? then 1 else 0) + Successes(run[1..])
  }

  /** Within nine tenths of the last rate that was too much, and the limit. */
  function Below(x: real, ceiling: real, maxRate: real): real {
    var y := if ceiling > 0.0 then MinR(x, 0.9 * ceiling) else x;
    if maxRate > 0.0 then MinR(y, maxRate) else y
  }

  lemma {:induction false} RaisedGrows(x: real, k: nat)
    requires x > 0.0
    ensures Raised(x, k) >= x
  {
    if k > 0 {
      RaisedGrows(x, k - 1);
    }
  }

  /** Where a headerless limiter should be `n` successes after it had rate `first`. */
  ghost predicate Climbed(p: Pacer, first: real, n: nat) {
    && !p.headerDriven && p.successes == n % 10 && 0.0 < p.floor <= first
    && p.rate == MaxR(p.floor, Below(Raised(first, n / 10), p.ceiling, p.maxRate))
  }

  lemma OneSuccess(p: Pacer, first: real, n: nat)
    requires Climbed(p, first, n)
    ensures Climbed(Succeed(p), first, n + 1)
  {
    hide Raised;
    RaisedGrows(first, n / 10);
    if n % 10 == 9 {
      RaisedOnce(first, n / 10);
      assert (n + 1) / 10 == n / 10 + 1;
    } else {
      assert (n + 1) / 10 == n / 10;
    }
  }

  lemma RaisedOnce(x: real, k: nat)
    ensures Raised(x, k + 1) == 1.25 * Raised(x, k)
  {
  }

  lemma QuietStep(w: World, e: Event, first: real, n: nat)
    requires RatesOk(w) && Enabled(w, e) && Climbed(w.pacer, first, n)
    requires NoHeaders([e]) && !e.Success? && !e.RateLimited?
    ensures Climbed(Next(w, e).pacer, first, n)
    ensures SameRates(w.pacer, Next(w, e).pacer)
  {
    hide HighWater, Without, Latest, CeilingsDecay, Below, Raised;
    assert [e][0] == e;
  }

  lemma SuccessKeepsCeiling(p: Pacer)
    ensures var q := Succeed(p); q.floor == p.floor && q.ceiling == p.ceiling && q.maxRate == p.maxRate
  {
  }

  lemma {:induction false} QuietRunClimbs(w: World, run: seq<Event>, first: real, n: nat)
    requires RatesOk(w) && Climbed(w.pacer, first, n) && NoHeaders(run) && Throttles(run) == 0
    requires Exec(w, run).Some?
    ensures var p := Exec(w, run).value.pacer;
      && Climbed(p, first, n + Successes(run))
      && p.floor == w.pacer.floor && p.ceiling == w.pacer.ceiling && p.maxRate == w.pacer.maxRate
    decreases |run|
  {
    hide RatesOk, Climbed, Enabled;
    if run != [] {
      var e, w' := run[0], Next(w, run[0]);
      PositiveRate(w);
      StepKeepsRates(w, e);
      assert NoHeaders([e]) && NoHeaders(run[1..]);
      if e.Success? {
        OneSuccess(w.pacer, first, n);
        SuccessKeepsCeiling(w.pacer);
        QuietRunClimbs(w', run[1..], first, n + 1);
      } else {
        QuietStep(w, e, first, n);
        QuietRunClimbs(w', run[1..], first, n);
      }
    }
  }

  /** Without headers and before the first 429 the rate climbs by a quarter with
      every tenth success, up to the limit. */
  lemma HeaderlessStart(startRate: real, maxRate: real, now: real, run: seq<Event>, end: World)
    requires startRate > 0.0 && (maxRate > 0.0 ==> startRate <= maxRate)
    requires NoHeaders(run) && Throttles(run) == 0 && Exec(Start(startRate, maxRate, now), run) == Some(end)
    ensures var rate := Raised(startRate, Successes(run) / 10);
      end.pacer.rate == if maxRate > 0.0 then MinR(rate, maxRate) else rate
  {
    hide Exec, Raised, Successes, Throttles;
    var w := Start(startRate, maxRate, now);
    assert Raised(startRate, 0) == startRate by { RaisedFromNothing(startRate); }
    QuietRunClimbs(w, run, startRate, 0);
    RaisedGrows(startRate, Successes(run) / 10);
  }

  lemma RaisedFromNothing(x: real)
    ensures Raised(x, 0) == x
  {
  }

  /** A 429 without headers halves the rate; from there it climbs by a quarter
      with every tenth success, within the limit and nine tenths of the rate that
      met the 429, whatever waits come between and never below the floor. */
  lemma HeaderlessRecovery(w: World, startRate: real, maxRate: real, run: seq<Event>, end: World)
    requires Reached(w, startRate, maxRate) && w.spreads == []
    requires NoHeaders(run) && Throttles(run) == 0 && Exec(w, [RateLimited] + run) == Some(end)
    ensures var floor := MinR(DEFAULT_FLOOR, startRate);
      var climbed := MinR(Raised(MaxR(w.pacer.rate / 2.0, floor), Successes(run) / 10), 0.9 * w.pacer.rate);
      end.pacer.rate == MaxR(floor, if maxRate > 0.0 then MinR(climbed, maxRate) else climbed)
  {
    hide Exec, SlotsOk, RatesOk, Raised, Successes, Throttles;
    ReachedIsOk(w, startRate, maxRate);
    RatesOkGivesBand(w);
    StepKeepsRates(w, RateLimited);
    var q := Next(w, RateLimited);
    ExecFirst(w, RateLimited, run);
    var first := q.pacer.rate;
    assert Raised(first, 0) == first by { RaisedFromNothing(first); }
    NoSpreads(w);
    QuietRunClimbs(q, run, first, 0);
  }

  lemma NoSpreads(w: World)
    requires RatesOk(w) && w.spreads == []
    ensures !w.pacer.headerDriven
  {
  }
}
