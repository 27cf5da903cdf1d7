/** The worker-pool fan-out as a transition system: one feeder, a bounded
    channel, N workers and a context that may be cancelled at any moment.

    Sources are their indices 0..n.  Each source's call may return a value, an
    error or panic; `name` is assumed not to panic. */
module Fanout {
  import opened Wrappers

  /** What the caller's function does on one source. */
  datatype Reply<T> = Returned(value: T) | Erred(error: string) | Panicked(reason: string)

  datatype Slot<T> =
    | Empty
    | Result(value: T)
    | Failed(error: string)   // an error or a recovered panic
    | Stopped                 // the context's error

  datatype Worker = Idle | Got(idx: nat) | Running(idx: nat) | Exited

  datatype Feeder = Feeding(next: nat) | Marking(next: nat) | Closed

  datatype Pool<T> = Pool(
    n: nat,
    capacity: nat,
    cancelled: bool,
    feeder: Feeder,
    jobs: seq<nat>,           // the channel
    workers: seq<Worker>,
    slots: seq<Slot<T>>,
    calls: seq<nat>,          // sources the function was called on, in order
    collected: bool)          // the waiting caller went on

  datatype Step<T> =
    | Cancel
    | Feed
    | StopFeeding
    | Mark
    | Close
    | Take(w: nat)
    | Skip(w: nat)
    | Call(w: nat)
    | Return(w: nat, reply: Reply<T>)
    | Exit(w: nat)
    | Collect

  /** A requested concurrency below one counts as one. */
  function Start<T>(n: nat, concurrency: int): Pool<T> {
    var workers := if concurrency < 1 then 1 else concurrency;
    Pool(n, 2 * workers, false, Feeding(0), [], seq(workers, _ => Idle), seq(n, _ => Empty), [], false)
  }

  predicate Enabled<T>(p: Pool<T>, s: Step<T>) {
    match s
    case Cancel => !p.cancelled
    case Feed => p.feeder.Feeding? && p.feeder.next < p.n && |p.jobs| < p.capacity
    case StopFeeding => p.feeder.Feeding? && p.feeder.next < p.n && p.cancelled
    case Mark => p.feeder.Marking? && p.feeder.next < p.n
    case Close => !p.feeder.Closed? && p.feeder.next == p.n
    case Take(w) => w < |p.workers| && p.workers[w].Idle? && p.jobs != []
    case Skip(w) => w < |p.workers| && p.workers[w].Got? && p.cancelled
    case Call(w) => w < |p.workers| && p.workers[w].Got? && !p.cancelled
    case Return(w, _) => w < |p.workers| && p.workers[w].Running?
    case Exit(w) => w < |p.workers| && p.workers[w].Idle? && p.jobs == [] && p.feeder.Closed?
    case Collect => !p.collected && forall w :: 0 <= w < |p.workers| ==> p.workers[w].Exited?
  }

  const PANIC: string := "panic in fanout fn: "

  function Filled<T>(reply: Reply<T>): Slot<T> {
    match reply
    case Returned(v) => Result(v)
    case Erred(e) => Failed(e)
    case Panicked(r) => Failed(PANIC + r)
  }

  function Put<T>(slots: seq<Slot<T>>, i: nat, slot: Slot<T>): seq<Slot<T>> {
    if i < |slots| then slots[i := slot] else slots
  }

  function Next<T>(p: Pool<T>, s: Step<T>): Pool<T>
    requires Enabled(p, s)
  {
    match s
    case Cancel => p.(cancelled := true)
    case Feed => p.(jobs := p.jobs + [p.feeder.next], feeder := Feeding(p.feeder.next + 1))
    case StopFeeding => p.(feeder := Marking(p.feeder.next))
    case Mark => p.(slots := Put(p.slots, p.feeder.next, Stopped), feeder := Marking(p.feeder.next + 1))
    case Close => p.(feeder := Closed)
    case Take(w) => p.(workers := p.workers[w := Got(p.jobs[0])], jobs := p.jobs[1..])
    case Skip(w) => p.(workers := p.workers[w := Idle], slots := Put(p.slots, p.workers[w].idx, Stopped))
    case Call(w) =>
      p.(workers := p.workers[w := Running(p.workers[w].idx)], calls := p.calls + [p.workers[w].idx])
    case Return(w, reply) =>
      p.(workers := p.workers[w := Idle], slots := Put(p.slots, p.workers[w].idx, Filled(reply)))
    case Exit(w) => p.(workers := p.workers[w := Exited])
    case Collect => p.(collected := true)
  }

  // ----- the invariant -----

  /** Does this worker hold source `i` (`calling`: inside the caller's function)? */
  predicate Holds(worker: Worker, i: nat, calling: bool) {
    (worker.Running? && worker.idx == i) || (!calling && worker.Got? && worker.idx == i)
  }

  /** Number of workers that do. */
  function Holding(workers: seq<Worker>, i: nat, calling: bool): nat {
    if workers == [] then 0
    else Holding(workers[..|workers| - 1], i, calling) + if Holds(workers[|workers| - 1], i, calling) then 1 else 0
  }

  function Queued(jobs: seq<nat>, i: nat): nat {
    multiset(jobs)[i]
  }

  /** How far the feeder has come: everything from here on is still its own. */
  function Fed<T>(p: Pool<T>): nat {
    match p.feeder
    case Feeding(next) => next
    case Marking(next) => next
    case Closed => p.n
  }

  /** Each source is in exactly one place: with the feeder, in the channel, with
      one worker, or settled in its slot; and it was called on exactly when a
      worker is calling on it or its slot holds the reply. */
  predicate OnePlace<T>(p: Pool<T>, i: nat)
    requires |p.slots| == p.n && i < p.n
  {
    var slot := p.slots[i];
    && Queued(p.jobs, i) + Holding(p.workers, i, false) + (if slot.Empty? then 0 else 1)
        == (if i < Fed(p) then 1 else 0)
    && multiset(p.calls)[i] == Holding(p.workers, i, true) + if slot.Result? || slot.Failed? then 1 else 0
  }

  ghost predicate AllInPlace<T>(p: Pool<T>) {
    |p.slots| == p.n && forall i :: 0 <= i < p.n ==> OnePlace(p, i)
  }

  ghost predicate IndicesOk<T>(p: Pool<T>) {
    && |p.workers| >= 1 && p.capacity >= 1 && |p.jobs| <= p.capacity && Fed(p) <= p.n
    && (forall k :: 0 <= k < |p.jobs| ==> p.jobs[k] < p.n)
    && (forall w :: 0 <= w < |p.workers| && (p.workers[w].Got? || p.workers[w].Running?) ==> p.workers[w].idx < p.n)
  }

  ghost predicate ExitsOk<T>(p: Pool<T>) {
    && (forall w :: 0 <= w < |p.workers| && p.workers[w].Exited? ==> p.feeder.Closed? && p.jobs == [])
    && (p.collected ==> forall w :: 0 <= w < |p.workers| ==> p.workers[w].Exited?)
  }

  ghost predicate StopsOk<T>(p: Pool<T>) {
    !p.cancelled ==> !p.feeder.Marking? && forall i :: 0 <= i < |p.slots| ==> !p.slots[i].Stopped?
  }

  ghost predicate PoolOk<T>(p: Pool<T>) {
    AllInPlace(p) && IndicesOk(p) && ExitsOk(p) && StopsOk(p)
  }

  lemma {:induction false} HoldingUpdate(workers: seq<Worker>, w: nat, now: Worker, i: nat, calling: bool)
    requires w < |workers|
    ensures Holding(workers[w := now], i, calling)
         == Holding(workers, i, calling)
          - (if Holds(workers[w], i, calling) then 1 else 0) + (if Holds(now, i, calling) then 1 else 0)
  {
    var updated := workers[w := now];
    if w == |workers| - 1 {
      assert updated[..w] == workers[..w];
    } else {
      HoldingUpdate(workers[..|workers| - 1], w, now, i, calling);
      assert updated[..|workers| - 1] == workers[..|workers| - 1][w := now];
    }
  }

  lemma {:induction false} HoldingNone(workers: seq<Worker>, i: nat, calling: bool)
    requires forall w :: 0 <= w < |workers| ==> !Holds(workers[w], i, calling)
    ensures Holding(workers, i, calling) == 0
  {
    if workers != [] {
      HoldingNone(workers[..|workers| - 1], i, calling);
    }
  }

  lemma {:induction false} HoldingSome(workers: seq<Worker>, w: nat, i: nat, calling: bool)
    requires w < |workers| && Holds(workers[w], i, calling)
    ensures Holding(workers, i, calling) >= 1
  {
    if w < |workers| - 1 {
      HoldingSome(workers[..|workers| - 1], w, i, calling);
    }
  }

  // ----- every step keeps it, and writes at most one empty slot -----

  /** A slot, once filled, never changes; an empty one may be filled. */
  ghost predicate WritesOnce<T>(before: seq<Slot<T>>, after: seq<Slot<T>>) {
    |before| == |after| && forall i :: 0 <= i < |before| ==> before[i].Empty? || after[i] == before[i]
  }

  /** How one worker's move changes the two counts of a source. */
  lemma WorkerMoves(workers: seq<Worker>, w: nat, now: Worker, i: nat)
    requires w < |workers|
    ensures Holding(workers[w := now], i, false) - (if Holds(now, i, false) then 1 else 0)
         == Holding(workers, i, false) - (if Holds(workers[w], i, false) then 1 else 0) >= 0
    ensures Holding(workers[w := now], i, true) - (if Holds(now, i, true) then 1 else 0)
         == Holding(workers, i, true) - (if Holds(workers[w], i, true) then 1 else 0) >= 0
  {
    hide Holding, Holds;
    HoldingUpdate(workers, w, now, i, false);
    HoldingUpdate(workers, w, now, i, true);
    if Holds(workers[w], i, false) {
      HoldingSome(workers, w, i, false);
    }
    if Holds(workers[w], i, true) {
      HoldingSome(workers, w, i, true);
    }
  }

  lemma FeederKeepsPlace<T>(p: Pool<T>, s: Step<T>, i: nat)
    requires PoolOk(p) && Enabled(p, s) && i < p.n
    requires s.Cancel? || s.Feed? || s.StopFeeding? || s.Mark? || s.Close? || s.Collect?
    ensures |Next(p, s).slots| == p.n && OnePlace(Next(p, s), i)
    ensures p.slots[i].Empty? || Next(p, s).slots[i] == p.slots[i]
  {
    hide Holding, IndicesOk, ExitsOk, StopsOk;
    assert OnePlace(p, i);
  }

  lemma TakeKeepsPlace<T>(p: Pool<T>, s: Step<T>, i: nat)
    requires PoolOk(p) && Enabled(p, s) && i < p.n && s.Take?
    ensures Next(p, s).slots == p.slots && OnePlace(Next(p, s), i)
  {
    hide Holding, IndicesOk, ExitsOk, StopsOk;
    assert OnePlace(p, i);
    assert p.jobs == [p.jobs[0]] + p.jobs[1..];
    WorkerMoves(p.workers, s.w, Got(p.jobs[0]), i);
  }

  lemma CallKeepsPlace<T>(p: Pool<T>, s: Step<T>, i: nat)
    requires PoolOk(p) && Enabled(p, s) && i < p.n && (s.Call? || s.Exit?)
    ensures Next(p, s).slots == p.slots && OnePlace(Next(p, s), i)
  {
    hide Holding, IndicesOk, ExitsOk, StopsOk;
    assert OnePlace(p, i);
    WorkerMoves(p.workers, s.w, if s.Call? then Running(p.workers[s.w].idx) else Exited, i);
  }

  lemma SettleKeepsPlace<T>(p: Pool<T>, s: Step<T>, i: nat)
    requires PoolOk(p) && Enabled(p, s) && i < p.n && (s.Skip? || s.Return?)
    ensures |Next(p, s).slots| == p.n && OnePlace(Next(p, s), i)
    ensures p.slots[i].Empty? || Next(p, s).slots[i] == p.slots[i]
  {
    hide Holding, ExitsOk, StopsOk;
    assert OnePlace(p, i);
    WorkerMoves(p.workers, s.w, Idle, i);
  }

  lemma StepKeepsPlace<T>(p: Pool<T>, s: Step<T>, i: nat)
    requires PoolOk(p) && Enabled(p, s) && i < p.n
    ensures |Next(p, s).slots| == p.n && OnePlace(Next(p, s), i)
    ensures p.slots[i].Empty? || Next(p, s).slots[i] == p.slots[i]
  {
    hide OnePlace, IndicesOk, ExitsOk, StopsOk, Enabled;
    match s
    case Take(_) => TakeKeepsPlace(p, s, i);
    case Call(_) => CallKeepsPlace(p, s, i);
    case Exit(_) => CallKeepsPlace(p, s, i);
    case Skip(_) => SettleKeepsPlace(p, s, i);
    case Return(_, _) => SettleKeepsPlace(p, s, i);
    case _ => FeederKeepsPlace(p, s, i);
  }

  lemma StepKeepsIndices<T>(p: Pool<T>, s: Step<T>)
    requires PoolOk(p) && Enabled(p, s)
    ensures IndicesOk(Next(p, s)) && ExitsOk(Next(p, s))
  {
    hide AllInPlace, StopsOk, OnePlace;
  }

  lemma StepKeepsStops<T>(p: Pool<T>, s: Step<T>)
    requires PoolOk(p) && Enabled(p, s)
    ensures StopsOk(Next(p, s))
  {
    hide AllInPlace, ExitsOk, OnePlace;
  }

  lemma SameSize<T>(p: Pool<T>, s: Step<T>)
    requires Enabled(p, s)
    ensures |Next(p, s).slots| == |p.slots| && Next(p, s).n == p.n
  {
  }

  lemma StepKeepsPool<T>(p: Pool<T>, s: Step<T>)
    requires PoolOk(p) && Enabled(p, s)
    ensures PoolOk(Next(p, s))
    ensures WritesOnce(p.slots, Next(p, s).slots)
  {
    hide OnePlace, IndicesOk, ExitsOk, StopsOk, Enabled;
    var q := Next(p, s);
    SameSize(p, s);
    forall i | 0 <= i < p.n ensures OnePlace(q, i) && (p.slots[i].Empty? || q.slots[i] == p.slots[i]) {
      StepKeepsPlace(p, s, i);
    }
    StepKeepsIndices(p, s);
    StepKeepsStops(p, s);
  }

  // ----- no step is missing, and every step is progress -----

  /** As long as the caller has not gone on, something other than a cancellation
      can happen; a call in progress is taken to return eventually. */
  lemma NeverStuck<T>(p: Pool<T>, reply: Reply<T>) returns (s: Step<T>)
    requires PoolOk(p) && !p.collected
    ensures Enabled(p, s) && !s.Cancel?
  {
    hide AllInPlace, StopsOk, OnePlace;
    if w: nat :| w < |p.workers| && p.workers[w].Running? {
      s := Return(w, reply);
    } else if w: nat :| w < |p.workers| && p.workers[w].Got? {
      s := if p.cancelled then Skip(w) else Call(w);
    } else if w: nat :| w < |p.workers| && p.workers[w].Idle? {
      if p.jobs != [] {
        s := Take(w);
      } else if p.feeder.Closed? {
        s := Exit(w);
      } else if p.feeder.next == p.n {
        s := Close;
      } else {
        s := if p.feeder.Feeding? then Feed else Mark;
      }
    } else {
      s := Collect;
    }
  }

  function Weight(worker: Worker): nat {
    match worker
    case Exited => 0
    case Idle => 1
    case Running(_) => 2
    case Got(_) => 3
  }

  function Weights(workers: seq<Worker>): nat {
    if workers == [] then 0 else Weights(workers[..|workers| - 1]) + Weight(workers[|workers| - 1])
  }

  /** What is left to do. */
  function Remaining<T>(p: Pool<T>): int {
    (if p.cancelled then 0 else 1)
    + (match p.feeder case Feeding(_) => 2 case Marking(_) => 1 case Closed => 0)
    + 4 * (p.n - Fed(p)) + 3 * |p.jobs| + Weights(p.workers)
    + (if p.collected then 0 else 1)
  }

  lemma {:induction false} WeightsUpdate(workers: seq<Worker>, w: nat, now: Worker)
    requires w < |workers|
    ensures Weights(workers[w := now]) == Weights(workers) - Weight(workers[w]) + Weight(now)
  {
    var updated := workers[w := now];
    if w == |workers| - 1 {
      assert updated[..w] == workers[..w];
    } else {
      WeightsUpdate(workers[..|workers| - 1], w, now);
      assert updated[..|workers| - 1] == workers[..|workers| - 1][w := now];
    }
  }

  /** Every step, the cancellation included, leaves less to do: no run is longer
      than the measure of its start. */
  lemma EveryStepIsProgress<T>(p: Pool<T>, s: Step<T>)
    requires PoolOk(p) && Enabled(p, s)
    ensures 0 <= Remaining(Next(p, s)) < Remaining(p)
  {
    hide AllInPlace, OnePlace, StopsOk, ExitsOk, Weights;
    StepKeepsIndices(p, s);
    match s
    case Take(w) => WeightsUpdate(p.workers, w, Got(p.jobs[0]));
    case Skip(w) => WeightsUpdate(p.workers, w, Idle);
    case Call(w) => WeightsUpdate(p.workers, w, Running(p.workers[w].idx));
    case Return(w, _) => WeightsUpdate(p.workers, w, Idle);
    case Exit(w) => WeightsUpdate(p.workers, w, Exited);
    case _ =>
  }

  // ----- runs -----

  function Exec<T>(p: Pool<T>, run: seq<Step<T>>): Option<Pool<T>>
    decreases |run|
  {
    if run == [] then Some(p)
    else if !Enabled(p, run[0]) then None
    else Exec(Next(p, run[0]), run[1..])
  }

  lemma StartIsOk<T>(n: nat, concurrency: int)
    ensures PoolOk(Start<T>(n, concurrency))
  {
    hide Holding;
    var p := Start<T>(n, concurrency);
    forall i | 0 <= i < n ensures OnePlace(p, i) {
      HoldingNone(p.workers, i, false);
      HoldingNone(p.workers, i, true);
    }
  }

  lemma {:induction false} RunKeepsPool<T>(p: Pool<T>, run: seq<Step<T>>)
    requires PoolOk(p) && Exec(p, run).Some?
    ensures PoolOk(Exec(p, run).value) && WritesOnce(p.slots, Exec(p, run).value.slots)
    ensures Exec(p, run).value.n == p.n
    ensures |run| <= Remaining(p) - Remaining(Exec(p, run).value)
    decreases |run|
  {
    hide PoolOk, Enabled, Next, Remaining;
    if run != [] {
      SameSize(p, run[0]);
      StepKeepsPool(p, run[0]);
      EveryStepIsProgress(p, run[0]);
      RunKeepsPool(Next(p, run[0]), run[1..]);
    }
  }

  /** Every schedule ends: a run of a pool over n sources with c workers takes at
      most 4n + c + 4 steps. */
  lemma RunsAreBounded<T>(n: nat, concurrency: int, run: seq<Step<T>>)
    requires Exec(Start<T>(n, concurrency), run).Some?
    ensures |run| <= 4 * n + (if concurrency < 1 then 1 else concurrency) + 4
  {
    var p := Start<T>(n, concurrency);
    StartIsOk<T>(n, concurrency);
    RunKeepsPool(p, run);
    IdleWeights(p.workers);
    RemainingIsNatural(Exec(p, run).value);
  }

  lemma RemainingIsNatural<T>(p: Pool<T>)
    requires PoolOk(p)
    ensures Remaining(p) >= 0
  {
  }

  lemma {:induction false} IdleWeights(workers: seq<Worker>)
    requires forall w :: 0 <= w < |workers| ==> workers[w].Idle?
    ensures Weights(workers) == |workers|
  {
    if workers != [] {
      IdleWeights(workers[..|workers| - 1]);
    }
  }

  // ----- how many calls go on at once -----

  function InCalls(workers: seq<Worker>): nat {
    if workers == [] then 0
    else InCalls(workers[..|workers| - 1]) + if workers[|workers| - 1].Running? then 1 else 0
  }

  lemma {:induction false} CallsNeedWorkers(workers: seq<Worker>)
    ensures InCalls(workers) <= |workers|
  {
    if workers != [] {
      CallsNeedWorkers(workers[..|workers| - 1]);
    }
  }

  lemma {:induction false} RunKeepsWorkers<T>(p: Pool<T>, run: seq<Step<T>>)
    requires Exec(p, run).Some? && |p.jobs| <= p.capacity
    ensures var q := Exec(p, run).value;
      |q.workers| == |p.workers| && q.capacity == p.capacity && |q.jobs| <= q.capacity
    decreases |run|
  {
    if run != [] {
      RunKeepsWorkers(Next(p, run[0]), run[1..]);
    }
  }

  /** At no moment are more calls under way, or more sources queued, than asked for:
      as many calls as workers, and twice as many sources in the channel. */
  lemma AtMostConcurrencyCallsAtOnce<T>(n: nat, concurrency: int, run: seq<Step<T>>)
    requires Exec(Start<T>(n, concurrency), run).Some?
    ensures var p := Exec(Start<T>(n, concurrency), run).value;
      var allowed := if concurrency > 1 then concurrency else 1;
      InCalls(p.workers) <= allowed && |p.jobs| <= 2 * allowed
  {
    hide Exec, InCalls;
    RunKeepsWorkers(Start<T>(n, concurrency), run);
    CallsNeedWorkers(Exec(Start<T>(n, concurrency), run).value.workers);
  }

  /** The pool after the first `k` workers took a source each and called. */
  function Calling<T>(n: nat, concurrency: int, k: nat): Pool<T>
    requires k <= n && k <= |Start<T>(n, concurrency).workers|
  {
    var p := Start<T>(n, concurrency);
    p.(feeder := Feeding(k), calls := seq(k, i => i),
       workers := seq(|p.workers|, w requires 0 <= w => if w < k then Running(w) else Idle))
  }

  lemma ExecOne<T>(p: Pool<T>, s: Step<T>)
    requires Enabled(p, s)
    ensures Exec(p, [s]) == Some(Next(p, s))
  {
  }

  lemma OneMoreCall<T>(n: nat, concurrency: int, k: nat)
    requires k < n && k < |Start<T>(n, concurrency).workers|
    ensures Exec(Calling<T>(n, concurrency, k), [Feed] + [Take(k)] + [Call(k)])
         == Some(Calling<T>(n, concurrency, k + 1))
  {
    hide Exec;
    var p, feed: seq<Step<T>>, take: seq<Step<T>> := Calling<T>(n, concurrency, k), [Feed], [Take(k)];
    ExecOne(p, Feed);
    var p1 := Next(p, Feed);
    ExecOne(p1, Take(k));
    var p2 := Next(p1, Take(k));
    assert p1.jobs == [k] && p2.jobs == [];
    ExecOne(p2, Call(k));
    var p3 := Next(p2, Call(k));
    assert p3.workers == Calling<T>(n, concurrency, k + 1).workers;
    assert p3.calls == Calling<T>(n, concurrency, k + 1).calls;
    ExecJoins(p, feed, take);
    ExecJoins(p, feed + take, [Call(k)]);
  }

  lemma {:induction false} ExecJoins<T>(p: Pool<T>, head: seq<Step<T>>, tail: seq<Step<T>>)
    requires Exec(p, head).Some?
    ensures Exec(p, head + tail) == Exec(Exec(p, head).value, tail)
    decreases |head|
  {
    if head == [] {
      assert head + tail == tail;
    } else {
      assert (head + tail)[1..] == head[1..] + tail;
      ExecJoins(Next(p, head[0]), head[1..], tail);
    }
  }

  lemma {:induction false} CallsOf<T>(n: nat, concurrency: int, k: nat, m: nat)
    requires k <= n && k <= m <= |Start<T>(n, concurrency).workers|
    ensures InCalls(Calling<T>(n, concurrency, k).workers[..m]) == k
    decreases m
  {
    var workers := Calling<T>(n, concurrency, k).workers;
    if m > 0 {
      assert workers[..m][..m - 1] == workers[..m - 1];
      CallsOf<T>(n, concurrency, if k == m then k - 1 else k, m - 1);
      if k == m {
        assert workers[..m - 1] == Calling<T>(n, concurrency, k - 1).workers[..m - 1];
      }
    }
  }

  lemma {:induction false} CallsCanBegin<T>(n: nat, concurrency: int, k: nat) returns (run: seq<Step<T>>)
    requires k <= n && k <= |Start<T>(n, concurrency).workers|
    ensures Exec(Start<T>(n, concurrency), run) == Some(Calling<T>(n, concurrency, k))
  {
    if k == 0 {
      run := [];
      assert Calling<T>(n, concurrency, 0) == Start<T>(n, concurrency);
    } else {
      var head := CallsCanBegin<T>(n, concurrency, k - 1);
      OneMoreCall<T>(n, concurrency, k - 1);
      ExecJoins(Start<T>(n, concurrency), head, [Feed] + [Take(k - 1)] + [Call(k - 1)]);
      run := head + ([Feed] + [Take(k - 1)] + [Call(k - 1)]);
    }
  }

  /** And so many can be: some schedule has as many calls under way as there are
      sources, or as were asked for. */
  lemma AsManyCallsCanGoOn<T>(n: nat, concurrency: int) returns (run: seq<Step<T>>)
    ensures Exec(Start<T>(n, concurrency), run).Some?
    ensures var allowed := if concurrency > 1 then concurrency else 1;
      InCalls(Exec(Start<T>(n, concurrency), run).value.workers) == if n < allowed then n else allowed
  {
    hide Exec, InCalls;
    var allowed := if concurrency > 1 then concurrency else 1;
    var k := if n < allowed then n else allowed;
    run := CallsCanBegin<T>(n, concurrency, k);
    var p := Calling<T>(n, concurrency, k);
    CallsOf<T>(n, concurrency, k, |p.workers|);
    assert p.workers[..|p.workers|] == p.workers;
  }

  // ----- what the calls returned -----

  /** The replies of a run's calls, each with its source, in order of return. */
  function Replies<T>(p: Pool<T>, run: seq<Step<T>>): seq<(nat, Reply<T>)>
    decreases |run|
  {
    if run == [] || !Enabled(p, run[0]) then []
    else
      var here := match run[0] case Return(w, reply) => [(p.workers[w].idx, reply)] case _ => [];
      here + Replies(Next(p, run[0]), run[1..])
  }

  predicate Settles<T>(p: Pool<T>, s: Step<T>, i: nat) {
    s.Return? && s.w < |p.workers| && p.workers[s.w] == Running(i)
  }

  /** One step fills a source's slot with a result or an error only as its call
      returns, and then with what the call returned. */
  lemma StepSettles<T>(p: Pool<T>, s: Step<T>, i: nat)
    requires PoolOk(p) && Enabled(p, s) && i < p.n
    ensures |Next(p, s).slots| == p.n
    ensures Settles(p, s, i) ==> Next(p, s).slots[i] == Filled(s.reply)
    ensures !Settles(p, s, i) ==> Next(p, s).slots[i] == p.slots[i] || Next(p, s).slots[i].Stopped?
  {
    hide Holding, ExitsOk, StopsOk;
    assert OnePlace(p, i);
  }

  predicate Answers<T>(slot: Slot<T>) { slot.Result? || slot.Failed? }

  /** The replies of a run are its first step's and the rest's. */
  lemma RepliesSplit<T>(p: Pool<T>, run: seq<Step<T>>, i: nat, r: Reply<T>)
    requires run != [] && Enabled(p, run[0])
    ensures (i, r) in Replies(p, run)
       <==> (Settles(p, run[0], i) && run[0].reply == r) || (i, r) in Replies(Next(p, run[0]), run[1..])
  {
    hide Next;
  }

  lemma {:induction false} RunSettles<T(!new)>(p: Pool<T>, run: seq<Step<T>>, i: nat)
    requires PoolOk(p) && Exec(p, run).Some? && i < p.n && |p.slots| == p.n == |Exec(p, run).value.slots|
    ensures var slot := Exec(p, run).value.slots[i];
      && (forall r :: (i, r) in Replies(p, run) ==> slot == Filled(r))
      && (Answers(slot) ==> Answers(p.slots[i]) || exists r :: (i, r) in Replies(p, run))
    decreases |run|
  {
    if run != [] {
      hide PoolOk, Enabled, Next, Settles, Replies;
      var s, q := run[0], Next(p, run[0]);
      SameSize(p, s);
      StepKeepsPool(p, s);
      StepSettles(p, s, i);
      RunKeepsPool(q, run[1..]);
      RunSettles(q, run[1..], i);
      forall r ensures (i, r) in Replies(p, run)
          <==> (Settles(p, s, i) && s.reply == r) || (i, r) in Replies(q, run[1..]) {
        RepliesSplit(p, run, i, r);
      }
    }
  }

  // ----- cancellation -----

  function Takes<T>(run: seq<Step<T>>): nat {
    if run == [] then 0 else (if run[0].Take? then 1 else 0) + Takes(run[1..])
  }

  function Feeds<T>(run: seq<Step<T>>): nat {
    if run == [] then 0 else (if run[0].Feed? then 1 else 0) + Feeds(run[1..])
  }

  /** Once the context is done the function is not called again. */
  lemma {:induction false} NoCallFollowsCancel<T>(p: Pool<T>, run: seq<Step<T>>, k: nat)
    requires Exec(p, run).Some? && k < |run|
    requires p.cancelled || exists j :: 0 <= j < k && run[j].Cancel?
    ensures !run[k].Call?
    decreases |run|
  {
    if k > 0 {
      hide Exec;
      ExecTail(p, run);
      if !p.cancelled && !run[0].Cancel? {
        var j :| 0 <= j < k && run[j].Cancel?;
        assert run[1..][j - 1].Cancel?;
      }
      NoCallFollowsCancel(Next(p, run[0]), run[1..], k - 1);
    }
  }

  lemma ExecTail<T>(p: Pool<T>, run: seq<Step<T>>)
    requires run != [] && Exec(p, run).Some?
    ensures Enabled(p, run[0]) && Exec(Next(p, run[0]), run[1..]) == Exec(p, run)
  {
  }

  /** Cancelled or not, what is queued is pulled: by the time the caller goes on,
      everything that was in the channel or put into it since. */
  lemma {:induction false} WhatIsQueuedIsPulled<T>(p: Pool<T>, run: seq<Step<T>>)
    requires PoolOk(p) && Exec(p, run).Some?
    ensures var q := Exec(p, run).value;
      Takes(run) + |q.jobs| == |p.jobs| + Feeds(run) && (q.collected ==> Takes(run) == |p.jobs| + Feeds(run))
    decreases |run|
  {
    hide AllInPlace, StopsOk;
    if run == [] {
      assert p.collected ==> p.workers[0].Exited?;
    } else {
      StepKeepsPool(p, run[0]);
      WhatIsQueuedIsPulled(Next(p, run[0]), run[1..]);
    }
  }

  predicate MayPull<T>(p: Pool<T>) {
    p.jobs != [] || (p.feeder.Feeding? && p.feeder.next < p.n)
  }

  ghost predicate Pulls<T(!new)>(p: Pool<T>, run: seq<Step<T>>) {
    Exec(p, run).Some? && Takes(run) > 0
  }

  lemma {:induction false} NothingLeftToPull<T>(p: Pool<T>, run: seq<Step<T>>)
    requires Exec(p, run).Some? && !MayPull(p)
    ensures Takes(run) == 0
    decreases |run|
  {
    if run != [] {
      NothingLeftToPull(Next(p, run[0]), run[1..]);
    }
  }

  /** The next step towards a pull: the feeder fills an empty channel, and the
      first worker finishes what it is at. */
  function TowardsPull<T>(p: Pool<T>): Step<T>
    requires |p.workers| > 0
  {
    if p.jobs == [] then Feed
    else
      match p.workers[0]
      case Running(_) => Return(0, Erred(""))
      case Got(_) => if p.cancelled then Skip(0) else Call(0)
      case _ => Take(0)
  }

  lemma {:induction false} SomeRunPulls<T(!new)>(p: Pool<T>) returns (run: seq<Step<T>>)
    requires PoolOk(p) && MayPull(p)
    ensures Pulls(p, run)
    decreases Remaining(p)
  {
    hide AllInPlace, StopsOk, OnePlace, Remaining;
    var s := TowardsPull(p);
    var q := Next(p, s);
    var rest := [];
    if !s.Take? {
      StepKeepsPool(p, s);
      EveryStepIsProgress(p, s);
      rest := SomeRunPulls(q);
    }
    run := [s] + rest;
    assert run[0] == s && run[1..] == rest;
    assert Exec(q, rest).Some?;
    assert Takes(run) == (if s.Take? then 1 else 0) + Takes(rest);
  }

  /** The documentation has workers stop pulling once the context is done.  They
      pull on from a pool, cancelled or not, exactly when its channel holds a
      source or its feeder may still win the race to put one there. */
  lemma PullsExactlyWhenFed<T(!new)>(p: Pool<T>)
    requires PoolOk(p)
    ensures (exists run :: Pulls(p, run)) <==> MayPull(p)
  {
    hide AllInPlace, StopsOk;
    if MayPull(p) {
      var run := SomeRunPulls(p);
    } else {
      forall run | Exec(p, run).Some? ensures Takes(run) == 0 {
        NothingLeftToPull(p, run);
      }
    }
  }

  /** One source and one worker: the source is fed, the context ends, and the
      worker pulls it all the same. */
  lemma StoppedWorkersPull<T(!new)>()
    ensures Exec(Start<T>(1, 1), [Feed, Cancel, Take(0)]).Some?
  {
  }

  // ----- what the caller gets -----

  datatype Failure = CallFailed(error: string) | ContextDone

  /** The successful sources with their values, in source order. */
  function ResultsOf<T>(slots: seq<Slot<T>>): seq<(nat, T)> {
    if slots == [] then []
    else
      var k := |slots| - 1;
      ResultsOf(slots[..k]) + if slots[k].Result? then [(k, slots[k].value)] else []
  }

  /** The other sources with their errors, in source order. */
  function ErrorsOf<T>(slots: seq<Slot<T>>): seq<(nat, Failure)> {
    if slots == [] then []
    else
      var k := |slots| - 1;
      ErrorsOf(slots[..k])
      + match slots[k]
        case Failed(e) => [(k, CallFailed(e))]
        case Stopped => [(k, ContextDone)]
        case _ => []
  }

  method CollectSlots<T>(slots: seq<Slot<T>>) returns (results: seq<(nat, T)>, errs: seq<(nat, Failure)>)
    ensures results == ResultsOf(slots) && errs == ErrorsOf(slots)
  {
    results, errs := [], [];
    for i := 0 to |slots|
      invariant results == ResultsOf(slots[..i]) && errs == ErrorsOf(slots[..i])
    {
      assert slots[..i + 1][..i] == slots[..i];
      match slots[i] {
        case Result(v) => results := results + [(i, v)];
        case Failed(e) => errs := errs + [(i, CallFailed(e))];
        case Stopped => errs := errs + [(i, ContextDone)];
        case Empty =>
      }
    }
    assert slots[..|slots|] == slots;
  }

  predicate InSourceOrder<U>(list: seq<(nat, U)>, n: nat) {
    && (forall k :: 0 <= k < |list| ==> list[k].0 < n)
    && (forall j, k :: 0 <= j < k < |list| ==> list[j].0 < list[k].0)
  }

  ghost predicate Lists<U(!new)>(list: seq<(nat, U)>, i: nat) {
    exists u :: (i, u) in list
  }

  lemma {:induction false} ListsAreInOrder<T>(slots: seq<Slot<T>>)
    ensures InSourceOrder(ResultsOf(slots), |slots|) && InSourceOrder(ErrorsOf(slots), |slots|)
  {
    if slots != [] {
      ListsAreInOrder(slots[..|slots| - 1]);
    }
  }

  lemma {:induction false} ResultsMirrorSlots<T(!new)>(slots: seq<Slot<T>>, i: nat)
    requires i < |slots|
    ensures forall v :: (i, v) in ResultsOf(slots) <==> slots[i] == Result(v)
  {
    hide ErrorsOf;
    var k := |slots| - 1;
    ListsAreInOrder(slots[..k]);
    if i < k {
      ResultsMirrorSlots(slots[..k], i);
    }
  }

  lemma {:induction false} ErrorsMirrorSlots<T>(slots: seq<Slot<T>>, i: nat)
    requires i < |slots|
    ensures forall e :: (i, CallFailed(e)) in ErrorsOf(slots) <==> slots[i] == Failed(e)
    ensures (i, ContextDone) in ErrorsOf(slots) <==> slots[i].Stopped?
  {
    hide ResultsOf;
    var k := |slots| - 1;
    ListsAreInOrder(slots[..k]);
    if i < k {
      ErrorsMirrorSlots(slots[..k], i);
    }
  }

  lemma SettledAtEnd<T>(p: Pool<T>, i: nat)
    requires PoolOk(p) && p.collected && i < p.n
    ensures !p.slots[i].Empty?
    ensures multiset(p.calls)[i] == if p.slots[i].Stopped? then 0 else 1
  {
    assert OnePlace(p, i);
    HoldingNone(p.workers, i, false);
    HoldingNone(p.workers, i, true);
    assert p.workers[0].Exited?;
  }

  /** When the caller goes on, under any schedule, cancellation and panics: each
      source is in exactly one of the two lists, both in source order; the
      function was called once on each source that is not reported as stopped by
      the context and never on the others; the value or error listed is what that
      call returned; and without a cancellation none is stopped. */
  lemma EverySourceIsReportedOnce<T(!new)>(n: nat, concurrency: int, run: seq<Step<T>>, i: nat)
    requires Exec(Start<T>(n, concurrency), run).Some?
    requires Exec(Start<T>(n, concurrency), run).value.collected && i < n
    ensures var p := Exec(Start<T>(n, concurrency), run).value;
      var results, errs, replies := ResultsOf(p.slots), ErrorsOf(p.slots), Replies(Start<T>(n, concurrency), run);
      && InSourceOrder(results, n) && InSourceOrder(errs, n)
      && (Lists(results, i) <==> !Lists(errs, i))
      && multiset(p.calls)[i] == (if (i, ContextDone) in errs then 0 else 1)
      && (forall v :: (i, v) in results <==> (i, Returned(v)) in replies)
      && (forall e :: (i, CallFailed(e)) in errs
            <==> (i, Erred(e)) in replies || exists reason :: (i, Panicked(reason)) in replies && e == PANIC + reason)
      && ((i, ContextDone) in errs ==> p.cancelled)
  {
    hide Holding, ResultsOf, ErrorsOf, Exec, OnePlace, Replies;
    var start := Start<T>(n, concurrency);
    StartIsOk<T>(n, concurrency);
    RunKeepsPool(start, run);
    var p := Exec(start, run).value;
    SettledAtEnd(p, i);
    ListsAreInOrder(p.slots);
    ResultsMirrorSlots(p.slots, i);
    ErrorsMirrorSlots(p.slots, i);
    RunSettles(start, run, i);
    match p.slots[i] {
      case Result(v) => assert (i, v) in ResultsOf(p.slots);
      case Failed(e) => assert (i, CallFailed(e)) in ErrorsOf(p.slots);
      case Stopped => assert (i, ContextDone) in ErrorsOf(p.slots);
    }
    if e :| (i, e) in ErrorsOf(p.slots) {
      match e
      case CallFailed(text) => assert p.slots[i] == Failed(text);
      case ContextDone =>
    }
  }
}
