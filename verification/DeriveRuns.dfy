/** Derivation over the life of a journal: passes consume the delivered entries in
    batches, hold a batch back while a correction may still arrive, and replay it
    when the store fails.

    The scan that seeds a batch sees more than the reader delivers: a full record
    that lost only its line feed before its segment was succeeded is never delivered,
    yet the scan parses it.  Such a stray can anchor a correction. */
module DeriveRuns {
  import opened Wrappers
  import opened Derive
  import opened DeriveBatches

  // ----- what is on disk, delivered or stray -----

  datatype Line = Line(entry: Entry, delivered: bool)

  function All(lines: seq<Line>): seq<Entry> {
    seq(|lines|, i requires 0 <= i < |lines| => lines[i].entry)
  }

  function Delivered(lines: seq<Line>): seq<Entry> {
    if lines == [] then []
    else
      var last := lines[|lines| - 1];
      Delivered(lines[..|lines| - 1]) + if last.delivered then [last.entry] else []
  }

  lemma {:induction false} DeliveredAppend(a: seq<Line>, b: seq<Line>)
    ensures Delivered(a + b) == Delivered(a) + Delivered(b)
  {
    if b == [] {
      assert a + b == a;
    } else {
      assert (a + b)[..|a + b| - 1] == a + b[..|b| - 1];
      DeliveredAppend(a, b[..|b| - 1]);
    }
  }

  /** The family of the session's last recall, if it had one. */
  function LastFamily(entries: seq<Entry>, session: string): Option<string> {
    if entries == [] then None
    else if IsRecallOf(entries[|entries| - 1], session) then Some(entries[|entries| - 1].queryFamily)
    else LastFamily(entries[..|entries| - 1], session)
  }

  lemma {:induction false} FamiliesAreLast(entries: seq<Entry>, session: string)
    ensures session in Families(entries, map[]) <==> LastFamily(entries, session).Some?
    ensures session in Families(entries, map[]) ==>
      LastFamily(entries, session) == Some(Families(entries, map[])[session])
  {
    if entries != [] {
      FamiliesAreLast(entries[..|entries| - 1], session);
    }
  }

  lemma SeedsAgreeExactly(a: seq<Entry>, b: seq<Entry>, batch: seq<Entry>)
    ensures SeedFor(a, batch) == SeedFor(b, batch)
        <==> forall s :: s in ActiveSessions(batch) ==> LastFamily(a, s) == LastFamily(b, s)
  {
    hide Families, ActiveSessions;
    var seedA, seedB := SeedFor(a, batch), SeedFor(b, batch);
    forall s | s in ActiveSessions(batch)
      ensures LastFamily(a, s) == (if s in seedA then Some(seedA[s]) else None)
      ensures LastFamily(b, s) == (if s in seedB then Some(seedB[s]) else None)
    {
      FamiliesAreLast(a, s);
      FamiliesAreLast(b, s);
    }
    if forall s :: s in ActiveSessions(batch) ==> LastFamily(a, s) == LastFamily(b, s) {
      assert forall s :: s in seedA <==> s in seedB;
      assert forall s :: s in seedA ==> seedA[s] == seedB[s];
    }
  }

  /** Line `r` is a stray, the session's last recall, and names another family than
      the delivered recalls before it, if there are any. */
  predicate DecidesAlone(lines: seq<Line>, r: nat, session: string)
    requires r < |lines|
  {
    && !lines[r].delivered && IsRecallOf(lines[r].entry, session)
    && (forall k :: r < k < |lines| ==> !IsRecallOf(lines[k].entry, session))
    && LastFamily(Delivered(lines[..r]), session) != Some(lines[r].entry.queryFamily)
  }

  ghost predicate StrayDecides(lines: seq<Line>, session: string) {
    exists r :: 0 <= r < |lines| && DecidesAlone(lines, r, session)
  }

  lemma LastFamilyAppend(entries: seq<Entry>, e: Entry, session: string)
    ensures LastFamily(entries + [e], session)
         == if IsRecallOf(e, session) then Some(e.queryFamily) else LastFamily(entries, session)
  {
    assert (entries + [e])[..|entries|] == entries;
  }

  lemma LastDelivered(lines: seq<Line>)
    requires lines != []
    ensures var init, last := lines[..|lines| - 1], lines[|lines| - 1];
      && All(lines) == All(init) + [last.entry]
      && Delivered(lines) == if last.delivered then Delivered(init) + [last.entry] else Delivered(init)
  {
  }

  lemma AllButLast(lines: seq<Line>, session: string)
    requires lines != [] && !IsRecallOf(lines[|lines| - 1].entry, session)
    ensures var init := lines[..|lines| - 1];
      && LastFamily(All(lines), session) == LastFamily(All(init), session)
      && LastFamily(Delivered(lines), session) == LastFamily(Delivered(init), session)
      && (StrayDecides(lines, session) <==> StrayDecides(init, session))
  {
    hide IsRecallOf;
    var init, last := lines[..|lines| - 1], lines[|lines| - 1];
    LastDelivered(lines);
    LastFamilyAppend(All(init), last.entry, session);
    LastFamilyAppend(Delivered(init), last.entry, session);
    forall r | 0 <= r < |init| ensures DecidesAlone(lines, r, session) <==> DecidesAlone(init, r, session) {
      assert lines[..r] == init[..r];
    }
  }

  lemma LastRecallDecides(lines: seq<Line>, session: string)
    requires lines != [] && IsRecallOf(lines[|lines| - 1].entry, session)
    ensures var init, last := lines[..|lines| - 1], lines[|lines| - 1];
      StrayDecides(lines, session)
      <==> !last.delivered && LastFamily(Delivered(init), session) != Some(last.entry.queryFamily)
  {
    hide IsRecallOf, LastFamily, Delivered;
    assert forall r :: 0 <= r < |lines| - 1 ==> !DecidesAlone(lines, r, session);
    assert DecidesAlone(lines, |lines| - 1, session) ==> StrayDecides(lines, session);
  }

  /** The last family of all lines is that of the delivered ones exactly when no
      stray decides it. */
  lemma {:induction false} StrayDecidesExactly(lines: seq<Line>, session: string)
    ensures LastFamily(All(lines), session) == LastFamily(Delivered(lines), session) <==> !StrayDecides(lines, session)
  {
    hide IsRecallOf;
    if lines != [] {
      var init, last := lines[..|lines| - 1], lines[|lines| - 1];
      if !IsRecallOf(last.entry, session) {
        AllButLast(lines, session);
        StrayDecidesExactly(init, session);
      } else {
        hide StrayDecides, LastFamily, Delivered;
        LastDelivered(lines);
        LastFamilyAppend(All(init), last.entry, session);
        LastFamilyAppend(Delivered(init), last.entry, session);
        LastRecallDecides(lines, session);
      }
    }
  }

  ghost predicate NoStrayDecides(lines: seq<Line>, batch: seq<Entry>) {
    forall s :: s in ActiveSessions(batch) ==> !StrayDecides(lines, s)
  }

  /** The scan over everything on disk seeds a batch as the delivered entries would,
      exactly when no stray decides a session of the batch. */
  lemma ScanAgreesExactly(lines: seq<Line>, batch: seq<Entry>)
    ensures SeedFor(All(lines), batch) == SeedFor(Delivered(lines), batch) <==> NoStrayDecides(lines, batch)
  {
    hide SeedFor, ActiveSessions, StrayDecides, LastFamily;
    SeedsAgreeExactly(All(lines), Delivered(lines), batch);
    forall s ensures LastFamily(All(lines), s) == LastFamily(Delivered(lines), s) <==> !StrayDecides(lines, s) {
      StrayDecidesExactly(lines, s);
    }
  }

  // ----- what the scan does to anchors -----

  /** The scan names another family for the session than the delivered recalls do:
      a stray decides it, or the session is unnamed and the scan does not ask. */
  ghost predicate SeedDiffers(lines: seq<Line>, session: string) {
    if session == "" then LastFamily(Delivered(lines), "").Some? else StrayDecides(lines, session)
  }

  /** Some correction of the batch takes its anchor from the seed, and the scan gets
      it wrong. */
  ghost predicate Misanchors(lines: seq<Line>, batch: seq<Entry>, flagExists: FlagTree) {
    exists i :: 0 <= i < |batch| && TakesSeed(batch, i, flagExists) && SeedDiffers(lines, batch[i].session)
  }

  lemma {:induction false} LastFamilyIsNamed(entries: seq<Entry>, session: string)
    ensures LastFamily(entries, session) != Some("")
  {
    if entries != [] {
      LastFamilyIsNamed(entries[..|entries| - 1], session);
    }
  }

  lemma LookupIsLast(entries: seq<Entry>, session: string)
    ensures Lookup(Families(entries, map[]), session)
         == match LastFamily(entries, session) case Some(family) => family case None => ""
    ensures LastFamily(entries, session) != Some("")
  {
    hide Families, LastFamily;
    FamiliesAreLast(entries, session);
    LastFamilyIsNamed(entries, session);
  }

  lemma SeedDiffersExactly(lines: seq<Line>, batch: seq<Entry>, i: nat)
    requires i < |batch|
    ensures Lookup(SeedFor(All(lines), batch), batch[i].session)
         != Lookup(Families(Delivered(lines), map[]), batch[i].session)
        <==> SeedDiffers(lines, batch[i].session)
  {
    hide Families, LastFamily, StrayDecides;
    var session := batch[i].session;
    LookupIsLast(All(lines), session);
    LookupIsLast(Delivered(lines), session);
    StrayDecidesExactly(lines, session);
    assert session != "" ==> session in ActiveSessions(batch);
  }

  lemma MisanchorsExactly(lines: seq<Line>, batch: seq<Entry>, flagExists: FlagTree)
    ensures AnchorsAgree(batch, SeedFor(All(lines), batch), Families(Delivered(lines), map[]), flagExists)
       <==> !Misanchors(lines, batch, flagExists)
  {
    hide SeedFor, Families, SeedDiffers, TakesSeed, Lookup;
    forall i | 0 <= i < |batch|
      ensures Lookup(SeedFor(All(lines), batch), batch[i].session)
           != Lookup(Families(Delivered(lines), map[]), batch[i].session)
          <==> SeedDiffers(lines, batch[i].session)
    {
      SeedDiffersExactly(lines, batch, i);
    }
  }

  /** Everything a pass derives from the batch after `before`. */
  ghost function PassPairs(before: seq<Line>, batch: seq<Entry>, flagExists: FlagTree): seq<Correction> {
    Pairs(batch, SeedFor(All(before), batch), flagExists)
  }

  /** Deriving the delivered entries of `a` and then `b`, seeded by the scan, gives
      what one pass over both gives: up to anchors exactly when no failure of `a` is
      corrected only by `b`, and with them exactly when moreover the scan gets no
      anchor wrong. */
  lemma BatchingWithStrays(a: seq<Line>, b: seq<Entry>, flagExists: FlagTree)
    ensures var whole := Pairs(Delivered(a) + b, map[], flagExists);
      var first, second := Pairs(Delivered(a), map[], flagExists), PassPairs(a, b, flagExists);
      && (WithoutAnchors(whole) == WithoutAnchors(first) + WithoutAnchors(second)
          <==> NothingLate(Delivered(a), b, flagExists))
      && (whole == first + second
          <==> NothingLate(Delivered(a), b, flagExists) && !Misanchors(a, b, flagExists))
  {
    hide Pairs, NothingLate, AnchorsAgree, Misanchors, SeedFor, Families, WithoutAnchors, Delivered, All;
    SplitsExactly(Delivered(a), b, SeedFor(All(a), b), flagExists);
    MisanchorsExactly(a, b, flagExists);
  }

  // ----- whole lives of the journal -----

  datatype World = World(lines: seq<Line>, offset: nat, recorded: seq<Correction>)

  /** `failAt` is the first store call that fails, counting the recorded
      corrections and, last, the new offset.  Neither clock nor stamps are
      restricted. */
  datatype Event =
    | Append(line: Line)
    | Pass(now: int, failAt: Option<nat>)

  function Cut(w: World): nat {
    if w.offset <= |w.lines| then w.offset else |w.lines|
  }

  function Before(w: World): seq<Line> { w.lines[..Cut(w)] }

  function Consumed(w: World): seq<Entry> { Delivered(Before(w)) }

  function Batch(w: World): seq<Entry> { Delivered(w.lines[Cut(w)..]) }

  ghost function BatchPairs(w: World, flagExists: FlagTree): seq<Correction> {
    PassPairs(Before(w), Batch(w), flagExists)
  }

  /** What one pass over the consumed entries derives. */
  ghost function Done(w: World, flagExists: FlagTree): seq<Correction> {
    Pairs(Consumed(w), map[], flagExists)
  }

  /** A held batch changes nothing; a failed pass records a prefix and keeps the
      offset; a successful one records everything and moves on. */
  ghost function Next(w: World, event: Event, flagExists: FlagTree): World {
    match event
    case Append(line) => w.(lines := w.lines + [line])
    case Pass(now, failAt) =>
      var pairs := BatchPairs(w, flagExists);
      if Pending(Batch(w), now, flagExists) then w
      else if failAt.Some? && failAt.value <= |pairs| then w.(recorded := w.recorded + pairs[..failAt.value])
      else w.(offset := |w.lines|, recorded := w.recorded + pairs)
  }

  ghost function Exec(w: World, run: seq<Event>, flagExists: FlagTree): World
    decreases |run|
  {
    if run == [] then w else Exec(Next(w, run[0], flagExists), run[1..], flagExists)
  }

  const EMPTY: World := World([], 0, [])

  // ----- what can go wrong in a pass -----

  /** It gets past its first store call and fails at a later one; it commits a batch
      that corrects a failure consumed before; or it records an anchor that the scan
      gets wrong. */
  datatype Fault = Midway | TooLate | Misanchored

  ghost predicate PassIsFaulty(before: seq<Line>, batch: seq<Entry>, now: int, failAt: Option<nat>, fault: Fault,
                               flagExists: FlagTree)
  {
    var n := |PassPairs(before, batch, flagExists)|;
    && !Pending(batch, now, flagExists)
    && match fault
       case Midway => failAt.Some? && 0 < failAt.value <= n
       case TooLate => (failAt.Some? ==> failAt.value > n) && !NothingLate(Delivered(before), batch, flagExists)
       case Misanchored => failAt != Some(0) && Misanchors(before, batch, flagExists)
  }

  /** Corrections a pass records that its replay records again. */
  ghost function PassRepeats(before: seq<Line>, batch: seq<Entry>, now: int, failAt: Option<nat>,
                             flagExists: FlagTree): nat
  {
    if PassIsFaulty(before, batch, now, failAt, Midway, flagExists) then failAt.value else 0
  }

  /** Failures given up before, which the committed batch corrects. */
  ghost function PassMisses(before: seq<Line>, batch: seq<Entry>, now: int, failAt: Option<nat>,
                            flagExists: FlagTree): nat
  {
    if PassIsFaulty(before, batch, now, failAt, TooLate, flagExists) then Late(Delivered(before), batch, flagExists)
    else 0
  }

  ghost predicate IsFaulty(w: World, event: Event, fault: Fault, flagExists: FlagTree) {
    event.Pass? && PassIsFaulty(Before(w), Batch(w), event.now, event.failAt, fault, flagExists)
  }

  ghost predicate Never(w: World, run: seq<Event>, fault: Fault, flagExists: FlagTree)
    decreases |run|
  {
    run != [] ==>
      && !IsFaulty(w, run[0], fault, flagExists)
      && Never(Next(w, run[0], flagExists), run[1..], fault, flagExists)
  }

  ghost function RepeatedIn(w: World, event: Event, flagExists: FlagTree): nat {
    match event
    case Append(_) => 0
    case Pass(now, failAt) => PassRepeats(Before(w), Batch(w), now, failAt, flagExists)
  }

  ghost function MissedIn(w: World, event: Event, flagExists: FlagTree): nat {
    match event
    case Append(_) => 0
    case Pass(now, failAt) => PassMisses(Before(w), Batch(w), now, failAt, flagExists)
  }

  ghost function Repeated(w: World, run: seq<Event>, flagExists: FlagTree): nat
    decreases |run|
  {
    if run == [] then 0
    else RepeatedIn(w, run[0], flagExists) + Repeated(Next(w, run[0], flagExists), run[1..], flagExists)
  }

  ghost function Missed(w: World, run: seq<Event>, flagExists: FlagTree): nat
    decreases |run|
  {
    if run == [] then 0
    else MissedIn(w, run[0], flagExists) + Missed(Next(w, run[0], flagExists), run[1..], flagExists)
  }

  // ----- one step -----

  lemma DeliveredGrows(lines: seq<Line>, line: Line)
    ensures Delivered(lines + [line]) == Delivered(lines) + if line.delivered then [line.entry] else []
  {
    assert (lines + [line])[..|lines|] == lines;
  }

  lemma AppendConsumesNothing(w: World, line: Line, flagExists: FlagTree)
    requires w.offset <= |w.lines|
    ensures Consumed(Next(w, Append(line), flagExists)) == Consumed(w)
  {
    hide Delivered;
    assert (w.lines + [line])[..w.offset] == w.lines[..w.offset];
  }

  lemma ConsumedThenBatch(w: World)
    ensures Delivered(w.lines) == Consumed(w) + Batch(w)
  {
    hide Delivered;
    DeliveredAppend(w.lines[..Cut(w)], w.lines[Cut(w)..]);
    assert w.lines[..Cut(w)] + w.lines[Cut(w)..] == w.lines;
  }

  ghost predicate Commits(w: World, event: Event, flagExists: FlagTree) {
    && event.Pass? && !Pending(Batch(w), event.now, flagExists)
    && (event.failAt.Some? ==> event.failAt.value > |BatchPairs(w, flagExists)|)
  }

  /** What a step records and consumes. */
  lemma StepIs(w: World, event: Event, flagExists: FlagTree)
    requires w.offset <= |w.lines|
    ensures var w' := Next(w, event, flagExists);
      && w'.offset <= |w'.lines|
      && (Commits(w, event, flagExists) ==>
            Consumed(w') == Consumed(w) + Batch(w) && w'.recorded == w.recorded + BatchPairs(w, flagExists))
      && (!Commits(w, event, flagExists) ==>
            && Consumed(w') == Consumed(w)
            && w'.recorded == w.recorded + BatchPairs(w, flagExists)[..RepeatedIn(w, event, flagExists)])
    ensures Commits(w, event, flagExists) ==> RepeatedIn(w, event, flagExists) == 0
  {
    hide PassPairs, Pending, Delivered, Misanchors, NothingLate;
    match event {
      case Append(line) =>
        AppendConsumesNothing(w, line, flagExists);
        assert w.recorded + [] == w.recorded;
      case Pass(_, _) =>
        ConsumedThenBatch(w);
        assert w.lines[..|w.lines|] == w.lines;
    }
  }

  lemma CommitsTooLate(w: World, event: Event, flagExists: FlagTree)
    ensures IsFaulty(w, event, TooLate, flagExists)
       <==> Commits(w, event, flagExists) && !NothingLate(Consumed(w), Batch(w), flagExists)
  {
  }

  /** The exact balance of a step. */
  lemma StepCounts(w: World, event: Event, flagExists: FlagTree)
    requires w.offset <= |w.lines|
    ensures var w' := Next(w, event, flagExists);
      && |w'.recorded| - |Done(w', flagExists)| + MissedIn(w, event, flagExists)
      == |w.recorded| - |Done(w, flagExists)| + RepeatedIn(w, event, flagExists)
    ensures MissedIn(w, event, flagExists) > 0 <==> IsFaulty(w, event, TooLate, flagExists)
    ensures RepeatedIn(w, event, flagExists) > 0 <==> IsFaulty(w, event, Midway, flagExists)
  {
    hide Pairs, Next, Consumed, Batch, Commits, SeedFor, Late, RepeatedIn, MissedIn, IsFaulty, NothingLate,
         WithoutAnchors, AnchorsAgree;
    StepIs(w, event, flagExists);
    CommitsTooLate(w, event, flagExists);
    FaultsCount(w, event, flagExists);
    assert |BatchPairs(w, flagExists)[..0]| == 0;
    LateIsCounted(Consumed(w), Batch(w), flagExists);
    SplitsExactly(Consumed(w), Batch(w), SeedFor(All(Before(w)), Batch(w)), flagExists);
  }

  lemma FaultsCount(w: World, event: Event, flagExists: FlagTree)
    ensures MissedIn(w, event, flagExists)
         == if IsFaulty(w, event, TooLate, flagExists) then Late(Consumed(w), Batch(w), flagExists) else 0
    ensures RepeatedIn(w, event, flagExists) > 0 <==> IsFaulty(w, event, Midway, flagExists)
    ensures RepeatedIn(w, event, flagExists) <= |BatchPairs(w, flagExists)|
  {
    hide PassPairs, Pending, Misanchors, NothingLate, Delivered;
  }

  lemma LateIsCounted(a: seq<Entry>, b: seq<Entry>, flagExists: FlagTree)
    ensures Late(a, b, flagExists) == 0 <==> NothingLate(a, b, flagExists)
  {
    NoneIsLate(a, b, |a|, flagExists);
  }

  /** A step that neither fails midway nor comes too late adds to what is recorded
      and to what is derived from the consumed entries the same, up to anchors; and
      the very same exactly when it gets no anchor wrong. */
  lemma StepAdds(w: World, event: Event, flagExists: FlagTree) returns (r: seq<Correction>, d: seq<Correction>)
    requires w.offset <= |w.lines|
    requires !IsFaulty(w, event, Midway, flagExists) && !IsFaulty(w, event, TooLate, flagExists)
    ensures Next(w, event, flagExists).recorded == w.recorded + r
    ensures Done(Next(w, event, flagExists), flagExists) == Done(w, flagExists) + d
    ensures WithoutAnchors(r) == WithoutAnchors(d) && (r == d <==> !IsFaulty(w, event, Misanchored, flagExists))
  {
    hide Pairs, Next, WithoutAnchors, Consumed, Batch, Families, SeedFor, NothingLate, Misanchors, AnchorsAgree;
    StepIs(w, event, flagExists);
    if Commits(w, event, flagExists) {
      var seed, all := SeedFor(All(Before(w)), Batch(w)), Families(Consumed(w), map[]);
      r, d := BatchPairs(w, flagExists), Pairs(Batch(w), all, flagExists);
      SplitsExactly(Consumed(w), Batch(w), seed, flagExists);
      SeedsAnchor(Batch(w), seed, all, flagExists);
      ConsumedIs(w);
      MisanchorsExactly(Before(w), Batch(w), flagExists);
    } else {
      r, d := [], [];
      assert BatchPairs(w, flagExists)[..0] == [];
      NotCommitted(w, event, flagExists);
    }
  }

  lemma ConsumedIs(w: World)
    ensures Consumed(w) == Delivered(Before(w))
  {
  }

  lemma SeedsAnchor(b: seq<Entry>, s: map<string, string>, t: map<string, string>, flagExists: FlagTree)
    ensures WithoutAnchors(Pairs(b, s, flagExists)) == WithoutAnchors(Pairs(b, t, flagExists))
    ensures Pairs(b, s, flagExists) == Pairs(b, t, flagExists) <==> AnchorsAgree(b, s, t, flagExists)
  {
    hide PairsUpTo, TakesSeed, Lookup, WithoutAnchors;
    SeedsDecideAnchors(b, |b|, s, t, flagExists);
  }

  /** A batch without corrections takes no anchor from its seed. */
  lemma NotCommitted(w: World, event: Event, flagExists: FlagTree)
    requires !Commits(w, event, flagExists) && !IsFaulty(w, event, Midway, flagExists)
    ensures !IsFaulty(w, event, Misanchored, flagExists)
  {
    hide PassPairs, Pending, Misanchors, NothingLate, Delivered;
  }

  // ----- whole runs -----

  lemma {:induction false} ExecSplits(w: World, head: seq<Event>, tail: seq<Event>, flagExists: FlagTree)
    ensures Exec(w, head + tail, flagExists) == Exec(Exec(w, head, flagExists), tail, flagExists)
    decreases |head|
  {
    hide Next;
    if head == [] {
      assert head + tail == tail;
    } else {
      assert (head + tail)[1..] == head[1..] + tail;
      ExecSplits(Next(w, head[0], flagExists), head[1..], tail, flagExists);
    }
  }

  function Appends(lines: seq<Line>): seq<Event> {
    seq(|lines|, i requires 0 <= i < |lines| => Append(lines[i]))
  }

  lemma {:induction false} AppendLines(w: World, lines: seq<Line>, flagExists: FlagTree)
    ensures Exec(w, Appends(lines), flagExists) == w.(lines := w.lines + lines)
    decreases |lines|
  {
    if lines == [] {
      assert w.lines + [] == w.lines;
    } else {
      var next := w.(lines := w.lines + [lines[0]]);
      assert Appends(lines)[1..] == Appends(lines[1..]);
      AppendLines(next, lines[1..], flagExists);
      assert w.lines + [lines[0]] + lines[1..] == w.lines + lines;
    }
  }

  /** Appends alone have no fault. */
  lemma {:induction false} FaultsAfterAppends(w: World, lines: seq<Line>, rest: seq<Event>, flagExists: FlagTree)
    ensures var run, w' := Appends(lines) + rest, w.(lines := w.lines + lines);
      && (forall fault :: Never(w, run, fault, flagExists) <==> Never(w', rest, fault, flagExists))
      && Repeated(w, run, flagExists) == Repeated(w', rest, flagExists)
      && Missed(w, run, flagExists) == Missed(w', rest, flagExists)
    decreases |lines|
  {
    if lines == [] {
      assert Appends(lines) + rest == rest && w.lines + [] == w.lines;
    } else {
      var next := w.(lines := w.lines + [lines[0]]);
      assert (Appends(lines) + rest)[1..] == Appends(lines[1..]) + rest;
      FaultsAfterAppends(next, lines[1..], rest, flagExists);
      assert w.lines + [lines[0]] + lines[1..] == w.lines + lines;
    }
  }

  lemma {:induction false} RunCounts(w: World, run: seq<Event>, flagExists: FlagTree)
    requires w.offset <= |w.lines|
    ensures var end := Exec(w, run, flagExists);
      && |end.recorded| - |Done(end, flagExists)| + Missed(w, run, flagExists)
      == |w.recorded| - |Done(w, flagExists)| + Repeated(w, run, flagExists)
    ensures Missed(w, run, flagExists) == 0 <==> Never(w, run, TooLate, flagExists)
    ensures Repeated(w, run, flagExists) == 0 <==> Never(w, run, Midway, flagExists)
    decreases |run|
  {
    hide Next, Done, IsFaulty, RepeatedIn, MissedIn;
    if run != [] {
      StepIs(w, run[0], flagExists);
      StepCounts(w, run[0], flagExists);
      RunCounts(Next(w, run[0], flagExists), run[1..], flagExists);
    }
  }

  lemma NeverUnfolds(w: World, run: seq<Event>, flagExists: FlagTree)
    ensures forall fault :: Never(w, run, fault, flagExists) <==>
      run != [] ==> !IsFaulty(w, run[0], fault, flagExists)
                    && Never(Next(w, run[0], flagExists), run[1..], fault, flagExists)
    ensures Exec(w, run, flagExists)
         == if run == [] then w else Exec(Next(w, run[0], flagExists), run[1..], flagExists)
  {
    hide Next, IsFaulty;
  }

  lemma AddedInTurn(r1: seq<Correction>, r2: seq<Correction>, d1: seq<Correction>, d2: seq<Correction>)
    requires WithoutAnchors(r1) == WithoutAnchors(d1) && WithoutAnchors(r2) == WithoutAnchors(d2)
    ensures WithoutAnchors(r1 + r2) == WithoutAnchors(d1 + d2)
    ensures r1 + r2 == d1 + d2 <==> r1 == d1 && r2 == d2
  {
    hide WithoutAnchors;
    WithoutAnchorsAppend(r1, r2);
    WithoutAnchorsAppend(d1, d2);
    SameSize(r1);
    SameSize(d1);
    Cancel(r1, r2, d1, d2);
  }

  lemma {:induction false} RunAdds(w: World, run: seq<Event>, flagExists: FlagTree)
    returns (r: seq<Correction>, d: seq<Correction>)
    requires w.offset <= |w.lines| && Never(w, run, Midway, flagExists) && Never(w, run, TooLate, flagExists)
    ensures Exec(w, run, flagExists).recorded == w.recorded + r
    ensures Done(Exec(w, run, flagExists), flagExists) == Done(w, flagExists) + d
    ensures WithoutAnchors(r) == WithoutAnchors(d) && (r == d <==> Never(w, run, Misanchored, flagExists))
    decreases |run|
  {
    hide Next, Done, IsFaulty, WithoutAnchors, RepeatedIn, Never, Exec;
    r, d := [], [];
    NeverUnfolds(w, run, flagExists);
    if run != [] {
      var w' := Next(w, run[0], flagExists);
      StepIs(w, run[0], flagExists);
      var r1, d1 := StepAdds(w, run[0], flagExists);
      var r2, d2 := RunAdds(w', run[1..], flagExists);
      r, d := r1 + r2, d1 + d2;
      AddedInTurn(r1, r2, d1, d2);
      assert w.recorded + r1 + r2 == w.recorded + r && Done(w, flagExists) + d1 + d2 == Done(w, flagExists) + d;
    }
  }

  /** Whatever the batches were and however the entries were stamped: what is
      recorded is, up to anchors and in order, what one pass over everything consumed
      derives, if and only if no pass failed midway and none came too late; and it is
      the very same if and only if moreover none got an anchor wrong.  Only when both
      of the first two happen can they make up for each other; the balance of the
      numbers holds always. */
  lemma BatchesDeriveWhatOnePassWould(run: seq<Event>, flagExists: FlagTree)
    ensures var w := Exec(EMPTY, run, flagExists);
      var done := Done(w, flagExists);
      var midway, late := !Never(EMPTY, run, Midway, flagExists), !Never(EMPTY, run, TooLate, flagExists);
      && |w.recorded| + Missed(EMPTY, run, flagExists) == |done| + Repeated(EMPTY, run, flagExists)
      && (midway <==> Repeated(EMPTY, run, flagExists) > 0) && (late <==> Missed(EMPTY, run, flagExists) > 0)
      && (!(midway && late) ==>
            && (WithoutAnchors(w.recorded) == WithoutAnchors(done) <==> !midway && !late)
            && (w.recorded == done <==> !midway && !late && Never(EMPTY, run, Misanchored, flagExists)))
  {
    hide Exec, Never, Missed, Repeated, WithoutAnchors, Done;
    NothingDone(flagExists);
    RunCounts(EMPTY, run, flagExists);
    var w := Exec(EMPTY, run, flagExists);
    SameSize(w.recorded);
    SameSize(Done(w, flagExists));
    if Never(EMPTY, run, Midway, flagExists) && Never(EMPTY, run, TooLate, flagExists) {
      var r, d := RunAdds(EMPTY, run, flagExists);
      assert [] + r == r && [] + d == d;
    }
  }

  lemma NothingDone(flagExists: FlagTree)
    ensures Done(EMPTY, flagExists) == []
  {
  }

  /** How many more corrections are recorded than the consumed entries derive. */
  ghost function Surplus(w: World, flagExists: FlagTree): int {
    |w.recorded| - |Done(w, flagExists)|
  }

  /** The surplus grows exactly in a pass that fails after its first store call, and
      falls exactly in one that commits a batch correcting a failure given up before. */
  lemma SurplusChangesExactly(w: World, event: Event, flagExists: FlagTree)
    requires w.offset <= |w.lines|
    ensures var before, after := Surplus(w, flagExists), Surplus(Next(w, event, flagExists), flagExists);
      && (after > before <==> IsFaulty(w, event, Midway, flagExists))
      && (after < before <==> IsFaulty(w, event, TooLate, flagExists))
  {
    hide Done, Next, PassIsFaulty;
    StepCounts(w, event, flagExists);
    NotBoth(w, event, flagExists);
  }

  lemma NotBoth(w: World, event: Event, flagExists: FlagTree)
    ensures !(IsFaulty(w, event, Midway, flagExists) && IsFaulty(w, event, TooLate, flagExists))
  {
    hide PassPairs, Pending, NothingLate;
  }

  // ----- which corrections are recorded -----

  /** Is the correction among these, up to its anchor or, when `exact`, as it is? */
  predicate Among(c: Correction, cs: seq<Correction>, exact: bool) {
    exists k :: 0 <= k < |cs| && WithoutAnchor(cs[k]) == WithoutAnchor(c) && (exact ==> cs[k] == c)
  }

  ghost predicate AllAmong(cs: seq<Correction>, ds: seq<Correction>, exact: bool) {
    forall k :: 0 <= k < |cs| ==> Among(cs[k], ds, exact)
  }

  lemma SameAreAmong(cs: seq<Correction>, ds: seq<Correction>, exact: bool)
    requires WithoutAnchors(cs) == WithoutAnchors(ds) && (exact ==> cs == ds)
    ensures AllAmong(cs, ds, exact)
  {
    SameSize(cs);
    SameSize(ds);
    forall k | 0 <= k < |cs| ensures Among(cs[k], ds, exact) {
      assert WithoutAnchors(cs)[k] == WithoutAnchor(cs[k]) && WithoutAnchors(ds)[k] == WithoutAnchor(ds[k]);
    }
  }

  lemma AmongMore(cs: seq<Correction>, ds: seq<Correction>, more: seq<Correction>, exact: bool)
    requires AllAmong(cs, ds, exact) && forall c :: c in ds ==> c in more
    ensures AllAmong(cs, more, exact)
  {
    forall k | 0 <= k < |cs| ensures Among(cs[k], more, exact) {
      assert Among(cs[k], ds, exact);
      var j :| 0 <= j < |ds| && WithoutAnchor(ds[j]) == WithoutAnchor(cs[k]) && (exact ==> ds[j] == cs[k]);
      assert ds[j] in ds && ds[j] in more;
      var m :| 0 <= m < |more| && more[m] == ds[j];
    }
  }

  lemma AmongBoth(a: seq<Correction>, b: seq<Correction>, ds: seq<Correction>, exact: bool)
    requires AllAmong(a, ds, exact) && AllAmong(b, ds, exact)
    ensures AllAmong(a + b, ds, exact)
  {
    hide Among;
  }

  lemma AmongPrefix(cs: seq<Correction>, n: nat, ds: seq<Correction>, exact: bool)
    requires n <= |cs| && AllAmong(cs, ds, exact)
    ensures AllAmong(cs[..n], ds, exact)
  {
    hide Among;
  }

  /** What a batch yields is among what one pass over everything so far yields. */
  lemma BatchIsAmong(w: World, exact: bool, flagExists: FlagTree)
    requires exact ==> !Misanchors(Before(w), Batch(w), flagExists)
    ensures var all := Pairs(Batch(w), Families(Consumed(w), map[]), flagExists);
      && AllAmong(BatchPairs(w, flagExists), all, exact) && AllAmong(all, BatchPairs(w, flagExists), exact)
      && AllAmong(BatchPairs(w, flagExists), Pairs(Delivered(w.lines), map[], flagExists), exact)
  {
    hide PairsUpTo, Families, SeedFor, Misanchors, AnchorsAgree, Delivered, AllAmong, WithoutAnchors;
    var a, b := Consumed(w), Batch(w);
    var seed, families := SeedFor(All(Before(w)), b), Families(Consumed(w), map[]);
    SeedsAnchor(b, seed, families, flagExists);
    MisanchorsExactly(Before(w), b, flagExists);
    SameAreAmong(BatchPairs(w, flagExists), Pairs(b, families, flagExists), exact);
    SameAreAmong(Pairs(b, families, flagExists), BatchPairs(w, flagExists), exact);
    ConsumedThenBatch(w);
    SecondPart(a, b, |b|, flagExists);
    AmongMore(BatchPairs(w, flagExists), Pairs(b, families, flagExists),
              Pairs(a + b, map[], flagExists), exact);
  }

  ghost predicate NoneInvented(w: World, exact: bool, flagExists: FlagTree) {
    AllAmong(w.recorded, Pairs(Delivered(w.lines), map[], flagExists), exact)
  }

  ghost predicate NoneMissing(w: World, exact: bool, flagExists: FlagTree) {
    AllAmong(Done(w, flagExists), w.recorded, exact)
  }

  lemma AppendInventsNone(w: World, line: Line, exact: bool, flagExists: FlagTree)
    requires NoneInvented(w, exact, flagExists)
    ensures NoneInvented(Next(w, Append(line), flagExists), exact, flagExists)
  {
    hide PairsUpTo, AllAmong, Delivered;
    DeliveredGrows(w.lines, line);
    var before, news := Delivered(w.lines), if line.delivered then [line.entry] else [];
    var after := before + news;
    forall c | c in Pairs(before, map[], flagExists) ensures c in Pairs(after, map[], flagExists) {
      PairsGrow(before, news, |before|, flagExists, c);
      PairsUpToGrow(after, |before|, |after|, flagExists);
    }
    AmongMore(w.recorded, Pairs(before, map[], flagExists), Pairs(after, map[], flagExists), exact);
  }

  lemma StepInventsNone(w: World, event: Event, exact: bool, flagExists: FlagTree)
    requires w.offset <= |w.lines| && NoneInvented(w, exact, flagExists)
    requires exact ==> !IsFaulty(w, event, Misanchored, flagExists)
    ensures NoneInvented(Next(w, event, flagExists), exact, flagExists)
  {
    hide Pairs, BatchPairs, AllAmong, Delivered, Pending, Misanchors, Batch, Before, NothingLate;
    match event {
      case Append(line) => AppendInventsNone(w, line, exact, flagExists);
      case Pass(now, failAt) =>
        var pairs := BatchPairs(w, flagExists);
        if !Pending(Batch(w), now, flagExists) && failAt != Some(0) {
          BatchIsAmong(w, exact, flagExists);
          var n := if failAt.Some? && failAt.value <= |pairs| then failAt.value else |pairs|;
          var all := Pairs(Delivered(w.lines), map[], flagExists);
          AmongPrefix(pairs, n, all, exact);
          AmongBoth(w.recorded, pairs[..n], all, exact);
          assert pairs[..|pairs|] == pairs;
        } else {
          assert w.recorded + pairs[..0] == w.recorded;
        }
    }
  }

  lemma StepMissesNone(w: World, event: Event, exact: bool, flagExists: FlagTree)
    requires w.offset <= |w.lines| && NoneMissing(w, exact, flagExists)
    requires !IsFaulty(w, event, TooLate, flagExists)
    requires exact ==> !IsFaulty(w, event, Misanchored, flagExists)
    ensures NoneMissing(Next(w, event, flagExists), exact, flagExists)
  {
    hide Pairs, BatchPairs, AllAmong, Pending, Misanchors, Batch, Before, NothingLate, Next, Families, Consumed,
         SeedFor;
    var w' := Next(w, event, flagExists);
    StepIs(w, event, flagExists);
    CommitsTooLate(w, event, flagExists);
    AmongMore(Done(w, flagExists), w.recorded, w'.recorded, exact);
    if Commits(w, event, flagExists) {
      var a, b := Consumed(w), Batch(w);
      CommitAnchors(w, event, flagExists);
      BatchIsAmong(w, exact, flagExists);
      SplitsExactly(a, b, map[], flagExists);
      var added := Pairs(b, Families(a, map[]), flagExists);
      AmongMore(added, BatchPairs(w, flagExists), w'.recorded, exact);
      AmongBoth(Done(w, flagExists), added, w'.recorded, exact);
    }
  }

  lemma CommitAnchors(w: World, event: Event, flagExists: FlagTree)
    requires Commits(w, event, flagExists)
    ensures IsFaulty(w, event, Misanchored, flagExists) <==> Misanchors(Before(w), Batch(w), flagExists)
  {
    hide PassPairs, Pending, Misanchors, NothingLate, Delivered;
  }

  lemma {:induction false} RunKeepsRecord(w: World, run: seq<Event>, exact: bool, flagExists: FlagTree)
    requires w.offset <= |w.lines| && (exact ==> Never(w, run, Misanchored, flagExists))
    ensures NoneInvented(w, exact, flagExists) ==> NoneInvented(Exec(w, run, flagExists), exact, flagExists)
    ensures NoneMissing(w, exact, flagExists) && Never(w, run, TooLate, flagExists) ==>
      NoneMissing(Exec(w, run, flagExists), exact, flagExists)
    decreases |run|
  {
    hide Next, IsFaulty, NoneInvented, NoneMissing, RepeatedIn;
    if run != [] {
      StepIs(w, run[0], flagExists);
      if NoneInvented(w, exact, flagExists) {
        StepInventsNone(w, run[0], exact, flagExists);
      }
      if NoneMissing(w, exact, flagExists) && !IsFaulty(w, run[0], TooLate, flagExists) {
        StepMissesNone(w, run[0], exact, flagExists);
      }
      RunKeepsRecord(Next(w, run[0], flagExists), run[1..], exact, flagExists);
    }
  }

  /** With failing passes too: nothing is recorded that one pass over everything
      delivered would not derive, and as long as no pass came too late nothing is
      missing that one pass over everything consumed derives; with the anchors as
      long as none was wrong. */
  lemma FailedPassesLoseNothing(run: seq<Event>, flagExists: FlagTree)
    ensures var w, exact := Exec(EMPTY, run, flagExists), Never(EMPTY, run, Misanchored, flagExists);
      && AllAmong(w.recorded, Pairs(Delivered(w.lines), map[], flagExists), exact)
      && (Never(EMPTY, run, TooLate, flagExists) ==> AllAmong(Done(w, flagExists), w.recorded, exact))
  {
    hide Exec, Never, Done, Pairs, Delivered;
    NothingDone(flagExists);
    RunKeepsRecord(EMPTY, run, Never(EMPTY, run, Misanchored, flagExists), flagExists);
  }

  // ----- instances -----

  lemma Waiting(w: World, before: seq<Line>, news: seq<Line>)
    requires w.lines == before + news && w.offset == |before|
    ensures Before(w) == before && Batch(w) == Delivered(news)
  {
    hide Delivered;
    assert w.lines[..w.offset] == before && w.lines[w.offset..] == news;
  }

  lemma DeliveredOf(a: Entry, b: Entry, c: Entry)
    ensures Delivered([Line(a, true)]) == [a] && Delivered([Line(a, true), Line(b, true)]) == [a, b]
    ensures Delivered([Line(a, true), Line(b, true), Line(c, true)]) == [a, b, c]
    ensures Delivered([Line(a, false)]) == []
  {
    var x, y, z := Line(a, true), Line(b, true), Line(c, true);
    assert [x][..0] == [] && [x, y][..1] == [x] && [x, y, z][..2] == [x, y];
    assert Delivered([x]) == [a] && Delivered([x, y]) == [a, b];
    assert [Line(a, false)][..0] == [];
  }

  lemma ExecTwo(w: World, a: Event, b: Event, flagExists: FlagTree)
    ensures Exec(w, [a, b], flagExists) == Next(Next(w, a, flagExists), b, flagExists)
    ensures Exec(w, [b], flagExists) == Next(w, b, flagExists)
  {
    hide Next;
    assert [a, b][1..] == [b] && [b][1..] == [];
    var w' := Next(w, a, flagExists);
    assert Exec(w', [b], flagExists) == Exec(Next(w', b, flagExists), [], flagExists) == Next(w', b, flagExists);
  }

  /** A run without the fault has it at no event. */
  lemma {:induction false} NeverMeansNowhere(w: World, head: seq<Event>, event: Event, tail: seq<Event>, fault: Fault,
                                             flagExists: FlagTree)
    requires Never(w, head + [event] + tail, fault, flagExists)
    ensures !IsFaulty(Exec(w, head, flagExists), event, fault, flagExists)
    decreases |head|
  {
    hide Next, IsFaulty;
    var run := head + [event] + tail;
    if head != [] {
      assert run[1..] == head[1..] + [event] + tail;
      NeverMeansNowhere(Next(w, head[0], flagExists), head[1..], event, tail, fault, flagExists);
    }
  }

  /** A pass that cannot store its offset, and its replay. */
  lemma PassAndReplay(w: World, before: seq<Line>, news: seq<Line>, now: int, c: Correction, flagExists: FlagTree)
    requires w.lines == before + news && w.offset == |before|
    requires !Pending(Delivered(news), now, flagExists) && PassPairs(before, Delivered(news), flagExists) == [c]
    ensures IsFaulty(w, Pass(now, Some(1)), Midway, flagExists)
    ensures Exec(w, [Pass(now, Some(1)), Pass(now, None)], flagExists)
         == World(w.lines, |w.lines|, w.recorded + [c, c])
    ensures Exec(w, [Pass(now, None)], flagExists) == World(w.lines, |w.lines|, w.recorded + [c])
  {
    hide Pending, PassPairs, Misanchors, NothingLate, Delivered;
    Waiting(w, before, news);
    var w' := w.(recorded := w.recorded + [c]);
    assert [c][..1] == [c];
    assert Next(w, Pass(now, Some(1)), flagExists) == w';
    Waiting(w', before, news);
    ExecTwo(w, Pass(now, Some(1)), Pass(now, None), flagExists);
    assert w.recorded + [c] + [c] == w.recorded + [c, c];
  }

  lemma PairWaits(before: seq<Line>, now: int)
    ensures var news := [Line(Mistake(), true), Line(Correctly(), true)];
      && Delivered(news) == [Mistake(), Correctly()] && !Pending(Delivered(news), now, _ => false)
      && PassPairs(before, Delivered(news), _ => false)
      == [TheirCorrection(Lookup(SeedFor(All(before), [Mistake(), Correctly()]), "s"))]
  {
    hide Pairs, Pending, SeedFor, Lookup, Mistake, Correctly, Delivered;
    DeliveredOf(Mistake(), Correctly(), Mistake());
    PairIsDecided(now);
    TogetherTheyPair(SeedFor(All(before), [Mistake(), Correctly()]));
  }

  /** A pass that records the correction and then cannot store its offset, and its
      replay: the same correction is recorded twice. */
  lemma FailedPassRecordsTwice(now: int)
    ensures var run := Appends([Line(Mistake(), true), Line(Correctly(), true)])
                       + [Pass(now, Some(1)), Pass(now, None)];
      var w := Exec(EMPTY, run, _ => false);
      && w.offset == 2 && w.recorded == [TheirCorrection(""), TheirCorrection("")]
      && Done(w, _ => false) == [TheirCorrection("")]
  {
    hide Exec, SeedFor, PassPairs, Mistake, Correctly, TheirCorrection, Delivered, Pairs, Lookup;
    var flagExists: FlagTree := _ => false;
    var news := [Line(Mistake(), true), Line(Correctly(), true)];
    ExecSplits(EMPTY, Appends(news), [Pass(now, Some(1)), Pass(now, None)], flagExists);
    AppendLines(EMPTY, news, flagExists);
    var w := World(news, 0, []);
    assert EMPTY.lines + news == news && [] + news == news;
    PairWaits([], now);
    NoSeed([]);
    PassAndReplay(w, [], news, now, TheirCorrection(""), flagExists);
    assert news[..2] == news;
    TogetherTheyPair(map[]);
    NoLookup();
  }

  lemma NoLookup()
    ensures Lookup(map[], "s") == ""
  {
  }

  lemma NoSeed(before: seq<Line>)
    requires forall k :: 0 <= k < |before| ==> !IsRecall(before[k].entry)
    ensures forall batch :: SeedFor(All(before), batch) == map[]
    ensures Lookup(SeedFor(All(before), [Mistake(), Correctly()]), "s") == ""
  {
    hide Mistake, Correctly, IsRecall;
    NoRecalls(All(before));
    forall batch ensures SeedFor(All(before), batch) == map[] {
    }
  }

  lemma {:induction false} NoRecalls(entries: seq<Entry>)
    requires forall e :: e in entries ==> !IsRecall(e)
    ensures Families(entries, map[]) == map[]
  {
    hide IsRecall;
    if entries != [] {
      NoRecalls(entries[..|entries| - 1]);
    }
  }

  /** A stray recall, a committed pass, then a failure and its retry: the second
      pass anchors the correction to a family that one pass over everything
      delivered never sees. */
  lemma StrayAnchorsACorrection(recall: Entry, now: int)
    requires IsRecallOf(recall, "s")
    ensures var run := [Append(Line(recall, false)), Pass(now, None)]
                       + (Appends([Line(Mistake(), true), Line(Correctly(), true)]) + [Pass(now, None)]);
      var w := Exec(EMPTY, run, _ => false);
      && w.offset == 3 && w.recorded == [TheirCorrection(recall.queryFamily)]
      && recall.queryFamily != "" && Done(w, _ => false) == [TheirCorrection("")]
  {
    hide SeedFor, PassPairs, Mistake, Correctly, TheirCorrection, Pairs, Exec, Delivered, Lookup;
    var flagExists: FlagTree := _ => false;
    var stray, news := Line(recall, false), [Line(Mistake(), true), Line(Correctly(), true)];
    StrayPass(stray, now);
    var w1 := World([stray], 1, []);
    ExecSplits(EMPTY, [Append(stray), Pass(now, None)], Appends(news) + [Pass(now, None)], flagExists);
    ExecSplits(w1, Appends(news), [Pass(now, None)], flagExists);
    AppendLines(w1, news, flagExists);
    var w2 := World([stray] + news, 1, []);
    PairWaits([stray], now);
    StraySeed(recall);
    PassAndReplay(w2, [stray], news, now, TheirCorrection(recall.queryFamily), flagExists);
    var w3 := Exec(w2, [Pass(now, None)], flagExists);
    DeliveredAppend([stray], news);
    DeliveredOf(recall, recall, recall);
    assert w3.lines[..3] == [stray] + news && [] + Delivered(news) == Delivered(news);
    TogetherTheyPair(map[]);
    NoLookup();
  }

  lemma StrayPass(stray: Line, now: int)
    requires !stray.delivered
    ensures Exec(EMPTY, [Append(stray), Pass(now, None)], _ => false) == World([stray], 1, [])
  {
    hide SeedFor, Delivered, Exec, Pending, PairsUpTo;
    var flagExists: FlagTree := _ => false;
    var w1 := World([stray], 0, []);
    DeliveredOf(stray.entry, stray.entry, stray.entry);
    assert [] + [stray] == [stray];
    Waiting(w1, [], [stray]);
    SuccessesYieldNothing([], 0, SeedFor(All([]), []), now, flagExists);
    ExecTwo(EMPTY, Append(stray), Pass(now, None), flagExists);
  }

  lemma StraySeed(recall: Entry)
    requires IsRecallOf(recall, "s")
    ensures Lookup(SeedFor(All([Line(recall, false)]), [Mistake(), Correctly()]), "s") == recall.queryFamily
    ensures recall.queryFamily != ""
  {
    assert All([Line(recall, false)]) == [recall];
    assert [recall][..0] == [];
    assert Families([recall], map[]) == Learn(Families([], map[]), recall);
    assert Mistake() in [Mistake(), Correctly()] && "s" in ActiveSessions([Mistake(), Correctly()]);
  }

  /** A correction missed because its failure was given up, and the same one repeated
      because a later pass failed midway: what is recorded is what one pass derives,
      although both went wrong. */
  lemma FaultsCanCancel(early: int, now: int)
    requires early > CORRECTION_WINDOW
    ensures var run := [Append(Line(Mistake(), true)), Pass(early, None)]
                       + (Appends([Line(Correctly(), true), Line(Mistake(), true), Line(Correctly(), true)])
                          + [Pass(now, Some(1)), Pass(now, None)]);
      var w := Exec(EMPTY, run, _ => false);
      && !Never(EMPTY, run, Midway, _ => false) && !Never(EMPTY, run, TooLate, _ => false)
      && w.recorded == Done(w, _ => false) == [TheirCorrection(""), TheirCorrection("")]
  {
    hide PassPairs, Mistake, Correctly, TheirCorrection, Pairs, Exec, Delivered, Never, IsFaulty, Missed, Repeated;
    var flagExists: FlagTree := _ => false;
    var f, r := Line(Mistake(), true), Line(Correctly(), true);
    var first, appends := [Append(f), Pass(early, None)], Appends([r, f, r]);
    var last := [Pass(now, Some(1)), Pass(now, None)];
    GivenUp(early);
    var w1, w2 := World([f], 1, []), World([f] + [r, f, r], 1, []);
    ExecSplits(EMPTY, first, appends + last, flagExists);
    ExecSplits(w1, appends, last, flagExists);
    AppendLines(w1, [r, f, r], flagExists);
    ThreeWait(now);
    PassAndReplay(w2, [f], [r, f, r], now, TheirCorrection(""), flagExists);
    var w := Exec(w2, last, flagExists);
    FourPair();
    assert w.lines[..4] == [f, r, f, r];
    assert [] + [TheirCorrection(""), TheirCorrection("")] == [TheirCorrection(""), TheirCorrection("")];
    var head, run := first + appends, first + (appends + last);
    ExecSplits(EMPTY, first, appends, flagExists);
    assert run == head + [Pass(now, Some(1))] + [Pass(now, None)];
    if Never(EMPTY, run, Midway, flagExists) {
      NeverMeansNowhere(EMPTY, head, Pass(now, Some(1)), [Pass(now, None)], Midway, flagExists);
    }
    NothingDone(flagExists);
    RunCounts(EMPTY, run, flagExists);
  }

  lemma GivenUp(early: int)
    requires early > CORRECTION_WINDOW
    ensures Exec(EMPTY, [Append(Line(Mistake(), true)), Pass(early, None)], _ => false)
         == World([Line(Mistake(), true)], 1, [])
  {
    hide SeedFor, Delivered, PairsUpTo, Pending, Exec, Mistake;
    var flagExists: FlagTree := _ => false;
    var f := Line(Mistake(), true);
    var w1 := World([f], 0, []);
    DeliveredOf(f.entry, f.entry, f.entry);
    assert [] + [f] == [f];
    Waiting(w1, [], [f]);
    MistakeIsAt();
    LoneEntry(f.entry, SeedFor(All([]), [f.entry]), early, flagExists);
    ExecTwo(EMPTY, Append(f), Pass(early, None), flagExists);
  }

  lemma MistakeIsAt()
    ensures Mistake().ts == Some(0)
  {
  }

  /** The retry, and the two once more. */
  lemma ThreeWait(now: int)
    ensures var f, r := Line(Mistake(), true), Line(Correctly(), true);
      && !Pending(Delivered([r, f, r]), now, _ => false)
      && PassPairs([f], Delivered([r, f, r]), _ => false) == [TheirCorrection("")]
  {
    hide Delivered, Families, PairsUpTo, NothingLate, Pending, WithoutAnchors, Lookup, SeedFor;
    var flagExists: FlagTree := _ => false;
    var f, r := Mistake(), Correctly();
    DeliveredOf(r, f, r);
    NoSeed([Line(f, true)]);
    NoRecalls([r]);
    assert [r] + [f, r] == [r, f, r];
    SuccessesYieldNothing([r], 1, map[], now, flagExists);
    SplitsExactly([r], [f, r], map[], flagExists);
    TogetherTheyPair(map[]);
    NoLookup();
    ThreeAreDecided(now);
  }

  lemma ThreeAreDecided(now: int)
    ensures !Pending([Correctly(), Mistake(), Correctly()], now, _ => false)
  {
    hide NormalizeFlagToken, FlagName, NextLike;
    var f, r := Mistake(), Correctly();
    var flagExists: FlagTree := _ => false;
    NextLikeIs([r, f, r], f, 2, 2);
    assert !IsOpen([r, f, r], 0, now, flagExists) && !IsOpen([r, f, r], 1, now, flagExists)
        && !IsOpen([r, f, r], 2, now, flagExists);
  }

  lemma FourPair()
    ensures var f, r := Line(Mistake(), true), Line(Correctly(), true);
      Pairs(Delivered([f, r, f, r]), map[], _ => false) == [TheirCorrection(""), TheirCorrection("")]
  {
    hide Delivered, Families, PairsUpTo, NothingLate, WithoutAnchors, Lookup;
    var flagExists: FlagTree := _ => false;
    var f, r := Mistake(), Correctly();
    var pair := [Line(f, true), Line(r, true)];
    DeliveredOf(f, r, f);
    DeliveredAppend(pair, pair);
    assert pair + pair == [Line(f, true), Line(r, true), Line(f, true), Line(r, true)];
    NoRecalls([f, r]);
    PairIsDecided(0);
    SplitsExactly([f, r], [f, r], map[], flagExists);
    TogetherTheyPair(map[]);
    NoLookup();
  }
}
