/** Deriving in batches: the seed a batch starts from, why batching does not change
    what is derived, and what stamps cut to the second do to that. */
module DeriveBatches {
  import opened Wrappers
  import opened Derive

  // ----- the seed a batch starts from -----

  function ActiveSessions(batch: seq<Entry>): set<string> {
    set e | e in batch && e.session != "" :: e.session
  }

  /** The recall family each session of the batch had before it. */
  function SeedFor(before: seq<Entry>, batch: seq<Entry>): map<string, string> {
    var families := Families(before, map[]);
    map s | s in ActiveSessions(batch) && s in families :: families[s]
  }

  // ----- batching does not change the answer -----

  ghost predicate StampedFrom(entries: seq<Entry>, time: int) {
    forall e :: e in entries && e.ts.Some? ==> e.ts.value >= time
  }

  /** Could any retry at all correct this failure?  The recorded suggestion must
      be another flag; without one, some near enough name must still be free. */
  ghost predicate CanBeCorrected(e: Entry) {
    if NormalizeFlagToken(e.suggestedFlag) != ""
    then NormalizeFlagToken(e.suggestedFlag) != NormalizeFlagToken(e.failedFlag)
    else exists key: string :: IsFreeNearby(e, key)
  }

  predicate IsFreeNearby(e: Entry, key: string) {
    && IsNew(e, key) && "--" + FlagName(key) != NormalizeFlagToken(e.failedFlag)
    && Distance(e, key) <= MaxDistance(FlagName(e.failedFlag), FlagName(key))
  }

  /** No failure still open at `time` could be corrected. */
  ghost predicate Decided(entries: seq<Entry>, time: int, flagExists: FlagTree) {
    forall i :: 0 <= i < |entries| && IsOpen(entries, i, time, flagExists) ==> !CanBeCorrected(entries[i])
  }

  /** Recall entries carry a session key, as the journal writer ensures. */
  ghost predicate RecallsAreKeyed(entries: seq<Entry>) {
    forall e :: e in entries && IsRecall(e) ==> e.session != ""
  }

  lemma {:induction false} FamiliesAppend(a: seq<Entry>, b: seq<Entry>, seed: map<string, string>)
    ensures Families(a + b, seed) == Families(b, Families(a, seed))
  {
    if b == [] {
      assert a + b == a;
    } else {
      assert (a + b)[..|a + b| - 1] == a + b[..|b| - 1];
      FamiliesAppend(a, b[..|b| - 1], seed);
    }
  }

  lemma {:induction false} KeyedFamilies(entries: seq<Entry>)
    requires RecallsAreKeyed(entries)
    ensures "" !in Families(entries, map[])
  {
    if entries != [] {
      KeyedFamilies(entries[..|entries| - 1]);
    }
  }

  lemma NextLikeIs(entries: seq<Entry>, e: Entry, from: nat, at: nat)
    requires from <= at <= |entries|
    requires at < |entries| ==> SameCommand(entries[at], e)
    requires forall k :: from <= k < at ==> !SameCommand(entries[k], e)
    ensures NextLike(entries, e, from) == at
  {
  }

  lemma CorrectionNeedsRoom(e: Entry, success: Entry, family: string)
    requires !CanBeCorrected(e)
    ensures Pair(e, success, family) == []
  {
    hide NormalizeFlagToken, FlagName, Distance, MaxDistance, Names;
    if NormalizeFlagToken(e.suggestedFlag) == "" {
      if key: string :| IsNearest(e, success, key) {
        assert !IsFreeNearby(e, key);
      }
    }
  }

  // ----- deriving in two batches against deriving at once -----

  /** Nothing in `a` follows its failure `i`, and the next invocation like it, in
      `b`, corrects it. */
  ghost predicate IsLate(a: seq<Entry>, b: seq<Entry>, i: nat, flagExists: FlagTree)
    requires i < |a|
  {
    var next := NextLike(a + b, a[i], i + 1);
    && IsFailure(a[i], flagExists) && NextLike(a, a[i], i + 1) == |a|
    && next < |a + b| && Pair(a[i], (a + b)[next], "") != []
  }

  /** No failure of `a` is corrected only by `b`. */
  ghost predicate NothingLate(a: seq<Entry>, b: seq<Entry>, flagExists: FlagTree) {
    forall i :: 0 <= i < |a| ==> !IsLate(a, b, i, flagExists)
  }

  /** How many of the first `n` entries of `a` are. */
  ghost function LateUpTo(a: seq<Entry>, b: seq<Entry>, n: nat, flagExists: FlagTree): nat
    requires n <= |a|
  {
    if n == 0 then 0 else LateUpTo(a, b, n - 1, flagExists) + if IsLate(a, b, n - 1, flagExists) then 1 else 0
  }

  ghost function Late(a: seq<Entry>, b: seq<Entry>, flagExists: FlagTree): nat {
    LateUpTo(a, b, |a|, flagExists)
  }

  lemma {:induction false} NoneIsLate(a: seq<Entry>, b: seq<Entry>, n: nat, flagExists: FlagTree)
    requires n <= |a|
    ensures LateUpTo(a, b, n, flagExists) == 0 <==> forall i :: 0 <= i < n ==> !IsLate(a, b, i, flagExists)
  {
    hide IsLate;
    if n > 0 {
      NoneIsLate(a, b, n - 1, flagExists);
    }
  }

  /** With more to read a failure yields what it yielded before, or, when it is
      late, one correction instead of none. */
  lemma PairGrows(a: seq<Entry>, b: seq<Entry>, i: nat, family: string, flagExists: FlagTree)
    requires i < |a|
    ensures if IsLate(a, b, i, flagExists)
            then PairAt(a, i, family, flagExists) == [] && |PairAt(a + b, i, family, flagExists)| == 1
            else PairAt(a + b, i, family, flagExists) == PairAt(a, i, family, flagExists)
  {
    hide CorrectedFlag, NormalizeFlagToken, FlagName, NextLike, InWindow, IsFailure;
    var e := a[i];
    var next := NextLike(a, e, i + 1);
    if next < |a| {
      NextLikeIs(a + b, e, i + 1, next);
    }
  }

  lemma {:induction false} FirstPart(a: seq<Entry>, b: seq<Entry>, n: nat, flagExists: FlagTree)
    requires n <= |a|
    ensures |PairsUpTo(a + b, n, map[], flagExists)|
         == |PairsUpTo(a, n, map[], flagExists)| + LateUpTo(a, b, n, flagExists)
    ensures LateUpTo(a, b, n, flagExists) == 0 ==>
      PairsUpTo(a + b, n, map[], flagExists) == PairsUpTo(a, n, map[], flagExists)
  {
    hide PairAt, Families, PairsUpTo, IsLate, Lookup;
    if n == 0 {
      NoPairs(a, map[], flagExists);
      NoPairs(a + b, map[], flagExists);
    } else {
      FirstPart(a, b, n - 1, flagExists);
      assert (a + b)[..n] == a[..n];
      PairGrows(a, b, n - 1, Lookup(Families(a[..n], map[]), a[n - 1].session), flagExists);
      LastPair(a, n, map[], flagExists);
      LastPair(a + b, n, map[], flagExists);
    }
  }

  /** A failure of the second batch sees the same entries. */
  lemma SecondBatchUnchanged(a: seq<Entry>, b: seq<Entry>, i: nat, family: string, flagExists: FlagTree)
    requires i < |b|
    ensures PairAt(a + b, |a| + i, family, flagExists) == PairAt(b, i, family, flagExists)
  {
    hide CorrectedFlag, NormalizeFlagToken, FlagName, NextLike;
    var next := NextLike(b, b[i], i + 1);
    NextLikeIs(a + b, b[i], |a| + i + 1, |a| + next);
  }

  lemma {:induction false} SecondPart(a: seq<Entry>, b: seq<Entry>, n: nat, flagExists: FlagTree)
    requires n <= |b|
    ensures PairsUpTo(a + b, |a| + n, map[], flagExists)
         == PairsUpTo(a + b, |a|, map[], flagExists) + PairsUpTo(b, n, Families(a, map[]), flagExists)
  {
    hide PairAt, Families, PairsUpTo, Lookup;
    var seed := Families(a, map[]);
    if n == 0 {
      NoPairs(b, seed, flagExists);
    } else {
      SecondPart(a, b, n - 1, flagExists);
      LastPair(a + b, |a| + n, map[], flagExists);
      LastPair(b, n, seed, flagExists);
      assert (a + b)[..|a| + n] == a + b[..n];
      FamiliesAppend(a, b[..n], map[]);
      SecondBatchUnchanged(a, b, n - 1, Lookup(Families(b[..n], seed), b[n - 1].session), flagExists);
    }
  }

  // ----- corrections apart from their anchors -----

  function WithoutAnchor(c: Correction): Correction { c.(queryFamily := "") }

  function WithoutAnchors(cs: seq<Correction>): seq<Correction> {
    seq(|cs|, i requires 0 <= i < |cs| => WithoutAnchor(cs[i]))
  }

  lemma WithoutAnchorsAppend(a: seq<Correction>, b: seq<Correction>)
    ensures WithoutAnchors(a + b) == WithoutAnchors(a) + WithoutAnchors(b)
  {
  }

  /** Entry `i` yields a correction, and no recall of its session comes before it in
      the batch: its anchor is the seed's. */
  ghost predicate TakesSeed(b: seq<Entry>, i: nat, flagExists: FlagTree)
    requires i < |b|
  {
    PairAt(b, i, "", flagExists) != [] && forall k :: 0 <= k <= i ==> !IsRecallOf(b[k], b[i].session)
  }

  /** The two seeds name the same family wherever one is taken. */
  ghost predicate AnchorsAgree(b: seq<Entry>, s: map<string, string>, t: map<string, string>, flagExists: FlagTree) {
    forall i :: 0 <= i < |b| && TakesSeed(b, i, flagExists) ==> Lookup(s, b[i].session) == Lookup(t, b[i].session)
  }

  lemma OnlyTheAnchor(b: seq<Entry>, i: nat, f: string, g: string, flagExists: FlagTree)
    requires i < |b|
    ensures WithoutAnchors(PairAt(b, i, f, flagExists)) == WithoutAnchors(PairAt(b, i, g, flagExists))
    ensures |PairAt(b, i, f, flagExists)| == |PairAt(b, i, g, flagExists)| == |PairAt(b, i, "", flagExists)|
    ensures PairAt(b, i, f, flagExists) == PairAt(b, i, g, flagExists)
       <==> f == g || PairAt(b, i, "", flagExists) == []
  {
    hide CorrectedFlag, NormalizeFlagToken, FlagName, NextLike, IsFailure, InWindow;
  }

  lemma {:induction false} AnchorFromSeed(b: seq<Entry>, n: nat, session: string, s: map<string, string>,
                                          t: map<string, string>)
    requires n <= |b|
    ensures (exists k :: 0 <= k < n && IsRecallOf(b[k], session)) ==>
      Lookup(Families(b[..n], s), session) == Lookup(Families(b[..n], t), session)
    ensures (forall k :: 0 <= k < n ==> !IsRecallOf(b[k], session)) ==>
      && Lookup(Families(b[..n], s), session) == Lookup(s, session)
      && Lookup(Families(b[..n], t), session) == Lookup(t, session)
  {
    hide IsRecallOf, Families, Lookup;
    if n == 0 {
      assert b[..0] == [];
      NoFamilies(s);
      NoFamilies(t);
    } else {
      AnchorFromSeed(b, n - 1, session, s, t);
      OneMoreEntry(b, n - 1, s);
      OneMoreEntry(b, n - 1, t);
      LearnOne(Families(b[..n - 1], s), b[n - 1], session);
      LearnOne(Families(b[..n - 1], t), b[n - 1], session);
    }
  }

  /** From two seeds a batch derives the same up to anchors, and the very same
      exactly when the seeds agree wherever one is taken. */
  lemma {:induction false} SeedsDecideAnchors(b: seq<Entry>, n: nat, s: map<string, string>, t: map<string, string>,
                                              flagExists: FlagTree)
    requires n <= |b|
    ensures WithoutAnchors(PairsUpTo(b, n, s, flagExists)) == WithoutAnchors(PairsUpTo(b, n, t, flagExists))
    ensures |PairsUpTo(b, n, s, flagExists)| == |PairsUpTo(b, n, t, flagExists)|
    ensures PairsUpTo(b, n, s, flagExists) == PairsUpTo(b, n, t, flagExists)
       <==> forall i :: 0 <= i < n && TakesSeed(b, i, flagExists) ==> Lookup(s, b[i].session) == Lookup(t, b[i].session)
  {
    hide PairsUpTo, PairAt, Families, Lookup, WithoutAnchors, IsRecallOf;
    if n == 0 {
      NoPairs(b, s, flagExists);
      NoPairs(b, t, flagExists);
    } else {
      var i, session := n - 1, b[n - 1].session;
      var f, g := Lookup(Families(b[..n], s), session), Lookup(Families(b[..n], t), session);
      SeedsDecideAnchors(b, i, s, t, flagExists);
      LastPair(b, n, s, flagExists);
      LastPair(b, n, t, flagExists);
      OnlyTheAnchor(b, i, f, g, flagExists);
      AnchorFromSeed(b, n, session, s, t);
      WithoutAnchorsAppend(PairsUpTo(b, i, s, flagExists), PairAt(b, i, f, flagExists));
      WithoutAnchorsAppend(PairsUpTo(b, i, t, flagExists), PairAt(b, i, g, flagExists));
      Cancel(PairsUpTo(b, i, s, flagExists), PairAt(b, i, f, flagExists),
             PairsUpTo(b, i, t, flagExists), PairAt(b, i, g, flagExists));
      assert TakesSeed(b, i, flagExists) <==>
        PairAt(b, i, "", flagExists) != [] && !exists k :: 0 <= k < n && IsRecallOf(b[k], session);
    }
  }

  lemma Cancel<T>(a: seq<T>, x: seq<T>, b: seq<T>, y: seq<T>)
    requires |a| == |b|
    ensures a + x == b + y <==> a == b && x == y
  {
    if a + x == b + y {
      assert a == (a + x)[..|a|] && b == (b + y)[..|a|];
      assert x == (a + x)[|a|..] && y == (b + y)[|a|..];
    }
  }

  /** Deriving `a` and then `b`, from whatever seed, gives what one pass over both
      gives: up to anchors exactly when nothing of `a` is late, and with them exactly
      when the seed moreover names what the recalls of `a` name.  The corrections
      missed are one for each late failure. */
  lemma SplitsExactly(a: seq<Entry>, b: seq<Entry>, seed: map<string, string>, flagExists: FlagTree)
    ensures var whole, first, second := Pairs(a + b, map[], flagExists), Pairs(a, map[], flagExists),
                                        Pairs(b, seed, flagExists);
      && |whole| == |first| + |second| + Late(a, b, flagExists)
      && (WithoutAnchors(whole) == WithoutAnchors(first) + WithoutAnchors(second) <==> NothingLate(a, b, flagExists))
      && (whole == first + second
          <==> NothingLate(a, b, flagExists) && AnchorsAgree(b, seed, Families(a, map[]), flagExists))
    ensures NothingLate(a, b, flagExists) ==>
      Pairs(a + b, map[], flagExists) == Pairs(a, map[], flagExists) + Pairs(b, Families(a, map[]), flagExists)
  {
    hide PairsUpTo, Families, IsLate, TakesSeed, WithoutAnchors, Lookup;
    var all := Families(a, map[]);
    var first, second, exact := Pairs(a, map[], flagExists), Pairs(b, seed, flagExists), Pairs(b, all, flagExists);
    FirstPart(a, b, |a|, flagExists);
    SecondPart(a, b, |b|, flagExists);
    NoneIsLate(a, b, |a|, flagExists);
    SeedsDecideAnchors(b, |b|, seed, all, flagExists);
    WithoutAnchorsAppend(first, second);
    WithoutAnchorsAppend(first, exact);
    SameSize(Pairs(a + b, map[], flagExists));
    SameSize(first + second);
    Cancel(first, second, first, exact);
  }

  lemma SameSize(cs: seq<Correction>)
    ensures |WithoutAnchors(cs)| == |cs|
  {
  }

  /** Keyed recalls: the seed a batch starts from names what they name. */
  lemma SeedNamesFamilies(a: seq<Entry>, b: seq<Entry>, flagExists: FlagTree)
    requires RecallsAreKeyed(a)
    ensures AnchorsAgree(b, SeedFor(a, b), Families(a, map[]), flagExists)
  {
    hide Families, TakesSeed;
    KeyedFamilies(a);
    assert forall i :: 0 <= i < |b| && b[i].session != "" ==> b[i].session in ActiveSessions(b);
  }

  ghost predicate SplitsAt(a: seq<Entry>, b: seq<Entry>, flagExists: FlagTree) {
    Pairs(a + b, map[], flagExists) == Pairs(a, map[], flagExists) + Pairs(b, SeedFor(a, b), flagExists)
  }

  /** However the entries are stamped: two batches derive what one pass would exactly
      when no failure of the first is corrected only by the second. */
  lemma BatchingChangesNothing(a: seq<Entry>, b: seq<Entry>, flagExists: FlagTree)
    requires RecallsAreKeyed(a)
    ensures SplitsAt(a, b, flagExists) <==> NothingLate(a, b, flagExists)
  {
    hide Pairs, RecallsAreKeyed, SeedFor, NothingLate, AnchorsAgree, Families;
    SplitsExactly(a, b, SeedFor(a, b), flagExists);
    SeedNamesFamilies(a, b, flagExists);
  }

  /** A batch that was decided at `time` is not corrected by what is stamped later. */
  lemma DecidedIsNotLate(a: seq<Entry>, b: seq<Entry>, time: int, flagExists: FlagTree)
    requires Decided(a, time, flagExists) && StampedFrom(b, time)
    ensures NothingLate(a, b, flagExists)
  {
    hide CorrectedFlag, NormalizeFlagToken, FlagName, NextLike, CanBeCorrected;
    forall i | 0 <= i < |a| ensures !IsLate(a, b, i, flagExists) {
      var later := NextLike(a + b, a[i], i + 1);
      if IsLate(a, b, i, flagExists) {
        assert forall k :: i + 1 <= k < |a| ==> (a + b)[k] == a[k];
        assert later >= |a| && (a + b)[later] in b;
        if IsOpen(a, i, time, flagExists) {
          CorrectionNeedsRoom(a[i], (a + b)[later], "");
        }
      }
    }
  }

  // ----- stamps are cut to whole seconds -----

  function Stamp(time: int): int {
    time - time % SECOND
  }

  ghost predicate WrittenAfter(entries: seq<Entry>, times: seq<int>, now: int) {
    && |times| == |entries|
    && forall i :: 0 <= i < |entries| ==> times[i] >= now && entries[i].ts == Some(Stamp(times[i]))
  }

  lemma StampIsMonotone(s: int, t: int)
    requires s <= t
    ensures Stamp(s) <= Stamp(t)
  {
    var k, m := s / SECOND, t / SECOND;
    assert Stamp(s) == k * SECOND && Stamp(t) == m * SECOND;
  }

  /** No later entries, however they are stamped, change what `a` derives. */
  ghost predicate Harmless(a: seq<Entry>, now: int, flagExists: FlagTree) {
    forall b, times :: WrittenAfter(b, times, now) ==> SplitsAt(a, b, flagExists)
  }

  /** With stamps cut to the second, ending a batch at `now` is harmless exactly
      when no failure that could be corrected was still open at the start of the
      second: the pass itself asks only about `now`. */
  lemma CuttingIsHarmlessExactlyWhenDecided(a: seq<Entry>, now: int, flagExists: FlagTree)
    requires RecallsAreKeyed(a)
    ensures Harmless(a, now, flagExists) <==> Decided(a, Stamp(now), flagExists)
  {
    hide Decided, SplitsAt, RecallsAreKeyed, StampedFrom, NothingLate;
    if Decided(a, Stamp(now), flagExists) {
      forall b, times | WrittenAfter(b, times, now) ensures SplitsAt(a, b, flagExists) {
        LaterStamps(b, times, now);
        DecidedIsNotLate(a, b, Stamp(now), flagExists);
        BatchingChangesNothing(a, b, flagExists);
      }
    } else {
      var b, times := LosingRetry(a, now, flagExists);
      BatchingChangesNothing(a, b, flagExists);
    }
  }

  lemma LaterStamps(b: seq<Entry>, times: seq<int>, now: int)
    requires WrittenAfter(b, times, now)
    ensures StampedFrom(b, Stamp(now))
  {
    hide Stamp;
    forall e | e in b ensures e.ts.Some? && e.ts.value >= Stamp(now) {
      var i :| 0 <= i < |b| && b[i] == e;
      StampIsMonotone(now, times[i]);
    }
  }

  /** A retry written after `now` whose stamp still falls in the window. */
  lemma LosingRetry(a: seq<Entry>, now: int, flagExists: FlagTree) returns (b: seq<Entry>, times: seq<int>)
    requires !Decided(a, Stamp(now), flagExists)
    ensures WrittenAfter(b, times, now) && !NothingLate(a, b, flagExists)
  {
    hide IsOpen, CanBeCorrected, Stamp;
    var i: nat :| i < |a| && IsOpen(a, i, Stamp(now), flagExists) && CanBeCorrected(a[i]);
    OpenFailure(a, i, Stamp(now), flagExists);
    var time := TimelyStamp(a[i].ts.value, now);
    var retry := Retry(a[i], Stamp(time));
    b, times := [retry], [time];
    RetryIsLate(a, i, retry, flagExists);
  }

  lemma RetryIsLate(a: seq<Entry>, i: nat, retry: Entry, flagExists: FlagTree)
    requires i < |a| && IsFailure(a[i], flagExists) && SameCommand(retry, a[i])
    requires forall k :: i < k < |a| ==> !SameCommand(a[k], a[i])
    requires Pair(a[i], retry, "") != []
    ensures IsLate(a, [retry], i, flagExists)
  {
    hide IsFailure, Pair, NextLike, SameCommand;
    var more := a + [retry];
    assert forall k :: i < k < |a| ==> more[k] == a[k];
    NextLikeIs(a, a[i], i + 1, |a|);
    NextLikeIs(more, a[i], i + 1, |a|);
  }

  lemma OpenFailure(a: seq<Entry>, i: nat, time: int, flagExists: FlagTree)
    requires i < |a| && IsOpen(a, i, time, flagExists)
    ensures IsFailure(a[i], flagExists) && time - a[i].ts.value <= CORRECTION_WINDOW
    ensures forall k :: i < k < |a| ==> !SameCommand(a[k], a[i])
  {
    hide NextLike;
  }

  lemma TimelyStamp(failedAt: int, now: int) returns (time: int)
    requires Stamp(now) - failedAt <= CORRECTION_WINDOW
    ensures time >= now && failedAt <= Stamp(time) <= failedAt + CORRECTION_WINDOW
  {
    time := if failedAt <= Stamp(now) then now else failedAt + SECOND;
  }

  /** The retry that corrects what can be corrected. */
  lemma Retry(e: Entry, stamp: int) returns (success: Entry)
    requires e.exitCode != 0 && NormalizeFlagToken(e.failedFlag) != "" && CanBeCorrected(e)
    requires e.ts.Some? && e.ts.value <= stamp <= e.ts.value + CORRECTION_WINDOW
    ensures success.ts == Some(stamp) && success.exitCode == 0 && SameCommand(success, e)
    ensures forall family :: Pair(e, success, family) != []
  {
    hide NormalizeFlagToken, Distance, MaxDistance;
    if NormalizeFlagToken(e.suggestedFlag) != "" {
      hide FlagName;
      success := Entry(Some(stamp), e.session, e.cmd, map[FlagName(e.suggestedFlag) := ""], 0, "", "", "");
    } else {
      var key: string :| IsFreeNearby(e, key);
      success := Entry(Some(stamp), e.session, e.cmd, map[key := ""], 0, "", "", "");
      NamedFlag(e.failedFlag);
      hide FlagName;
      assert NewFlags(e, success) == {key};
      assert IsNearest(e, success, key);
    }
  }

  /** A failure and its retry, at the last moment, in session "s". */
  function Mistake(): Entry {
    Entry(Some(0), "s", ["get"], map["fo" := "str"], 1, "--fo", "--foo", "")
  }

  function Correctly(): Entry {
    Entry(Some(CORRECTION_WINDOW), "s", ["get"], map["foo" := "str"], 0, "", "", "")
  }

  function TheirCorrection(family: string): Correction {
    Correction(["get"], "--fo", "--foo", Example(["get"], {"foo"}), family)
  }

  /** Without that condition it is not: half a second after the window closed a
      pass gives a failure up, and a retry within the same second is stamped
      inside the window, so one pass over both derives a correction and the two
      passes do not. */
  lemma CutStampsCanLoseACorrection(a: seq<Entry>, b: seq<Entry>, now: int)
    requires a == [Mistake()] && b == [Correctly()] && now == CORRECTION_WINDOW + SECOND / 2
    ensures !Pending(a, now, _ => false) && WrittenAfter(b, [now], now)
    ensures Pairs(a, map[], _ => false) == [] && Pairs(b, SeedFor(a, b), _ => false) == []
    ensures Pairs(a + b, map[], _ => false) == [TheirCorrection("")]
  {
    hide Pairs, SeedFor;
    LoneEntry(a[0], map[], now, _ => false);
    LoneEntry(b[0], SeedFor(a, b), now, _ => false);
    TogetherTheyPair(map[]);
    assert a == [a[0]] && b == [b[0]] && a + b == [a[0], b[0]];
    assert b[0].ts == Some(Stamp(now));
  }

  /** An entry with nothing after it yields nothing; it holds the batch back only
      within the window. */
  lemma LoneEntry(e: Entry, seed: map<string, string>, now: int, flagExists: FlagTree)
    ensures Pairs([e], seed, flagExists) == []
    ensures (e.ts.Some? ==> now - e.ts.value > CORRECTION_WINDOW) ==> !Pending([e], now, flagExists)
  {
    hide NormalizeFlagToken, FlagName, Families, PairsUpTo;
    NextLikeIs([e], e, 1, 1);
    NoPairs([e], seed, flagExists);
    LastPair([e], 1, seed, flagExists);
  }

  lemma TogetherTheyPair(seed: map<string, string>)
    ensures Pairs([Mistake(), Correctly()], seed, _ => false) == [TheirCorrection(Lookup(seed, "s"))]
  {
    hide NormalizeFlagToken, FlagName, Families, PairsUpTo, NextLike;
    var e, f := Mistake(), Correctly();
    var flagExists: FlagTree := _ => false;
    Tokens();
    NextLikeIs([e, f], e, 1, 1);
    NextLikeIs([e, f], f, 2, 2);
    NoPairs([e, f], seed, flagExists);
    LastPair([e, f], 1, seed, flagExists);
    LastPair([e, f], 2, seed, flagExists);
    NoFamilies(seed);
    OneMoreEntry([e, f], 0, seed);
    assert [e, f][..0] == [] && f.argvShape.Keys == {"foo"};
  }

  /** Neither yields anything with what follows it: the failure has its retry, and
      the retry is none. */
  lemma PairIsDecided(now: int)
    ensures var pair, flagExists: FlagTree := [Mistake(), Correctly()], _ => false;
      !Pending(pair, now, flagExists) && forall b :: NothingLate(pair, b, flagExists)
  {
    hide NormalizeFlagToken, FlagName, NextLike;
    var e, f := Mistake(), Correctly();
    var flagExists: FlagTree := _ => false;
    NextLikeIs([e, f], e, 1, 1);
    assert !IsOpen([e, f], 0, now, flagExists) && !IsOpen([e, f], 1, now, flagExists);
    forall b ensures NothingLate([e, f], b, flagExists) {
      assert !IsLate([e, f], b, 0, flagExists) && !IsLate([e, f], b, 1, flagExists);
    }
  }

  /** Entries that succeeded yield nothing and hold nothing back. */
  lemma {:induction false} SuccessesYieldNothing(entries: seq<Entry>, n: nat, seed: map<string, string>, now: int,
                                                 flagExists: FlagTree)
    requires n <= |entries| && forall e :: e in entries ==> e.exitCode == 0
    ensures PairsUpTo(entries, n, seed, flagExists) == [] && !Pending(entries, now, flagExists)
    ensures forall b :: NothingLate(entries, b, flagExists)
  {
    hide NormalizeFlagToken, FlagName, NextLike, PairsUpTo, Families, Lookup;
    if n == 0 {
      NoPairs(entries, seed, flagExists);
    } else {
      SuccessesYieldNothing(entries, n - 1, seed, now, flagExists);
      LastPair(entries, n, seed, flagExists);
    }
  }

  lemma Tokens()
    ensures NormalizeFlagToken("--fo") == "--fo" && FlagName("--fo") == "fo"
    ensures NormalizeFlagToken("--foo") == "--foo" && FlagName("--foo") == "foo"
  {
    assert TrimLeftDashes("--fo") == TrimLeftDashes("-fo") == TrimLeftDashes("fo") == "fo";
    assert TrimLeftDashes("--foo") == TrimLeftDashes("-foo") == TrimLeftDashes("foo") == "foo";
  }

  // ----- longer journals derive no less -----

  /** What a pass over a prefix derives, a pass over more derives too. */
  lemma {:induction false} PairsGrow(a: seq<Entry>, b: seq<Entry>, n: nat, flagExists: FlagTree, c: Correction)
    requires n <= |a| && c in PairsUpTo(a, n, map[], flagExists)
    ensures c in PairsUpTo(a + b, n, map[], flagExists)
  {
    hide PairsUpTo, PairAt, Families, Lookup;
    if n == 0 {
      NoPairs(a, map[], flagExists);
    } else {
      LastPair(a, n, map[], flagExists);
      LastPair(a + b, n, map[], flagExists);
      assert (a + b)[..n] == a[..n];
      if c in PairsUpTo(a, n - 1, map[], flagExists) {
        PairsGrow(a, b, n - 1, flagExists, c);
      } else {
        FoundPairStays(a, b, n - 1, Lookup(Families(a[..n], map[]), a[n - 1].session), flagExists);
      }
    }
  }

  lemma FoundPairStays(a: seq<Entry>, b: seq<Entry>, i: nat, family: string, flagExists: FlagTree)
    requires i < |a| && PairAt(a, i, family, flagExists) != []
    ensures PairAt(a + b, i, family, flagExists) == PairAt(a, i, family, flagExists)
  {
    hide CorrectedFlag, NormalizeFlagToken, FlagName, NextLike;
    NextLikeIs(a + b, a[i], i + 1, NextLike(a, a[i], i + 1));
  }

  lemma {:induction false} PairsUpToGrow(entries: seq<Entry>, m: nat, n: nat, flagExists: FlagTree)
    requires m <= n <= |entries|
    ensures forall c :: c in PairsUpTo(entries, m, map[], flagExists) ==> c in PairsUpTo(entries, n, map[], flagExists)
    decreases n
  {
    hide PairsUpTo, PairAt, Families, Lookup;
    if m < n {
      LastPair(entries, n, map[], flagExists);
      PairsUpToGrow(entries, m, n - 1, flagExists);
    }
  }
}
