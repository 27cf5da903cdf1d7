/** Flag-correction derivation: pairing a failed flag with the retry of the same
    command in the same session that corrected it.

    The journal is seen as the list of entries its reader returns and an offset
    as a position in that list; module DeriveLives takes both from the journal's
    bytes.  Times are nanoseconds; `ts` is None when the recorded stamp does not
    parse. */
module Derive {
  import opened Wrappers
  import EditDistance
  import opened Text

  const SECOND: int := 1_000_000_000

  const CORRECTION_WINDOW: int := 15 * 60 * SECOND

  datatype Entry = Entry(
    ts: Option<int>,
    session: string,
    cmd: seq<string>,
    argvShape: map<string, string>,
    exitCode: int,
    failedFlag: string,
    suggestedFlag: string,
    queryFamily: string)

  /** The verb chain and the flag names of the retry; their rendering as one
      line with the names sorted is not modelled. */
  datatype Example = Example(cmd: seq<string>, flags: set<string>)

  datatype Correction = Correction(
    cmd: seq<string>,
    failedFlag: string,
    correctedFlag: string,
    example: Example,
    queryFamily: string)

  // ----- flag tokens -----

  function TrimLeftSpace(s: string): string {
    if s != [] && IsSpace(s[0]) then TrimLeftSpace(s[1..]) else s
  }

  function TrimRightSpace(s: string): string {
    if s != [] && IsSpace(s[|s| - 1]) then TrimRightSpace(s[..|s| - 1]) else s
  }

  function TrimLeftDashes(s: string): string {
    if s != [] && s[0] == '-' then TrimLeftDashes(s[1..]) else s
  }

  function NormalizeFlagToken(token: string): string {
    var name := TrimLeftDashes(TrimRightSpace(TrimLeftSpace(token)));
    if name == "" then "" else "--" + name
  }

  function FlagName(token: string): string {
    TrimLeftDashes(NormalizeFlagToken(token))
  }

  ghost predicate Blank(s: string) { forall k :: 0 <= k < |s| ==> IsSpace(s[k]) }

  /** A token is a name behind dashes within white space: `name` does not start
      with a dash, and neither end of what is between the white space is white. */
  ghost predicate IsToken(token: string, before: string, dashes: string, name: string, after: string) {
    var core := dashes + name;
    && token == before + core + after && Blank(before) && Blank(after)
    && (forall k :: 0 <= k < |dashes| ==> dashes[k] == '-')
    && (name != "" ==> name[0] != '-')
    && (core != "" ==> !IsSpace(core[0]) && !IsSpace(core[|core| - 1]))
  }

  lemma {:induction false} BlankBefore(before: string, core: string)
    requires Blank(before) && (core != "" ==> !IsSpace(core[0]))
    ensures TrimLeftSpace(before + core) == core
  {
    if before == "" {
      assert before + core == core;
    } else {
      assert (before + core)[0] == before[0] && (before + core)[1..] == before[1..] + core;
      BlankBefore(before[1..], core);
    }
  }

  lemma {:induction false} BlankAfter(core: string, after: string)
    requires Blank(after) && (core != "" ==> !IsSpace(core[|core| - 1]))
    ensures TrimRightSpace(core + after) == core
  {
    if after == "" {
      assert core + after == core;
    } else {
      var n := |after| - 1;
      assert (core + after)[|core + after| - 1] == after[n]
          && (core + after)[..|core + after| - 1] == core + after[..n];
      BlankAfter(core, after[..n]);
    }
  }

  lemma {:induction false} DashesBefore(dashes: string, name: string)
    requires (forall k :: 0 <= k < |dashes| ==> dashes[k] == '-') && (name != "" ==> name[0] != '-')
    ensures TrimLeftDashes(dashes + name) == name
  {
    if dashes == "" {
      assert dashes + name == name;
    } else {
      assert (dashes + name)[1..] == dashes[1..] + name;
      DashesBefore(dashes[1..], name);
    }
  }

  /** The name of a token is what stands behind its dashes, and its rendering is
      that name behind two of them, nothing for a token without a name. */
  lemma TokensName(token: string, before: string, dashes: string, name: string, after: string)
    requires IsToken(token, before, dashes, name, after)
    ensures FlagName(token) == name
    ensures NormalizeFlagToken(token) == if name == "" then "" else "--" + name
  {
    hide TrimLeftSpace, TrimRightSpace, TrimLeftDashes;
    var core := dashes + name;
    if core == "" {
      AllBlank(before, after);
      BlankBefore(token, "");
      assert token + "" == token;
      BlankAfter("", "");
    } else {
      assert token == before + (core + after) && (core + after)[0] == core[0];
      BlankBefore(before, core + after);
      BlankAfter(core, after);
    }
    DashesBefore(dashes, name);
    DashesBefore("--", name);
    DashesBefore("", name);
    assert "" + name == name;
  }

  lemma AllBlank(before: string, after: string)
    requires Blank(before) && Blank(after)
    ensures Blank(before + "" + after)
  {
  }

  /** Every string is such a token. */
  lemma TokenParts(token: string) returns (before: string, dashes: string, name: string, after: string)
    ensures IsToken(token, before, dashes, name, after)
  {
    var i, j := 0, |token|;
    while i < j && IsSpace(token[i])
      invariant 0 <= i <= j == |token| && Blank(token[..i])
    {
      i := i + 1;
    }
    while i < j && IsSpace(token[j - 1])
      invariant i <= j <= |token| && Blank(token[..i]) && Blank(token[j..])
      invariant i < |token| ==> !IsSpace(token[i])
    {
      j := j - 1;
    }
    var k := i;
    while k < j && token[k] == '-'
      invariant i <= k <= j && forall d :: i <= d < k ==> token[d] == '-'
    {
      k := k + 1;
    }
    before, dashes, name, after := token[..i], token[i..k], token[k..j], token[j..];
    assert dashes + name == token[i..j];
  }

  lemma NamedFlag(token: string)
    ensures NormalizeFlagToken(token) == if FlagName(token) == "" then "" else "--" + FlagName(token)
    ensures token == "" ==> FlagName(token) == ""
  {
    var before, dashes, name, after := TokenParts(token);
    TokensName(token, before, dashes, name, after);
  }

  // ----- inferring a correction from the new flags of a retry -----

  function Names(shape: map<string, string>): set<string> {
    set key | key in shape :: FlagName(key)
  }

  predicate IsNew(failed: Entry, key: string) {
    FlagName(key) != "" && FlagName(key) !in Names(failed.argvShape)
  }

  /** The flags of `keys` that the failed invocation did not have. */
  function NewAmong(failed: Entry, keys: set<string>): set<string> {
    set key | key in keys && IsNew(failed, key)
  }

  /** The flags the retry added: named, and absent from the failed invocation. */
  function NewFlags(failed: Entry, success: Entry): set<string> {
    NewAmong(failed, success.argvShape.Keys)
  }

  function Distance(failed: Entry, key: string): nat {
    EditDistance.Dist(FlagName(failed.failedFlag), FlagName(key))
  }

  function MaxDistance(a: string, b: string): nat {
    var half := (if |a| < |b| then |a| else |b|) / 2;
    if half < 1 then 1 else half
  }

  /** `key` is the one new flag nearest to the failed name, and near enough. */
  predicate IsNearest(failed: Entry, success: Entry, key: string) {
    && FlagName(failed.failedFlag) != ""
    && key in NewFlags(failed, success)
    && (forall other :: other in NewFlags(failed, success) && other != key ==>
          Distance(failed, key) < Distance(failed, other))
    && Distance(failed, key) <= MaxDistance(FlagName(failed.failedFlag), FlagName(key))
  }

  /** Empty when no flag is nearest, or several are equally near. */
  ghost function InferredFlag(failed: Entry, success: Entry): string {
    if key: string :| IsNearest(failed, success, key) then "--" + FlagName(key) else ""
  }

  /** Another of the flags `seen` is exactly as near as `best`. */
  ghost predicate Tied(failed: Entry, seen: set<string>, best: string) {
    exists key :: key in seen && key != best && Distance(failed, key) == Distance(failed, best)
  }

  /** What the best-so-far variables say about the flags already visited. */
  ghost predicate BestSoFar(failed: Entry, seen: set<string>, best: string, ambiguous: bool) {
    && best in seen
    && (forall key :: key in seen ==> Distance(failed, best) <= Distance(failed, key))
    && (ambiguous <==> Tied(failed, seen, best))
  }

  lemma NearerFlag(failed: Entry, seen: set<string>, best: string, ambiguous: bool, key: string)
    requires key !in seen
    requires seen == {} || (BestSoFar(failed, seen, best, ambiguous) && Distance(failed, key) < Distance(failed, best))
    ensures BestSoFar(failed, seen + {key}, key, false)
  {
  }

  lemma NoNearerFlag(failed: Entry, seen: set<string>, best: string, ambiguous: bool, key: string)
    requires key !in seen && BestSoFar(failed, seen, best, ambiguous) && Distance(failed, best) <= Distance(failed, key)
    ensures BestSoFar(failed, seen + {key}, best, ambiguous || Distance(failed, key) == Distance(failed, best))
  {
    if Tied(failed, seen, best) {
      var other :| other in seen && other != best && Distance(failed, other) == Distance(failed, best);
      assert other in seen + {key};
    }
    if Distance(failed, key) == Distance(failed, best) {
      assert key in seen + {key};
    }
  }

  /** An unambiguous best among all new flags is the nearest one, if near enough;
      a tie, or no new flag at all, leaves none. */
  lemma BestIsNearest(failed: Entry, success: Entry, best: string, ambiguous: bool)
    requires FlagName(failed.failedFlag) != ""
    requires BestSoFar(failed, NewFlags(failed, success), best, ambiguous)
    ensures (exists key :: IsNearest(failed, success, key)) <==> IsNearest(failed, success, best)
    ensures forall key :: IsNearest(failed, success, key) ==> key == best
    ensures IsNearest(failed, success, best)
        <==> !ambiguous && Distance(failed, best) <= MaxDistance(FlagName(failed.failedFlag), FlagName(best))
  {
    hide Distance, FlagName, NewFlags, MaxDistance;
    forall key | IsNearest(failed, success, key) ensures key == best {
    }
  }

  method Measure(failed: Entry, key: string) returns (distance: nat)
    ensures distance == Distance(failed, key)
  {
    distance := EditDistance.EditDistance(FlagName(failed.failedFlag), FlagName(key));
  }

  /** One pass over the flags of the retry, in any order. */
  method FindBest(failed: Entry, keys: set<string>)
    returns (best: string, bestDistance: nat, ambiguous: bool, found: bool)
    requires FlagName(failed.failedFlag) != ""
    ensures found <==> NewAmong(failed, keys) != {}
    ensures found ==> bestDistance == Distance(failed, best)
    ensures found ==> BestSoFar(failed, NewAmong(failed, keys), best, ambiguous)
  {
    hide Distance, FlagName, BestSoFar, IsNew, Names;
    best, bestDistance, ambiguous, found := "", 0, false, false;
    var remaining, seen := keys, {};
    while remaining != {}
      invariant remaining <= keys && seen == NewAmong(failed, keys - remaining)
      invariant found <==> seen != {}
      invariant found ==> bestDistance == Distance(failed, best) && BestSoFar(failed, seen, best, ambiguous)
      decreases |remaining|
    {
      var key :| key in remaining;
      var isNew := IsNew(failed, key);
      AddOne(failed, keys - remaining, key);
      assert keys - (remaining - {key}) == (keys - remaining) + {key};
      remaining := remaining - {key};
      if !isNew {
        continue;
      }
      var distance := Measure(failed, key);
      if !found || distance < bestDistance {
        NearerFlag(failed, seen, best, ambiguous, key);
        best, bestDistance, ambiguous, found := key, distance, false, true;
      } else {
        NoNearerFlag(failed, seen, best, ambiguous, key);
        if distance == bestDistance {
          ambiguous := true;
        }
      }
      seen := seen + {key};
    }
    assert keys - {} == keys;
  }

  lemma AddOne(failed: Entry, keys: set<string>, key: string)
    requires key !in keys
    ensures key !in NewAmong(failed, keys)
    ensures NewAmong(failed, keys + {key}) == NewAmong(failed, keys) + if IsNew(failed, key) then {key} else {}
  {
  }

  /** Whatever order the map of flags is visited in, the result is the one
      nearest new flag, or nothing. */
  method InferCorrectedFlag(failed: Entry, success: Entry) returns (flag: string)
    ensures flag != "" <==> exists key :: IsNearest(failed, success, key)
    ensures forall key :: IsNearest(failed, success, key) ==> flag == "--" + FlagName(key)
    ensures flag == InferredFlag(failed, success)
  {
    hide Distance, FlagName, Names, BestSoFar;
    if FlagName(failed.failedFlag) == "" {
      return "";
    }
    var best, bestDistance, ambiguous, found := FindBest(failed, success.argvShape.Keys);
    if !found {
      return "";
    }
    BestIsNearest(failed, success, best, ambiguous);
    if bestDistance > MaxDistance(FlagName(failed.failedFlag), FlagName(best)) || ambiguous {
      return "";
    }
    return "--" + FlagName(best);
  }

  /** A recorded suggestion decides alone; only without one is the correction
      inferred. */
  ghost function CorrectedFlag(failed: Entry, success: Entry): string {
    var suggested := NormalizeFlagToken(failed.suggestedFlag);
    if suggested == "" then InferredFlag(failed, success)
    else if FlagName(failed.suggestedFlag) in success.argvShape then suggested
    else ""
  }

  method CorrectedFlagForPair(failed: Entry, success: Entry) returns (flag: string)
    ensures flag == CorrectedFlag(failed, success)
    ensures FlagName(failed.failedFlag) != "" ==>
      if flag != "" then Heals(failed, success, flag) else forall other :: !Heals(failed, success, other)
  {
    hide NormalizeFlagToken, Heals;
    if FlagName(failed.failedFlag) != "" {
      forall other | Heals(failed, success, other) ensures other != "" && CorrectedFlag(failed, success) == other {
        EmptyHealsNothing(failed, success);
        HealsExactly(failed, success, other);
      }
      if CorrectedFlag(failed, success) != "" {
        HealsExactly(failed, success, CorrectedFlag(failed, success));
      }
    }
    NamedFlag(failed.suggestedFlag);
    var suggested := NormalizeFlagToken(failed.suggestedFlag);
    if suggested != "" {
      if TrimLeftDashes(suggested) in success.argvShape {
        return suggested;
      }
      return "";
    }
    flag := InferCorrectedFlag(failed, success);
  }

  // ----- pairing -----

  type FlagTree = string -> bool

  predicate IsRecall(e: Entry) {
    |e.cmd| > 0 && e.cmd[0] == "recall" && e.queryFamily != ""
  }

  /** A failed, healable flag at a known time. */
  predicate IsFailure(e: Entry, flagExists: FlagTree) {
    && e.exitCode != 0 && e.failedFlag != ""
    && NormalizeFlagToken(e.failedFlag) != ""
    && !flagExists(FlagName(e.failedFlag))
    && e.ts.Some?
  }

  predicate SameCommand(a: Entry, b: Entry) {
    a.session == b.session && a.cmd == b.cmd
  }

  /** Index of the next invocation like `e` at or after `from`, |entries| if none. */
  function NextLike(entries: seq<Entry>, e: Entry, from: nat): (next: nat)
    requires from <= |entries|
    ensures from <= next <= |entries|
    ensures next < |entries| ==> SameCommand(entries[next], e)
    ensures forall k :: from <= k < next ==> !SameCommand(entries[k], e)
    decreases |entries| - from
  {
    if from == |entries| || SameCommand(entries[from], e) then from else NextLike(entries, e, from + 1)
  }

  function Lookup(families: map<string, string>, session: string): string {
    if session in families then families[session] else ""
  }

  function Learn(families: map<string, string>, e: Entry): map<string, string> {
    if IsRecall(e) then families[e.session := e.queryFamily] else families
  }

  /** The most recent recall family of each session, starting from `seed`. */
  function Families(entries: seq<Entry>, seed: map<string, string>): map<string, string> {
    if entries == [] then seed
    else Learn(Families(entries[..|entries| - 1], seed), entries[|entries| - 1])
  }

  /** Does `success` correct the failure `e` in time? */
  predicate InWindow(e: Entry, success: Entry) {
    && success.exitCode == 0 && e.ts.Some? && success.ts.Some?
    && e.ts.value <= success.ts.value <= e.ts.value + CORRECTION_WINDOW
  }

  /** The correction one failure and the next like invocation yield, if any. */
  ghost function Pair(e: Entry, success: Entry, family: string): seq<Correction> {
    var corrected := CorrectedFlag(e, success);
    var failed := NormalizeFlagToken(e.failedFlag);
    if InWindow(e, success) && corrected != "" && corrected != failed
    then [Correction(e.cmd, failed, corrected, Example(success.cmd, success.argvShape.Keys), family)]
    else []
  }

  ghost function PairAt(entries: seq<Entry>, i: nat, family: string, flagExists: FlagTree): seq<Correction>
    requires i < |entries|
  {
    var next := NextLike(entries, entries[i], i + 1);
    if !IsFailure(entries[i], flagExists) || next == |entries| then []
    else Pair(entries[i], entries[next], family)
  }

  ghost function PairsUpTo(entries: seq<Entry>, n: nat, seed: map<string, string>,
                           flagExists: FlagTree): seq<Correction>
    requires n <= |entries|
  {
    if n == 0 then []
    else
      var family := Lookup(Families(entries[..n], seed), entries[n - 1].session);
      PairsUpTo(entries, n - 1, seed, flagExists) + PairAt(entries, n - 1, family, flagExists)
  }

  /** Everything one pass over `entries` derives. */
  ghost function Pairs(entries: seq<Entry>, seed: map<string, string>, flagExists: FlagTree): seq<Correction> {
    PairsUpTo(entries, |entries|, seed, flagExists)
  }

  lemma NoPairs(entries: seq<Entry>, seed: map<string, string>, flagExists: FlagTree)
    ensures PairsUpTo(entries, 0, seed, flagExists) == []
  {
  }

  lemma {:induction false} LastPair(entries: seq<Entry>, n: nat, seed: map<string, string>, flagExists: FlagTree)
    requires 0 < n <= |entries|
    ensures PairsUpTo(entries, n, seed, flagExists)
         == PairsUpTo(entries, n - 1, seed, flagExists)
          + PairAt(entries, n - 1, Lookup(Families(entries[..n], seed), entries[n - 1].session), flagExists)
  {
  }

  /** A failure whose correction may still arrive. */
  predicate IsOpen(entries: seq<Entry>, i: nat, now: int, flagExists: FlagTree)
    requires i < |entries|
  {
    && IsFailure(entries[i], flagExists)
    && NextLike(entries, entries[i], i + 1) == |entries|
    && now - entries[i].ts.value <= CORRECTION_WINDOW
  }

  ghost predicate PendingUpTo(entries: seq<Entry>, n: nat, now: int, flagExists: FlagTree)
    requires n <= |entries|
  {
    exists i :: 0 <= i < n && IsOpen(entries, i, now, flagExists)
  }

  ghost predicate Pending(entries: seq<Entry>, now: int, flagExists: FlagTree) {
    PendingUpTo(entries, |entries|, now, flagExists)
  }

  /** One turn of the pairing loop: the correction entry `i` yields, and whether
      it must wait for one. */
  method PairEntry(entries: seq<Entry>, i: nat, family: string, now: int, flagExists: FlagTree)
    returns (pair: seq<Correction>, open: bool)
    requires i < |entries|
    ensures pair == PairAt(entries, i, family, flagExists)
    ensures open == IsOpen(entries, i, now, flagExists)
  {
    hide CorrectedFlag, NormalizeFlagToken, FlagName;
    var e := entries[i];
    if e.exitCode == 0 || e.failedFlag == "" {
      return [], false;
    }
    var failed := NormalizeFlagToken(e.failedFlag);
    if failed == "" {
      return [], false;
    }
    if flagExists(FlagName(e.failedFlag)) {
      return [], false;
    }
    if e.ts.None? {
      return [], false;
    }
    var next := i + 1;
    while next < |entries| && !SameCommand(entries[next], e)
      invariant i < next <= |entries| && NextLike(entries, e, i + 1) == NextLike(entries, e, next)
    {
      next := next + 1;
    }
    if next == |entries| {
      return [], now - e.ts.value <= CORRECTION_WINDOW;
    }
    var success := entries[next];
    if success.exitCode != 0 {
      return [], false;
    }
    if success.ts.None? || success.ts.value < e.ts.value || success.ts.value - e.ts.value > CORRECTION_WINDOW {
      return [], false;
    }
    var corrected := CorrectedFlagForPair(e, success);
    if corrected == "" || corrected == failed {
      return [], false;
    }
    return [Correction(e.cmd, failed, corrected, Example(success.cmd, success.argvShape.Keys), family)], false;
  }

  lemma {:induction false} NoFamilies(seed: map<string, string>)
    ensures Families([], seed) == seed
  {
  }

  lemma {:induction false} OneMoreEntry(entries: seq<Entry>, i: nat, seed: map<string, string>)
    requires i < |entries|
    ensures Families(entries[..i + 1], seed) == Learn(Families(entries[..i], seed), entries[i])
  {
    assert entries[..i + 1][..i] == entries[..i];
  }

  method PairFlagCorrections(entries: seq<Entry>, recallSeed: map<string, string>, now: int, flagExists: FlagTree)
    returns (pairs: seq<Correction>, pending: bool)
    ensures pairs == Pairs(entries, recallSeed, flagExists)
    ensures pending <==> Pending(entries, now, flagExists)
  {
    hide PairAt, IsOpen, PairsUpTo, Families, Lookup;
    pairs, pending := [], false;
    var lastRecallFamily := recallSeed;
    NoFamilies(recallSeed);
    NoPairs(entries, recallSeed, flagExists);
    for i := 0 to |entries|
      invariant lastRecallFamily == Families(entries[..i], recallSeed)
      invariant pairs == PairsUpTo(entries, i, recallSeed, flagExists)
      invariant pending <==> PendingUpTo(entries, i, now, flagExists)
    {
      var e := entries[i];
      OneMoreEntry(entries, i, recallSeed);
      LastPair(entries, i + 1, recallSeed, flagExists);
      if |e.cmd| > 0 && e.cmd[0] == "recall" && e.queryFamily != "" {
        lastRecallFamily := lastRecallFamily[e.session := e.queryFamily];
      }
      var pair, open := PairEntry(entries, i, Lookup(lastRecallFamily, e.session), now, flagExists);
      pairs := pairs + pair;
      pending := pending || open;
    }
  }

  // ----- the pairing rule, stated without a pass -----

  /** The family of the session's last recall at or before entry `i`; the seed's
      when there is none. */
  ghost predicate IsAnchor(entries: seq<Entry>, n: nat, session: string, seed: map<string, string>, family: string)
    requires n <= |entries|
  {
    || (exists r :: 0 <= r < n && IsLastRecall(entries, r, n, session) && family == entries[r].queryFamily)
    || ((forall k :: 0 <= k < n ==> !IsRecallOf(entries[k], session)) && family == Lookup(seed, session))
  }

  predicate IsRecallOf(e: Entry, session: string) {
    e.session == session && |e.cmd| > 0 && e.cmd[0] == "recall" && e.queryFamily != ""
  }

  predicate IsLastRecall(entries: seq<Entry>, r: nat, n: nat, session: string)
    requires r < n <= |entries|
  {
    IsRecallOf(entries[r], session) && forall k :: r < k < n ==> !IsRecallOf(entries[k], session)
  }

  lemma {:induction false} FamiliesAreAnchors(entries: seq<Entry>, n: nat, session: string, seed: map<string, string>)
    requires n <= |entries|
    ensures IsAnchor(entries, n, session, seed, Lookup(Families(entries[..n], seed), session))
  {
    hide Families, Lookup;
    if n == 0 {
      NoFamilies(seed);
      assert entries[..0] == [];
    } else {
      FamiliesAreAnchors(entries, n - 1, session, seed);
      OneMoreEntry(entries, n - 1, seed);
      LearnOne(Families(entries[..n - 1], seed), entries[n - 1], session);
      if IsRecallOf(entries[n - 1], session) {
        assert IsLastRecall(entries, n - 1, n, session);
      } else if r :| 0 <= r < n - 1 && IsLastRecall(entries, r, n - 1, session)
                     && Lookup(Families(entries[..n - 1], seed), session) == entries[r].queryFamily {
        assert IsLastRecall(entries, r, n, session);
      }
    }
  }

  lemma LearnOne(families: map<string, string>, e: Entry, session: string)
    ensures Lookup(Learn(families, e), session)
         == if IsRecallOf(e, session) then e.queryFamily else Lookup(families, session)
  {
  }

  lemma AnchorIsUnique(entries: seq<Entry>, n: nat, session: string, seed: map<string, string>, f: string, g: string)
    requires n <= |entries| && IsAnchor(entries, n, session, seed, f) && IsAnchor(entries, n, session, seed, g)
    ensures f == g
  {
  }

  /** The failed invocation named no such flag. */
  predicate Introduces(failed: Entry, key: string) {
    FlagName(key) != "" && forall had :: had in failed.argvShape ==> FlagName(had) != FlagName(key)
  }

  function Apart(failed: Entry, key: string): nat {
    EditDistance.Dist(FlagName(failed.failedFlag), FlagName(key))
  }

  /** At most one edit, or edits of at most half of either name. */
  predicate IsClose(failed: Entry, key: string) {
    Apart(failed, key) <= 1
    || (2 * Apart(failed, key) <= |FlagName(failed.failedFlag)| && 2 * Apart(failed, key) <= |FlagName(key)|)
  }

  /** The retry introduced `key`, close to the failed flag and closer than all
      else it introduced. */
  predicate StandsOut(failed: Entry, success: Entry, key: string) {
    && key in success.argvShape && Introduces(failed, key) && IsClose(failed, key)
    && forall other :: other in success.argvShape && other != key && Introduces(failed, other) ==>
         Apart(failed, key) < Apart(failed, other)
  }

  /** `flag` heals the failure: the retry used it as suggested, or, when nothing
      was suggested, it stands out in the retry. */
  ghost predicate Heals(failed: Entry, success: Entry, flag: string) {
    var suggested := FlagName(failed.suggestedFlag);
    if suggested != "" then suggested in success.argvShape && flag == "--" + suggested
    else exists key :: StandsOut(failed, success, key) && flag == "--" + FlagName(key)
  }

  lemma NearestIs(failed: Entry, success: Entry, key: string)
    requires FlagName(failed.failedFlag) != ""
    ensures IsNearest(failed, success, key) <==> StandsOut(failed, success, key)
  {
    hide FlagName;
    assert forall other :: IsNew(failed, other) <==> Introduces(failed, other);
    var added := NewFlags(failed, success);
    assert forall other :: other in added <==> other in success.argvShape && Introduces(failed, other);
  }

  lemma HealsExactly(failed: Entry, success: Entry, flag: string)
    requires FlagName(failed.failedFlag) != "" && flag != ""
    ensures CorrectedFlag(failed, success) == flag <==> Heals(failed, success, flag)
  {
    hide FlagName, NormalizeFlagToken, IsNearest, StandsOut;
    NamedFlag(failed.suggestedFlag);
    forall key ensures IsNearest(failed, success, key) <==> StandsOut(failed, success, key) {
      NearestIs(failed, success, key);
    }
    OneNearest(failed, success);
  }

  lemma OneNearest(failed: Entry, success: Entry)
    ensures forall key, other :: IsNearest(failed, success, key) && IsNearest(failed, success, other) ==> key == other
  {
    hide Distance, NewFlags, MaxDistance, FlagName;
  }

  /** Entry `j` is the next invocation like the failure `i`, succeeded within a
      quarter of an hour, and used another flag that heals it: together they make
      the correction `c`. */
  ghost predicate Corrects(entries: seq<Entry>, seed: map<string, string>, flagExists: FlagTree, i: nat, j: nat,
                           c: Correction)
    requires i < j < |entries|
  {
    var e, success := entries[i], entries[j];
    var name := FlagName(e.failedFlag);
    && e.exitCode != 0 && name != "" && !flagExists(name)
    && success.session == e.session && success.cmd == e.cmd
    && (forall k :: i < k < j ==> entries[k].session != e.session || entries[k].cmd != e.cmd)
    && success.exitCode == 0 && e.ts.Some? && success.ts.Some?
    && 0 <= success.ts.value - e.ts.value <= 900_000_000_000
    && Heals(e, success, c.correctedFlag) && c.correctedFlag != c.failedFlag == "--" + name
    && c.cmd == e.cmd && c.example == Example(success.cmd, success.argvShape.Keys)
    && IsAnchor(entries, i + 1, e.session, seed, c.queryFamily)
  }

  lemma PairIsExact(e: Entry, success: Entry, family: string, c: Correction)
    requires FlagName(e.failedFlag) != ""
    ensures c in Pair(e, success, family) <==> (
      && InWindow(e, success) && Heals(e, success, c.correctedFlag)
      && c.correctedFlag != c.failedFlag == "--" + FlagName(e.failedFlag)
      && c.cmd == e.cmd && c.example == Example(success.cmd, success.argvShape.Keys) && c.queryFamily == family)
  {
    hide FlagName, NormalizeFlagToken, CorrectedFlag, Heals;
    NamedFlag(e.failedFlag);
    if c.correctedFlag != "" {
      HealsExactly(e, success, c.correctedFlag);
    } else {
      EmptyHealsNothing(e, success);
    }
  }

  lemma EmptyHealsNothing(failed: Entry, success: Entry)
    ensures !Heals(failed, success, "")
  {
    hide FlagName;
  }

  /** Some invocation corrects the failure at `i`. */
  ghost predicate HasCorrection(entries: seq<Entry>, seed: map<string, string>, flagExists: FlagTree, i: nat,
                                c: Correction)
    requires i < |entries|
  {
    exists j :: i < j < |entries| && Corrects(entries, seed, flagExists, i, j, c)
  }

  lemma PairAtIsExact(entries: seq<Entry>, seed: map<string, string>, flagExists: FlagTree, i: nat, c: Correction)
    requires i < |entries|
    ensures var family := Lookup(Families(entries[..i + 1], seed), entries[i].session);
      c in PairAt(entries, i, family, flagExists) <==> HasCorrection(entries, seed, flagExists, i, c)
  {
    hide NormalizeFlagToken, FlagName, CorrectedFlag, Families, Lookup, IsAnchor, NextLike, Heals, Pair, IsRecallOf;
    var e, session := entries[i], entries[i].session;
    var family, next := Lookup(Families(entries[..i + 1], seed), session), NextLike(entries, e, i + 1);
    FamiliesAreAnchors(entries, i + 1, session, seed);
    NamedFlag(e.failedFlag);
    if FlagName(e.failedFlag) != "" && next < |entries| {
      PairIsExact(e, entries[next], family, c);
    }
    if c in PairAt(entries, i, family, flagExists) {
      assert Corrects(entries, seed, flagExists, i, next, c);
    }
    if j :| i < j < |entries| && Corrects(entries, seed, flagExists, i, j, c) {
      assert SameCommand(entries[j], e) && forall k :: i < k < j ==> !SameCommand(entries[k], e);
      assert j == next;
      AnchorIsUnique(entries, i + 1, session, seed, family, c.queryFamily);
    }
  }

  lemma PairAtIsOne(entries: seq<Entry>, i: nat, family: string, flagExists: FlagTree)
    requires i < |entries|
    ensures |PairAt(entries, i, family, flagExists)| <= 1
  {
    hide CorrectedFlag, NormalizeFlagToken, FlagName, NextLike;
  }

  /** The corrections come in the order of the failures, one for each failure
      that has any: the m-th is that of the failure at `failures[m]`. */
  ghost predicate ComeFrom(entries: seq<Entry>, n: nat, seed: map<string, string>, flagExists: FlagTree,
                           pairs: seq<Correction>, failures: seq<nat>)
  {
    && |failures| == |pairs| && n <= |entries|
    && (forall m :: 0 <= m < |failures| ==>
          failures[m] < n && HasCorrection(entries, seed, flagExists, failures[m], pairs[m]))
    && (forall l, m :: 0 <= l < m < |failures| ==> failures[l] < failures[m])
    && (forall i, c :: 0 <= i < n && HasCorrection(entries, seed, flagExists, i, c) ==> i in failures)
  }

  lemma OneMoreFailure(entries: seq<Entry>, n: nat, seed: map<string, string>, flagExists: FlagTree,
                       pairs: seq<Correction>, failures: seq<nat>, last: seq<Correction>)
    requires n < |entries| && ComeFrom(entries, n, seed, flagExists, pairs, failures) && |last| <= 1
    requires forall c :: c in last <==> HasCorrection(entries, seed, flagExists, n, c)
    ensures ComeFrom(entries, n + 1, seed, flagExists, pairs + last, failures + if last == [] then [] else [n])
  {
    hide HasCorrection;
    if last != [] {
      var more := failures + [n];
      assert last[0] in last && pairs + last == pairs + [last[0]];
      forall i, c | 0 <= i < n + 1 && HasCorrection(entries, seed, flagExists, i, c) ensures i in more {
        assert more[|failures|] == n;
        assert i < n ==> i in failures;
      }
    } else {
      assert pairs + last == pairs && failures + [] == failures;
    }
  }

  lemma {:induction false} PairsUpToInOrder(entries: seq<Entry>, n: nat, seed: map<string, string>,
                                            flagExists: FlagTree) returns (failures: seq<nat>)
    requires n <= |entries|
    ensures ComeFrom(entries, n, seed, flagExists, PairsUpTo(entries, n, seed, flagExists), failures)
  {
    hide PairsUpTo, PairAt, Families, Lookup, HasCorrection;
    if n == 0 {
      NoPairs(entries, seed, flagExists);
      failures := [];
    } else {
      var before := PairsUpToInOrder(entries, n - 1, seed, flagExists);
      hide ComeFrom;
      LastPair(entries, n, seed, flagExists);
      var family := Lookup(Families(entries[..n], seed), entries[n - 1].session);
      var last := PairAt(entries, n - 1, family, flagExists);
      PairAtIsOne(entries, n - 1, family, flagExists);
      forall c ensures c in last <==> HasCorrection(entries, seed, flagExists, n - 1, c) {
        PairAtIsExact(entries, seed, flagExists, n - 1, c);
      }
      OneMoreFailure(entries, n - 1, seed, flagExists, PairsUpTo(entries, n - 1, seed, flagExists), before, last);
      failures := before + if last == [] then [] else [n - 1];
    }
  }

  /** One pass derives exactly one correction for every failure that has one, in
      the order of the failures. */
  lemma PairsComeInOrder(entries: seq<Entry>, seed: map<string, string>, flagExists: FlagTree)
    returns (failures: seq<nat>)
    ensures ComeFrom(entries, |entries|, seed, flagExists, Pairs(entries, seed, flagExists), failures)
  {
    failures := PairsUpToInOrder(entries, |entries|, seed, flagExists);
  }

  /** One pass derives a correction if and only if some failure and the next
      invocation like it make it. */
  lemma PairsAreExact(entries: seq<Entry>, seed: map<string, string>, flagExists: FlagTree, c: Correction)
    ensures c in Pairs(entries, seed, flagExists)
      <==> exists i, j :: 0 <= i < j < |entries| && Corrects(entries, seed, flagExists, i, j, c)
  {
    hide Corrects, Pairs, PairAt, Families, Lookup;
    var pairs := Pairs(entries, seed, flagExists);
    var failures := PairsComeInOrder(entries, seed, flagExists);
    if i, j :| 0 <= i < j < |entries| && Corrects(entries, seed, flagExists, i, j, c) {
      assert HasCorrection(entries, seed, flagExists, i, c);
      var m :| 0 <= m < |failures| && failures[m] == i;
      assert HasCorrection(entries, seed, flagExists, i, pairs[m]);
      PairAtIsOne(entries, i, Lookup(Families(entries[..i + 1], seed), entries[i].session), flagExists);
      PairAtIsExact(entries, seed, flagExists, i, c);
      PairAtIsExact(entries, seed, flagExists, i, pairs[m]);
    }
  }

  /** The batch is held back exactly while some healable failure, stamped no more
      than a quarter of an hour before the clock, has not been followed by an
      invocation like it. */
  lemma HeldBackExactly(entries: seq<Entry>, now: int, flagExists: FlagTree)
    ensures Pending(entries, now, flagExists) <==> exists i :: 0 <= i < |entries| && Waits(entries, i, now, flagExists)
  {
    hide FlagName, NormalizeFlagToken;
    forall i | 0 <= i < |entries|
      ensures IsOpen(entries, i, now, flagExists) <==> Waits(entries, i, now, flagExists)
    {
      NamedFlag(entries[i].failedFlag);
      var next := NextLike(entries, entries[i], i + 1);
      assert next < |entries| ==> i < next && SameCommand(entries[next], entries[i]);
    }
  }

  predicate Waits(entries: seq<Entry>, i: nat, now: int, flagExists: FlagTree)
    requires i < |entries|
  {
    var e := entries[i];
    && e.exitCode != 0 && FlagName(e.failedFlag) != "" && !flagExists(FlagName(e.failedFlag))
    && e.ts.Some? && now <= e.ts.value + 900_000_000_000
    && forall k :: i < k < |entries| ==> entries[k].session != e.session || entries[k].cmd != e.cmd
  }

  /** Every flag ever put forward as a correction was one the retry used. */
  lemma CorrectedFlagsWereUsed(entries: seq<Entry>, seed: map<string, string>, flagExists: FlagTree, c: Correction)
    requires c in Pairs(entries, seed, flagExists)
    ensures exists key :: key in c.example.flags && c.correctedFlag in {"--" + key, "--" + FlagName(key)}
  {
    hide Pairs, FlagName, IsAnchor;
    PairsAreExact(entries, seed, flagExists, c);
    var i, j :| 0 <= i < j < |entries| && Corrects(entries, seed, flagExists, i, j, c);
    var suggested := FlagName(entries[i].suggestedFlag);
    if suggested == "" {
      var key :| StandsOut(entries[i], entries[j], key) && c.correctedFlag == "--" + FlagName(key);
      assert key in c.example.flags;
    } else {
      assert suggested in c.example.flags;
    }
  }

  /** A suggestion decides alone: when the retry did not use the suggested flag,
      the failure yields nothing, whatever else the retry introduced. */
  lemma UnusedSuggestionsYieldNothing(entries: seq<Entry>, seed: map<string, string>, flagExists: FlagTree, i: nat,
                                      j: nat, c: Correction)
    requires i < j < |entries| && SameCommand(entries[j], entries[i])
    requires forall k :: i < k < j ==> !SameCommand(entries[k], entries[i])
    requires FlagName(entries[i].suggestedFlag) != ""
    requires FlagName(entries[i].suggestedFlag) !in entries[j].argvShape
    ensures PairAt(entries, i, Lookup(Families(entries[..i + 1], seed), entries[i].session), flagExists) == []
    ensures !HasCorrection(entries, seed, flagExists, i, c)
  {
    hide NormalizeFlagToken, FlagName, IsAnchor, Families, Lookup, PairAt, StandsOut;
    var pairs := PairAt(entries, i, Lookup(Families(entries[..i + 1], seed), entries[i].session), flagExists);
    forall k, d | i < k < |entries| ensures !Corrects(entries, seed, flagExists, i, k, d) {
      assert SameCommand(entries[k], entries[i]) ==> j <= k;
    }
    if pairs != [] {
      PairAtIsExact(entries, seed, flagExists, i, pairs[0]);
    }
  }
}
