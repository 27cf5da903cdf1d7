/** Playbook lookups with the fold in use: what callers look up, which families
    that can strand, and the instances.

    A caller folds the words of its query where they stand next to each other and
    in order; the lookup folds stored keys as bags.  Words are lowercase, without
    punctuation, stopwords or entities. */
module FamilyRuns {
  import opened FamilyKeys
  import opened Playbooks
  import opened Text
  import opened Wrappers

  // ----- folding a phrase -----

  predicate MatchesAt(rule: Rule, words: seq<ByteString>, i: nat) {
    rule.variant != [] && i + |rule.variant| <= |words| && words[i..i + |rule.variant|] == rule.variant
  }

  function FirstMatch(rules: seq<Rule>, words: seq<ByteString>, i: nat): (found: Option<Rule>)
    ensures found.Some? ==> found.value in rules && MatchesAt(found.value, words, i)
    ensures found.None? ==> forall rule :: rule in rules ==> !MatchesAt(rule, words, i)
  {
    if rules == [] then None
    else if MatchesAt(rules[0], words, i) then Some(rules[0])
    else FirstMatch(rules[1..], words, i)
  }

  function FoldPhrase(rules: seq<Rule>, words: seq<ByteString>, i: nat): seq<ByteString>
    requires i <= |words|
    decreases |words| - i
  {
    if i == |words| then []
    else
      match FirstMatch(rules, words, i)
      case None => [words[i]] + FoldPhrase(rules, words, i + 1)
      case Some(rule) => rule.canonical + FoldPhrase(rules, words, i + |rule.variant|)
  }

  lemma PhraseStep(rules: seq<Rule>, words: seq<ByteString>, i: nat)
    requires i < |words|
    ensures FoldPhrase(rules, words, i)
         == match FirstMatch(rules, words, i)
            case None => [words[i]] + FoldPhrase(rules, words, i + 1)
            case Some(rule) => rule.canonical + FoldPhrase(rules, words, i + |rule.variant|)
  {
  }

  lemma Regroup<T>(a: seq<T>, b: seq<T>, c: seq<T>)
    ensures a + (b + c) == a + b + c
  {
  }

  lemma MatchStep(rules: seq<Rule>, words: seq<ByteString>, i: nat, r: nat)
    requires r < |rules|
    ensures FirstMatch(rules[r..], words, i)
         == if MatchesAt(rules[r], words, i) then Some(rules[r]) else FirstMatch(rules[r + 1..], words, i)
  {
    assert rules[r..][1..] == rules[r + 1..];
  }

  method MatchSynonymAt(rules: seq<Rule>, words: seq<ByteString>, i: nat) returns (found: Option<Rule>)
    requires AreRules(rules)
    ensures found == FirstMatch(rules, words, i)
  {
    hide FirstMatch;
    assert rules[0..] == rules;
    for r := 0 to |rules|
      invariant FirstMatch(rules, words, i) == FirstMatch(rules[r..], words, i)
    {
      MatchStep(rules, words, i, r);
      var rule := rules[r];
      if i + |rule.variant| > |words| {
        continue;
      }
      var matches := true;
      for k := 0 to |rule.variant|
        invariant matches && forall j :: 0 <= j < k ==> words[i + j] == rule.variant[j]
      {
        if words[i + k] != rule.variant[k] {
          matches := false;
          assert words[i..i + |rule.variant|][k] != rule.variant[k];
          break;
        }
      }
      if matches {
        assert words[i..i + |rule.variant|] == rule.variant;
        return Some(rule);
      }
    }
    NoMatchLeft(words, i);
    return None;
  }

  lemma NoMatchLeft(words: seq<ByteString>, i: nat)
    ensures FirstMatch([], words, i) == None
  {
  }

  method FoldSynonyms(rules: seq<Rule>, words: seq<ByteString>) returns (out: seq<ByteString>)
    requires AreRules(rules)
    ensures out == FoldPhrase(rules, words, 0)
  {
    hide FoldPhrase, FirstMatch;
    out := [];
    PhraseEnds(rules, words);
    var i := 0;
    while i < |words|
      invariant i <= |words| && out + FoldPhrase(rules, words, i) == FoldPhrase(rules, words, 0)
      decreases |words| - i
    {
      PhraseStep(rules, words, i);
      var rule := MatchSynonymAt(rules, words, i);
      if rule.None? {
        Regroup(out, [words[i]], FoldPhrase(rules, words, i + 1));
        out := out + [words[i]];
        i := i + 1;
      } else {
        var next := i + |rule.value.variant|;
        Regroup(out, rule.value.canonical, FoldPhrase(rules, words, next));
        out := out + rule.value.canonical;
        i := next;
      }
    }
  }

  /** Rule `r` is the first whose variant stands at word `i`. */
  predicate StandsFirst(rules: seq<Rule>, words: seq<ByteString>, i: nat, r: nat) {
    && r < |rules| && i <= |words| && rules[r].variant != [] && rules[r].variant <= words[i..]
    && forall q :: 0 <= q < r ==> !MatchesAt(rules[q], words, i)
  }

  lemma {:induction false} FirstStandsFirst(rules: seq<Rule>, words: seq<ByteString>, i: nat) returns (r: nat)
    requires i < |words| && FirstMatch(rules, words, i).Some?
    ensures StandsFirst(rules, words, i, r) && rules[r] == FirstMatch(rules, words, i).value
  {
    if MatchesAt(rules[0], words, i) {
      r := 0;
      assert rules[0].variant <= words[i..];
    } else {
      r := FirstStandsFirst(rules[1..], words, i);
      r := r + 1;
    }
  }

  /** The piece of a phrase that begins at word `i` is the variant of the first rule
      that stands there and becomes its canonical words, or it is a single word
      where no rule stands and stays. */
  ghost predicate FoldsPiece(rules: seq<Rule>, words: seq<ByteString>, i: nat, piece: seq<ByteString>,
                             out: seq<ByteString>) {
    || (exists r: nat :: StandsFirst(rules, words, i, r) && piece == rules[r].variant && out == rules[r].canonical)
    || ((forall rule :: rule in rules ==> !MatchesAt(rule, words, i)) && i < |words| && piece == [words[i]]
        && out == piece)
  }

  function Joined(pieces: seq<seq<ByteString>>): seq<ByteString> {
    if pieces == [] then [] else pieces[0] + Joined(pieces[1..])
  }

  /** A phrase from word `i` on is cut into the pieces, and each becomes its part of `outs`. */
  ghost predicate FoldsPieces(rules: seq<Rule>, words: seq<ByteString>, i: nat, pieces: seq<seq<ByteString>>,
                              outs: seq<seq<ByteString>>)
    decreases |pieces|
  {
    && |pieces| == |outs| && i <= |words|
    && if pieces == [] then i == |words|
       else FoldsPiece(rules, words, i, pieces[0], outs[0])
            && FoldsPieces(rules, words, i + |pieces[0]|, pieces[1..], outs[1..])
  }

  lemma OnePiece(rules: seq<Rule>, words: seq<ByteString>, i: nat)
    returns (piece: seq<ByteString>, out: seq<ByteString>)
    requires i < |words|
    ensures FoldsPiece(rules, words, i, piece, out)
    ensures piece != [] && i + |piece| <= |words| && words[i..] == piece + words[i + |piece|..]
    ensures FoldPhrase(rules, words, i) == out + FoldPhrase(rules, words, i + |piece|)
  {
    hide FirstMatch, FoldPhrase;
    PhraseStep(rules, words, i);
    var found := FirstMatch(rules, words, i);
    if found.Some? {
      var r := FirstStandsFirst(rules, words, i);
      piece, out := found.value.variant, found.value.canonical;
    } else {
      piece, out := [words[i]], [words[i]];
    }
  }

  lemma NoPieces(rules: seq<Rule>, words: seq<ByteString>)
    ensures FoldsPieces(rules, words, |words|, [], [])
    ensures Joined([]) == words[|words|..] && Joined([]) == FoldPhrase(rules, words, |words|)
  {
  }

  lemma MorePieces(rules: seq<Rule>, words: seq<ByteString>, i: nat, piece: seq<ByteString>, out: seq<ByteString>,
                   pieces: seq<seq<ByteString>>, outs: seq<seq<ByteString>>)
    requires FoldsPiece(rules, words, i, piece, out) && FoldsPieces(rules, words, i + |piece|, pieces, outs)
    ensures FoldsPieces(rules, words, i, [piece] + pieces, [out] + outs)
    ensures Joined([piece] + pieces) == piece + Joined(pieces) && Joined([out] + outs) == out + Joined(outs)
  {
    hide FoldsPiece;
    assert ([piece] + pieces)[1..] == pieces && ([out] + outs)[1..] == outs;
  }

  /** Folding in place cuts the phrase from left to right and replaces piece by
      piece; what a rule puts in is not looked at again. */
  lemma {:induction false} PhraseIsFoldedInPieces(rules: seq<Rule>, words: seq<ByteString>, i: nat)
    returns (pieces: seq<seq<ByteString>>, outs: seq<seq<ByteString>>)
    requires i <= |words|
    ensures FoldsPieces(rules, words, i, pieces, outs)
    ensures Joined(pieces) == words[i..] && Joined(outs) == FoldPhrase(rules, words, i)
    decreases |words| - i
  {
    hide FoldsPiece, FoldsPieces, Joined, FoldPhrase;
    if i == |words| {
      NoPieces(rules, words);
      pieces, outs := [], [];
    } else {
      var piece, out := OnePiece(rules, words, i);
      var others, rest := PhraseIsFoldedInPieces(rules, words, i + |piece|);
      MorePieces(rules, words, i, piece, out, others, rest);
      pieces, outs := [piece] + others, [out] + rest;
    }
  }

  /** The key of a phrase: its words sorted. */
  function PhraseKey(words: seq<ByteString>): ByteString {
    JoinWords(SortWords(words))
  }

  /** The family a query has. */
  function QueryFamily(rules: seq<Rule>, words: seq<ByteString>): ByteString {
    PhraseKey(FoldPhrase(rules, words, 0))
  }

  ghost function BagFold(rules: seq<Rule>): Fold {
    family => FamilyKey(Some(rules), family)
  }

  // ----- with disjoint variants, firing any fitting rule first changes nothing -----

  /** No word belongs to two variants. */
  predicate Disjoint(rules: seq<Rule>) {
    forall i, j, w :: 0 <= i < |rules| && 0 <= j < |rules| && i != j && w in rules[i].variant ==> w !in rules[j].variant
  }

  ghost predicate GoodRules(rules: seq<Rule>) {
    AreRules(rules) && MapsStraight(rules) && Disjoint(rules)
  }

  lemma FireLeavesAlone(rules: seq<Rule>, j: nat, k: nat, bag: Bag, w: ByteString)
    requires GoodRules(rules) && j < |rules| && k < |rules| && j != k && w in rules[j].variant
    ensures Fire(rules[k], bag)[w] == bag[w]
  {
    assert w !in rules[k].variant && w !in rules[k].canonical;
    assert multiset(rules[k].variant)[w] == 0 && multiset(rules[k].canonical)[w] == 0;
  }

  lemma FitsAnyway(rules: seq<Rule>, j: nat, k: nat, bag: Bag)
    requires GoodRules(rules) && j < |rules| && k < |rules| && j != k
    ensures Fits(rules[j], Fire(rules[k], bag)) <==> Fits(rules[j], bag)
  {
    forall w ensures multiset(rules[j].variant)[w] <= Fire(rules[k], bag)[w]
                 <==> multiset(rules[j].variant)[w] <= bag[w] {
      if w in multiset(rules[j].variant) {
        FireLeavesAlone(rules, j, k, bag, w);
      }
    }
    if Fits(rules[j], Fire(rules[k], bag)) {
      assert forall w :: multiset(rules[j].variant)[w] <= Fire(rules[k], bag)[w];
    }
    if Fits(rules[j], bag) {
      assert forall w :: multiset(rules[j].variant)[w] <= bag[w];
    }
  }

  lemma FiringsCommute(rules: seq<Rule>, j: nat, k: nat, bag: Bag)
    requires GoodRules(rules) && j < |rules| && k < |rules| && j != k && Fits(rules[j], bag) && Fits(rules[k], bag)
    ensures Fire(rules[j], Fire(rules[k], bag)) == Fire(rules[k], Fire(rules[j], bag))
  {
    FitsAnyway(rules, j, k, bag);
    FitsAnyway(rules, k, j, bag);
    var vj, cj := multiset(rules[j].variant), multiset(rules[j].canonical);
    var vk, ck := multiset(rules[k].variant), multiset(rules[k].canonical);
    forall w ensures (bag - vk + ck - vj + cj)[w] == (bag - vj + cj - vk + ck)[w] {
      if vj[w] > 0 {
        assert w in rules[j].variant && w !in rules[k].variant && w !in rules[k].canonical;
      } else if vk[w] > 0 {
        assert w in rules[k].variant && w !in rules[j].variant && w !in rules[j].canonical;
      }
    }
  }

  lemma {:induction false} RuleCommutes(rules: seq<Rule>, j: nat, k: nat, bag: Bag, guard: nat)
    requires GoodRules(rules) && j < |rules| && k < |rules| && j != k && Fits(rules[k], bag)
    ensures FoldRule(rules[j], Fire(rules[k], bag), guard) == Fire(rules[k], FoldRule(rules[j], bag, guard))
    ensures Fits(rules[k], FoldRule(rules[j], bag, guard))
    decreases guard
  {
    hide GoodRules, Fits, Fire;
    FitsAnyway(rules, j, k, bag);
    if guard > 0 && Fits(rules[j], bag) {
      FiringsCommute(rules, j, k, bag);
      FitsAnyway(rules, k, j, bag);
      RuleCommutes(rules, j, k, Fire(rules[j], bag), guard - 1);
    }
  }

  lemma {:induction false} FoldAfterFire(rules: seq<Rule>, from: nat, k: nat, bag: Bag, guard: nat)
    requires GoodRules(rules) && from <= k < |rules| && Fits(rules[k], bag) && Guarded(rules, bag, guard)
    ensures FoldBag(rules[from..], Fire(rules[k], bag), guard) == FoldBag(rules[from..], bag, guard)
    decreases k - from
  {
    hide Fits, Fire, FoldRule, AreRules, MapsStraight, Disjoint, Guarded;
    assert rules[from..][0] == rules[from] && rules[from..][1..] == rules[from + 1..];
    if from < k {
      RuleCommutes(rules, from, k, bag, guard);
      RuleStaysGuarded(rules, from, bag, guard);
      FoldAfterFire(rules, from + 1, k, FoldRule(rules[from], bag, guard), guard);
    } else {
      FirstFiring(rules, k, bag, guard);
    }
  }

  lemma RuleStaysGuarded(rules: seq<Rule>, i: nat, bag: Bag, guard: nat)
    requires AreRules(rules) && MapsStraight(rules) && i < |rules| && Guarded(rules, bag, guard)
    ensures Guarded(rules, FoldRule(rules[i], bag, guard), guard)
  {
    hide AreRules, MapsStraight, FoldRule;
    AtLeastOneWord(rules, i);
    RuleDrains(rules, i, bag, guard);
  }

  lemma FirstFiring(rules: seq<Rule>, k: nat, bag: Bag, guard: nat)
    requires AreRules(rules) && MapsStraight(rules) && k < |rules| && Fits(rules[k], bag) && Guarded(rules, bag, guard)
    ensures FoldRule(rules[k], Fire(rules[k], bag), guard) == FoldRule(rules[k], bag, guard)
  {
    hide AreRules, MapsStraight, Fire, Fits;
    AtLeastOneWord(rules, k);
    FireShrinks(rules, k, bag);
    FitsNeedsAWord(rules[k], bag);
    RuleGuardIsSlack(rules, k, Fire(rules[k], bag), guard - 1, guard);
  }

  ghost function NormalForm(rules: seq<Rule>, bag: Bag): Bag {
    FoldBag(rules, bag, |bag|)
  }

  lemma FiringFoldsAlike(rules: seq<Rule>, k: nat, bag: Bag)
    requires GoodRules(rules) && k < |rules| && Fits(rules[k], bag)
    ensures NormalForm(rules, Fire(rules[k], bag)) == NormalForm(rules, bag)
  {
    hide Fits, Fire, FoldBag, AreRules, MapsStraight, Disjoint, Guarded;
    var fired := Fire(rules[k], bag);
    var guard := |bag| + |fired|;
    assert rules[0..] == rules;
    GuardedBySize(rules, bag, guard);
    GuardedBySize(rules, bag, |bag|);
    GuardedBySize(rules, fired, guard);
    GuardedBySize(rules, fired, |fired|);
    FoldAfterFire(rules, 0, k, bag, guard);
    GuardIsSlack(rules, 0, bag, guard, |bag|);
    GuardIsSlack(rules, 0, fired, guard, |fired|);
  }

  /** The words from `i` on as a bag, before and after one step of folding them. */
  lemma BagStep(rules: seq<Rule>, words: seq<ByteString>, i: nat, done: Bag, head: seq<ByteString>,
                folded: seq<ByteString>, next: nat)
    requires i < |words| && i <= next <= |words| && words[i..next] == head
    requires FoldPhrase(rules, words, i) == folded + FoldPhrase(rules, words, next)
    ensures done + multiset(words[i..]) == done + multiset(head) + multiset(words[next..])
    ensures done + multiset(FoldPhrase(rules, words, i))
         == done + multiset(folded) + multiset(FoldPhrase(rules, words, next))
  {
    hide FoldPhrase;
    assert words[i..] == head + words[next..];
  }

  lemma FiringInPlace(rules: seq<Rule>, rule: Rule, done: Bag, rest: Bag)
    requires GoodRules(rules) && rule in rules
    ensures NormalForm(rules, done + multiset(rule.canonical) + rest)
        == NormalForm(rules, done + multiset(rule.variant) + rest)
  {
    hide GoodRules, NormalForm;
    var k :| 0 <= k < |rules| && rules[k] == rule;
    var bag := done + multiset(rule.variant) + rest;
    FiringFoldsAlike(rules, k, bag);
    assert Fire(rule, bag) == done + multiset(rule.canonical) + rest;
  }

  /** A phrase folded in place has the fold of the phrase itself. */
  lemma {:induction false} PhraseFoldsAlike(rules: seq<Rule>, words: seq<ByteString>, i: nat, done: Bag)
    requires GoodRules(rules) && i <= |words|
    ensures NormalForm(rules, done + multiset(FoldPhrase(rules, words, i)))
        == NormalForm(rules, done + multiset(words[i..]))
    decreases |words| - i
  {
    hide GoodRules, NormalForm, FirstMatch, FoldPhrase;
    if i == |words| {
      assert words[i..] == [] == FoldPhrase(rules, words, i) by {
        PhraseEnds(rules, words);
      }
    } else {
      PhraseStep(rules, words, i);
      match FirstMatch(rules, words, i) {
        case None =>
          PhraseFoldsAlike(rules, words, i + 1, done + multiset([words[i]]));
          BagStep(rules, words, i, done, [words[i]], [words[i]], i + 1);
        case Some(rule) =>
          var next := i + |rule.variant|;
          PhraseFoldsAlike(rules, words, next, done + multiset(rule.canonical));
          BagStep(rules, words, i, done, rule.variant, rule.canonical, next);
          FiringInPlace(rules, rule, done, multiset(words[next..]));
      }
    }
  }

  lemma PhraseEnds(rules: seq<Rule>, words: seq<ByteString>)
    ensures FoldPhrase(rules, words, |words|) == []
  {
  }

  // ----- keys of phrases -----

  lemma SortedWords(words: seq<ByteString>)
    requires AreWords(words)
    ensures AreWords(SortWords(words)) && |SortWords(words)| == |words|
    ensures Words(PhraseKey(words)) == SortWords(words)
  {
    var sorted := SortWords(words);
    assert |multiset(sorted)| == |multiset(words)|;
    forall i | 0 <= i < |sorted| ensures IsWord(sorted[i]) {
      assert sorted[i] in multiset(sorted);
      assert sorted[i] in words;
    }
    WordsOfJoin(sorted);
  }

  lemma KeyNotEmpty(words: seq<ByteString>)
    requires AreWords(words)
    ensures PhraseKey(words) == "" <==> words == []
  {
    SortedWords(words);
    NoWords();
    assert words == [] ==> SortWords(words) == [];
  }

  lemma FoldOfPhraseKey(rules: seq<Rule>, words: seq<ByteString>)
    requires AreWords(words)
    ensures FamilyKey(Some(rules), PhraseKey(words)) == JoinWords(SortedList(NormalForm(rules, multiset(words))))
  {
    hide Words, SortWords, AreWords, FoldBag, JoinWords;
    SortedWords(words);
    KeyNotEmpty(words);
    if words == [] {
      EmptyFold(rules);
    }
  }

  lemma EmptyFold(rules: seq<Rule>)
    ensures var none: seq<ByteString> := []; JoinWords(SortedList(NormalForm(rules, multiset(none)))) == ""
  {
    var none: seq<ByteString> := [];
    NoTokens(rules);
    assert multiset(none) == multiset{} && |SortedList(multiset{})| == |multiset(SortedList(multiset{}))| == 0;
  }

  lemma {:induction false} PhraseOfWords(rules: seq<Rule>, words: seq<ByteString>, i: nat)
    requires AreRules(rules) && AreWords(words) && i <= |words|
    ensures AreWords(FoldPhrase(rules, words, i))
    ensures FoldPhrase(rules, words, i) == [] ==> i == |words|
    decreases |words| - i
  {
    hide FirstMatch;
    if i < |words| {
      match FirstMatch(rules, words, i) {
        case None => PhraseOfWords(rules, words, i + 1);
        case Some(rule) =>
          var k :| 0 <= k < |rules| && rules[k] == rule;
          PhraseOfWords(rules, words, i + |rule.variant|);
      }
    }
  }

  lemma MatchFits(rules: seq<Rule>, words: seq<ByteString>, i: nat) returns (k: nat)
    requires FirstMatch(rules, words, i).Some?
    ensures k < |rules| && Fits(rules[k], multiset(words))
  {
    hide FirstMatch;
    var rule := FirstMatch(rules, words, i).value;
    k :| 0 <= k < |rules| && rules[k] == rule;
    var next := i + |rule.variant|;
    assert words == words[..i] + rule.variant + words[next..];
    assert multiset(words) == multiset(words[..i]) + multiset(rule.variant) + multiset(words[next..]);
  }

  /** What no rule fits, as a bag, is left alone as a phrase. */
  lemma {:induction false} NothingToFoldInPlace(rules: seq<Rule>, words: seq<ByteString>, i: nat)
    requires i <= |words| && forall k :: 0 <= k < |rules| ==> !Fits(rules[k], multiset(words))
    ensures FoldPhrase(rules, words, i) == words[i..]
    decreases |words| - i
  {
    hide FirstMatch, Fits;
    if i < |words| {
      if FirstMatch(rules, words, i).Some? {
        var k := MatchFits(rules, words, i);
      } else {
        NothingToFoldInPlace(rules, words, i + 1);
      }
    }
  }

  // ----- which families callers can strand -----

  /** What a caller looks up: the family of its query, with no phrasing, the family
      again, or the key of the query before folding. */
  ghost predicate IsCallerQuery(rules: seq<Rule>, family: ByteString, raw: ByteString) {
    exists words :: IsQueryOf(rules, words, family, raw)
  }

  ghost predicate IsQueryOf(rules: seq<Rule>, words: seq<ByteString>, family: ByteString, raw: ByteString) {
    AreWords(words) && family == QueryFamily(rules, words) && (raw == "" || raw == family || raw == PhraseKey(words))
  }

  lemma FamilyFoldsLikePhrase(rules: seq<Rule>, words: seq<ByteString>)
    requires GoodRules(rules) && AreWords(words)
    ensures FamilyKey(Some(rules), QueryFamily(rules, words)) == FamilyKey(Some(rules), PhraseKey(words))
  {
    hide NormalForm, FoldPhrase, FirstMatch, PhraseKey, FamilyKey, MapsStraight, Disjoint;
    PhraseOfWords(rules, words, 0);
    FoldOfPhraseKey(rules, words);
    FoldOfPhraseKey(rules, FoldPhrase(rules, words, 0));
    PhraseFoldsAlike(rules, words, 0, multiset{});
    assert words[0..] == words;
    assert multiset{} + multiset(words) == multiset(words);
    assert multiset{} + multiset(FoldPhrase(rules, words, 0)) == multiset(FoldPhrase(rules, words, 0));
  }

  lemma CallersFoldAlike(rules: seq<Rule>, family: ByteString, raw: ByteString)
    requires GoodRules(rules) && IsCallerQuery(rules, family, raw)
    ensures FoldsAlike(BagFold(rules), family, raw)
  {
    hide FamilyKey, PhraseKey, QueryFamily, GoodRules;
    var words :| IsQueryOf(rules, words, family, raw);
    FamilyFoldsLikePhrase(rules, words);
  }

  /** A folded key is itself a caller's family. */
  lemma FoldedKeyIsAFamily(rules: seq<Rule>, bag: Bag)
    requires AreRules(rules) && BagOfWords(bag) && forall k :: 0 <= k < |rules| ==> !Fits(rules[k], bag)
    ensures IsCallerQuery(rules, JoinWords(SortedList(bag)), "")
  {
    var words := SortedList(bag);
    forall i | 0 <= i < |words| ensures IsWord(words[i]) {
      assert words[i] in multiset(words);
    }
    NothingToFoldInPlace(rules, words, 0);
    assert words[0..] == words;
    SortIsSorted(words);
    SortedIsUnique(SortWords(words), words);
    assert IsQueryOf(rules, words, JoinWords(words), "");
  }

  /** A phrase's key is its own fold exactly when no rule fits its words as a bag. */
  lemma FoldedExactly(rules: seq<Rule>, words: seq<ByteString>)
    requires AreRules(rules) && MapsStraight(rules) && AreWords(words)
    ensures FamilyKey(Some(rules), PhraseKey(words)) == PhraseKey(words)
        <==> forall k :: 0 <= k < |rules| ==> !Fits(rules[k], multiset(words))
    ensures var normal := NormalForm(rules, multiset(words));
      && BagOfWords(normal) && (forall k :: 0 <= k < |rules| ==> !Fits(rules[k], normal))
      && FamilyKey(Some(rules), PhraseKey(words)) == JoinWords(SortedList(normal))
  {
    hide Fits, FoldBag, FamilyKey, Words, JoinWords, MapsStraight;
    var bag := multiset(words);
    var normal := NormalForm(rules, bag);
    FoldOfPhraseKey(rules, words);
    StraightRulesLeaveNothing(rules, bag, |bag|);
    assert BagOfWords(bag);
    assert rules[0..] == rules;
    FoldKeepsWords(rules, 0, bag, |bag|);
    SortIsSorted(words);
    SortedIsUnique(SortWords(words), SortedList(bag));
    if FamilyKey(Some(rules), PhraseKey(words)) == PhraseKey(words) {
      KeyReadsBack(bag);
      KeyReadsBack(normal);
      assert multiset(SortedList(bag)) == multiset(SortedList(normal));
    } else if forall k :: 0 <= k < |rules| ==> !Fits(rules[k], bag) {
      NothingToFold(rules, bag, |bag|);
    }
  }

  /** For rules that map straight and share no variant words: a caller's family,
      asked for with no phrasing or its own, stays findable through every table and
      every series of callers' lookups if and only if no variant is left, scattered,
      among the words of the folded query. */
  lemma CallersStrandExactly(rules: seq<Rule>, words: seq<ByteString>, raw: ByteString)
    requires GoodRules(rules) && AreWords(words) && words != [] && (raw == "" || raw == PhraseKey(words))
    ensures Lasts(BagFold(rules), (g, s) => IsCallerQuery(rules, g, s), QueryFamily(rules, words), raw)
        <==> forall k :: 0 <= k < |rules| ==> !Fits(rules[k], multiset(FoldPhrase(rules, words, 0)))
  {
    hide Lasts, Fits, FamilyKey, NormalForm, FoldPhrase, FirstMatch, PhraseKey, JoinWords, IsCallerQuery,
        Disjoint, MapsStraight;
    var fold, phrase := BagFold(rules), FoldPhrase(rules, words, 0);
    var family, asking: Asking := PhraseKey(phrase), (g, s) => IsCallerQuery(rules, g, s);
    PhraseOfWords(rules, words, 0);
    FoldedExactly(rules, phrase);
    FamilyFoldsLikePhrase(rules, words);
    KeyNotEmpty(phrase);
    LastsExactlyWhenClosed(fold, asking, family, raw);
    if fold(family) == family {
      AnswersStay(rules, family, raw);
    } else {
      var folded := fold(family);
      var normal := NormalForm(rules, multiset(phrase));
      FoldedKeyIsAFamily(rules, normal);
      NormalKeyIsNotEmpty(rules, phrase);
      FoldedTwice(rules, family);
      FoldedPhraseIsItsFamily(rules, words);
      assert Moves(fold, family, folded, "") && asking(folded, "");
      assert Answers(family, fold, family, raw) && !Answers(folded, fold, family, raw);
    }
  }

  lemma {:induction false} RuleKeepsSome(rules: seq<Rule>, i: nat, bag: Bag, guard: nat)
    requires AreRules(rules) && i < |rules| && bag != multiset{}
    ensures FoldRule(rules[i], bag, guard) != multiset{}
    decreases guard
  {
    if guard > 0 && Fits(rules[i], bag) {
      assert rules[i].canonical[0] in Fire(rules[i], bag);
      RuleKeepsSome(rules, i, Fire(rules[i], bag), guard - 1);
    }
  }

  lemma {:induction false} FoldKeepsSome(rules: seq<Rule>, from: nat, bag: Bag, guard: nat)
    requires AreRules(rules) && from <= |rules| && bag != multiset{}
    ensures FoldBag(rules[from..], bag, guard) != multiset{}
    decreases |rules| - from
  {
    hide AreRules, FoldRule;
    if from < |rules| {
      RuleKeepsSome(rules, from, bag, guard);
      FoldKeepsSome(rules, from + 1, FoldRule(rules[from], bag, guard), guard);
      assert rules[from..][0] == rules[from] && rules[from..][1..] == rules[from + 1..];
    }
  }

  lemma NormalKeyIsNotEmpty(rules: seq<Rule>, words: seq<ByteString>)
    requires AreRules(rules) && MapsStraight(rules) && AreWords(words) && words != []
    ensures FamilyKey(Some(rules), PhraseKey(words)) != ""
  {
    hide Fits, FamilyKey, MapsStraight, Words, JoinWords;
    var bag := multiset(words);
    FoldedExactly(rules, words);
    assert words[0] in bag && rules[0..] == rules;
    FoldKeepsSome(rules, 0, bag, |bag|);
    var sorted := SortedList(NormalForm(rules, bag));
    KeyReadsBack(NormalForm(rules, bag));
    var w :| w in multiset(sorted);
    assert w in sorted && Words("") == [] by {
      NoWords();
    }
  }

  lemma NoWords()
    ensures Words("") == []
  {
  }

  /** A phrase whose key is its own fold is not changed by folding it in place. */
  lemma FoldedPhraseIsItsFamily(rules: seq<Rule>, words: seq<ByteString>)
    requires AreRules(rules) && MapsStraight(rules) && AreWords(words)
    ensures FamilyKey(Some(rules), PhraseKey(words)) == PhraseKey(words)
        ==> QueryFamily(rules, words) == PhraseKey(words)
  {
    hide Fits, FamilyKey, NormalForm, MapsStraight, PhraseKey;
    FoldedExactly(rules, words);
    if FamilyKey(Some(rules), PhraseKey(words)) == PhraseKey(words) {
      NothingToFoldInPlace(rules, words, 0);
      assert words[0..] == words;
    }
  }

  lemma AnswersStay(rules: seq<Rule>, family: ByteString, raw: ByteString)
    requires GoodRules(rules) && BagFold(rules)(family) == family && FoldsAlike(BagFold(rules), family, raw)
    ensures Closed(BagFold(rules), (g, s) => IsCallerQuery(rules, g, s), family, raw)
  {
    hide GoodRules, FamilyKey, IsCallerQuery;
    var fold := BagFold(rules);
    forall key, g, s | IsCallerQuery(rules, g, s) && Moves(fold, key, g, s) && Answers(key, fold, family, raw)
      ensures Answers(g, fold, family, raw)
    {
      CallersFoldAlike(rules, g, s);
    }
  }

  lemma FoldedTwice(rules: seq<Rule>, family: ByteString)
    requires AreRules(rules) && MapsStraight(rules)
    ensures BagFold(rules)(BagFold(rules)(family)) == BagFold(rules)(family)
  {
    StraightRulesFoldOnce(Some(rules));
    assert SingleHop(family => FamilyKey(Some(rules), family));
    var fold: Fold := family => FamilyKey(Some(rules), family);
    assert fold(fold(family)) == fold(family);
  }

  // ----- instances -----

  /** The order in which registration leaves the rules: longest variant first,
      then by the variant's text. */
  predicate InCodeOrder(rules: seq<Rule>) {
    forall i, j :: 0 <= i < j < |rules| ==>
      || |rules[i].variant| > |rules[j].variant|
      || (|rules[i].variant| == |rules[j].variant| && Less(JoinWords(rules[i].variant), JoinWords(rules[j].variant)))
  }

  /** The synonyms every configuration ships with. */
  const DEFAULT_RULES: seq<Rule> := [
    Rule(["last", "night"], ["yesterday"]),
    Rule(["tmrw"], ["tomorrow"]),
    Rule(["to-day"], ["today"]),
    Rule(["to-morrow"], ["tomorrow"]),
    Rule(["to-night"], ["tonight"]),
    Rule(["tonite"], ["tonight"])]

  /** Enough of a word to tell the default rules' words apart. */
  function Mark(w: ByteString): (nat, char, char) {
    if |w| < 3 then (|w|, ' ', ' ') else (|w|, w[0], w[2])
  }

  lemma DefaultWords()
    ensures Mark("last") == (4, 'l', 's') && Mark("night") == (5, 'n', 'g') && Mark("yesterday") == (9, 'y', 's')
    ensures Mark("tmrw") == (4, 't', 'r') && Mark("tomorrow") == (8, 't', 'm')
    ensures Mark("to-day") == (6, 't', '-') && Mark("today") == (5, 't', 'd') && Mark("to-morrow") == (9, 't', '-')
    ensures Mark("to-night") == (8, 't', '-') && Mark("tonite") == (6, 't', 'n') && Mark("tonight") == (7, 't', 'n')
  {
  }

  lemma DefaultRulesMapStraight()
    ensures MapsStraight(DEFAULT_RULES)
  {
    DefaultWords();
    hide Mark;
    forall i, j, w | 0 <= i < |DEFAULT_RULES| && 0 <= j < |DEFAULT_RULES| && w in DEFAULT_RULES[i].canonical
      ensures w !in DEFAULT_RULES[j].variant
    {
      assert w in ["yesterday", "tomorrow", "today", "tonight"];
      assert forall v :: v in DEFAULT_RULES[j].variant ==>
        Mark(v) in {(4, 'l', 's'), (5, 'n', 'g'), (4, 't', 'r'), (6, 't', '-'), (9, 't', '-'), (8, 't', '-'),
                    (6, 't', 'n')};
    }
  }

  lemma DefaultRulesAreDisjoint()
    ensures Disjoint(DEFAULT_RULES)
  {
    DefaultWords();
    hide Mark;
  }

  lemma {:induction false} LessAt(a: ByteString, b: ByteString, k: nat)
    requires k < |a| && k < |b| && a[..k] == b[..k] && a[k] < b[k]
    ensures Less(a, b)
  {
    if k > 0 {
      assert a[0] == a[..k][0] == b[..k][0] == b[0];
      assert a[1..][..k - 1] == a[..k][1..] == b[..k][1..] == b[1..][..k - 1];
      LessAt(a[1..], b[1..], k - 1);
    }
  }

  lemma DefaultVariantsAreSorted()
    ensures Less("tmrw", "to-day") && Less("tmrw", "to-morrow") && Less("tmrw", "to-night") && Less("tmrw", "tonite")
    ensures Less("to-day", "to-morrow") && Less("to-day", "to-night") && Less("to-day", "tonite")
    ensures Less("to-morrow", "to-night") && Less("to-morrow", "tonite") && Less("to-night", "tonite")
  {
    hide Less;
    LessAt("tmrw", "to-day", 1);
    LessAt("tmrw", "to-morrow", 1);
    LessAt("tmrw", "to-night", 1);
    LessAt("tmrw", "tonite", 1);
    LessAt("to-day", "to-morrow", 3);
    LessAt("to-day", "to-night", 3);
    LessAt("to-day", "tonite", 2);
    LessAt("to-morrow", "to-night", 3);
    LessAt("to-morrow", "tonite", 2);
    LessAt("to-night", "tonite", 2);
  }

  lemma JoinOne(w: ByteString)
    ensures JoinWords([w]) == w
  {
  }

  lemma DefaultRulesAreInOrder()
    ensures InCodeOrder(DEFAULT_RULES)
  {
    hide Less, JoinWords;
    DefaultVariantsAreSorted();
    JoinOne("tmrw");
    JoinOne("to-day");
    JoinOne("to-morrow");
    JoinOne("to-night");
    JoinOne("tonite");
  }

  lemma DefaultWordsAreWords()
    ensures IsWord("last") && IsWord("night") && IsWord("tmrw") && IsWord("to-day") && IsWord("to-morrow")
    ensures IsWord("to-night") && IsWord("tonite")
    ensures IsWord("yesterday") && IsWord("tomorrow") && IsWord("today") && IsWord("tonight")
  {
  }

  lemma DefaultRulesAreWords()
    ensures AreRules(DEFAULT_RULES)
  {
    hide IsWord;
    DefaultWordsAreWords();
  }

  lemma DefaultRulesAreGood()
    ensures GoodRules(DEFAULT_RULES) && InCodeOrder(DEFAULT_RULES)
  {
    DefaultRulesAreWords();
    DefaultRulesMapStraight();
    DefaultRulesAreDisjoint();
    DefaultRulesAreInOrder();
  }

  lemma SortedListIs(words: seq<ByteString>, bag: Bag)
    requires NonDescending(words) && multiset(words) == bag
    ensures SortedList(bag) == words
    ensures PhraseKey(words) == JoinWords(words)
  {
    SortedIsUnique(SortedList(bag), words);
    SortIsSorted(words);
    SortedIsUnique(SortWords(words), words);
  }

  lemma JoinTwo(a: ByteString, b: ByteString)
    ensures JoinWords([a, b]) == a + " " + b
  {
    assert [a, b][1..] == [b];
  }

  lemma JoinThree(a: ByteString, b: ByteString, c: ByteString)
    ensures JoinWords([a, b, c]) == a + " " + b + " " + c
  {
    hide JoinWords;
    JoinTwo(b, c);
    JoinFirst([a, b, c]);
    assert [a, b, c][1..] == [b, c];
    assert a + " " + (b + " " + c) == a + " " + b + " " + c;
  }

  lemma JoinFour(a: ByteString, b: ByteString, c: ByteString, d: ByteString)
    ensures JoinWords([a, b, c, d]) == a + " " + b + " " + c + " " + d
  {
    hide JoinWords;
    JoinThree(b, c, d);
    JoinFirst([a, b, c, d]);
    assert [a, b, c, d][1..] == [b, c, d];
    assert a + " " + (b + " " + c + " " + d) == a + " " + b + " " + c + " " + d;
  }

  lemma JoinFirst(words: seq<ByteString>)
    requires |words| > 1
    ensures JoinWords(words) == words[0] + " " + JoinWords(words[1..])
  {
  }

  // ----- a variant that is there as a bag only -----

  /** The rule l n -> y comes first and the others know none of these words, which
      stand in the order g, l, n, w, y. */
  predicate IsScattered(rules: seq<Rule>, g: ByteString, l: ByteString, n: ByteString, w: ByteString, y: ByteString) {
    && |rules| > 0 && rules[0] == Rule([l, n], [y])
    && Less(g, l) && Less(l, n) && Less(n, w) && Less(w, y)
    && forall k :: 0 < k < |rules| ==>
         rules[k].variant != [] && forall v :: v in [g, l, n, w, y] ==> v !in rules[k].variant
  }

  predicate AllDiffer(g: ByteString, l: ByteString, n: ByteString, w: ByteString, y: ByteString) {
    && g != l && g != n && g != w && g != y && l != n && l != w && l != y && n != w && n != y && w != y
  }

  lemma FiveDiffer(g: ByteString, l: ByteString, n: ByteString, w: ByteString, y: ByteString)
    requires Less(g, l) && Less(l, n) && Less(n, w) && Less(w, y)
    ensures AllDiffer(g, l, n, w, y)
    ensures NonDescending([g, l, n, w]) && NonDescending([g, w, y])
  {
    hide Less;
    LessIsTransitive(g, l, n);
    LessIsTransitive(g, n, w);
    LessIsTransitive(g, w, y);
    LessIsTransitive(l, n, w);
    LessIsTransitive(l, w, y);
    LessIsTransitive(n, w, y);
    LessIsTotal(g, l);
    LessIsTotal(g, n);
    LessIsTotal(g, w);
    LessIsTotal(g, y);
    LessIsTotal(l, n);
    LessIsTotal(l, w);
    LessIsTotal(l, y);
    LessIsTotal(n, w);
    LessIsTotal(n, y);
    LessIsTotal(w, y);
    LessIsIrreflexive(g);
    LessIsIrreflexive(l);
    LessIsIrreflexive(n);
    LessIsIrreflexive(w);
    LessIsIrreflexive(y);
  }

  lemma ScatteredMatch(rules: seq<Rule>, rule: Rule, g: ByteString, l: ByteString, n: ByteString, w: ByteString,
                       y: ByteString, i: nat)
    requires IsScattered(rules, g, l, n, w, y) && rule in rules && i < 4
    ensures !MatchesAt(rule, [n, g, l, w], i)
  {
    hide Less;
    var words := [n, g, l, w];
    FiveDiffer(g, l, n, w, y);
    var k :| 0 <= k < |rules| && rules[k] == rule;
    assert words[i] in [g, l, n, w, y];
    assert k > 0 ==> words[i] !in rule.variant;
    if MatchesAt(rule, words, i) {
      MatchHead(rule, words, i);
    }
  }

  lemma MatchHead(rule: Rule, words: seq<ByteString>, i: nat)
    requires MatchesAt(rule, words, i)
    ensures rule.variant[0] == words[i] && words[i] in rule.variant
    ensures |rule.variant| >= 2 ==> rule.variant[1] == words[i + 1]
  {
    var found := words[i..i + |rule.variant|];
    assert found[0] == words[i];
    assert |found| >= 2 ==> found[1] == words[i + 1];
  }

  lemma {:induction false} ScatteredIsLeftAlone(rules: seq<Rule>, g: ByteString, l: ByteString, n: ByteString,
                                                w: ByteString, y: ByteString, i: nat)
    requires IsScattered(rules, g, l, n, w, y) && i <= 4
    ensures FoldPhrase(rules, [n, g, l, w], i) == [n, g, l, w][i..]
    decreases 4 - i
  {
    hide FirstMatch, FoldPhrase, IsScattered, MatchesAt;
    var words := [n, g, l, w];
    if i < 4 {
      forall rule | rule in rules ensures !MatchesAt(rule, words, i) {
        ScatteredMatch(rules, rule, g, l, n, w, y, i);
      }
      PhraseStep(rules, words, i);
      ScatteredIsLeftAlone(rules, g, l, n, w, y, i + 1);
    } else {
      PhraseEnds(rules, words);
    }
  }

  lemma FireOn(rule: Rule, rest: Bag)
    ensures Fits(rule, rest + multiset(rule.variant))
    ensures Fire(rule, rest + multiset(rule.variant)) == rest + multiset(rule.canonical)
  {
  }

  lemma ScatteredBags(g: ByteString, l: ByteString, n: ByteString, w: ByteString, y: ByteString)
    requires AllDiffer(g, l, n, w, y)
    ensures multiset{g, w} + multiset([l, n]) == multiset{g, l, n, w}
    ensures multiset([n, g, l, w]) == multiset{g, l, n, w} && multiset([g, l, n, w]) == multiset{g, l, n, w}
    ensures multiset{g, w} + multiset([y]) == multiset{g, w, y} && multiset([g, w, y]) == multiset{g, w, y}
    ensures |multiset{g, l, n, w}| == 4
  {
    Bags4(g, l, n, w);
    Bags4InOrder(n, g, l, w);
    Bags4InOrder(g, l, n, w);
    Bags3(g, w, y);
  }

  lemma Bags3(g: ByteString, w: ByteString, y: ByteString)
    requires g != w && g != y && w != y
    ensures multiset{g, w} + multiset([y]) == multiset{g, w, y} && multiset([g, w, y]) == multiset{g, w, y}
  {
  }

  lemma Bags4(g: ByteString, l: ByteString, n: ByteString, w: ByteString)
    requires g != l && g != n && g != w && l != n && l != w && n != w
    ensures multiset{g, w} + multiset([l, n]) == multiset{g, l, n, w}
    ensures |multiset{g, l, n, w}| == 4
  {
  }

  lemma Bags4InOrder(a: ByteString, b: ByteString, c: ByteString, d: ByteString)
    requires a != b && a != c && a != d && b != c && b != d && c != d
    ensures multiset([a, b, c, d]) == multiset{a, b, c, d}
  {
  }

  lemma ScatteredFires(rule: Rule, g: ByteString, l: ByteString, n: ByteString, w: ByteString, y: ByteString)
    requires rule == Rule([l, n], [y]) && AllDiffer(g, l, n, w, y)
    ensures Fits(rule, multiset{g, l, n, w}) && FoldRule(rule, multiset{g, l, n, w}, 4) == multiset{g, w, y}
  {
    hide FoldRule, Fits, Fire;
    ScatteredBags(g, l, n, w, y);
    FireOn(rule, multiset{g, w});
    FiresOnce(rule, multiset{g, l, n, w}, multiset{g, w, y}, l, 4);
  }

  lemma OthersRest(rules: seq<Rule>, g: ByteString, l: ByteString, n: ByteString, w: ByteString, y: ByteString)
    requires IsScattered(rules, g, l, n, w, y)
    ensures FoldBag(rules[1..], multiset{g, w, y}, 4) == multiset{g, w, y}
  {
    hide Less, FoldRule;
    var rest := rules[1..];
    forall k | 0 <= k < |rest| ensures !Fits(rest[k], multiset{g, w, y}) {
      var v := rest[k].variant[0];
      assert rest[k] == rules[k + 1] && v in rest[k].variant && v in multiset(rest[k].variant);
      assert g in [g, l, n, w, y] && w in [g, l, n, w, y] && y in [g, l, n, w, y];
      Rests(rest[k], multiset{g, w, y}, v, 4);
    }
    NothingToFold(rest, multiset{g, w, y}, 4);
  }

  lemma ScatteredFolds(rules: seq<Rule>, g: ByteString, l: ByteString, n: ByteString, w: ByteString, y: ByteString)
    requires IsScattered(rules, g, l, n, w, y)
    ensures Fits(rules[0], multiset{g, l, n, w})
    ensures NormalForm(rules, multiset{g, l, n, w}) == multiset{g, w, y}
  {
    hide FoldRule, Less, Fits;
    FiveDiffer(g, l, n, w, y);
    ScatteredBags(g, l, n, w, y);
    ScatteredFires(rules[0], g, l, n, w, y);
    OthersRest(rules, g, l, n, w, y);
  }

  lemma ScatteredFamily(rules: seq<Rule>, g: ByteString, l: ByteString, n: ByteString, w: ByteString, y: ByteString)
    requires IsScattered(rules, g, l, n, w, y)
    ensures QueryFamily(rules, [n, g, l, w]) == PhraseKey([n, g, l, w]) == g + " " + l + " " + n + " " + w
  {
    hide FoldPhrase, JoinWords, Less;
    var words, sorted := [n, g, l, w], [g, l, n, w];
    ScatteredIsLeftAlone(rules, g, l, n, w, y, 0);
    assert words[0..] == words;
    FiveDiffer(g, l, n, w, y);
    ScatteredBags(g, l, n, w, y);
    SortIsSorted(words);
    SortedIsUnique(SortWords(words), sorted);
    JoinFour(g, l, n, w);
  }

  lemma SortedThree(rules: seq<Rule>, g: ByteString, l: ByteString, n: ByteString, w: ByteString, y: ByteString)
    requires IsScattered(rules, g, l, n, w, y)
    ensures JoinWords(SortedList(multiset{g, w, y})) == g + " " + w + " " + y
  {
    hide Less, JoinWords;
    FiveDiffer(g, l, n, w, y);
    ScatteredBags(g, l, n, w, y);
    SortedListIs([g, w, y], multiset{g, w, y});
    JoinThree(g, w, y);
  }

  lemma ScatteredFold(rules: seq<Rule>, g: ByteString, l: ByteString, n: ByteString, w: ByteString, y: ByteString)
    requires IsScattered(rules, g, l, n, w, y) && AreWords([n, g, l, w])
    ensures FamilyKey(Some(rules), PhraseKey([n, g, l, w])) == JoinWords(SortedList(multiset{g, w, y}))
  {
    hide NormalForm, JoinWords, FamilyKey, AreWords, PhraseKey, SortedList, Fits, Less;
    FiveDiffer(g, l, n, w, y);
    ScatteredBags(g, l, n, w, y);
    ScatteredFolds(rules, g, l, n, w, y);
    FoldOfPhraseKey(rules, [n, g, l, w]);
  }

  /** The family of such a query keeps the variant, and folds to another key. */
  lemma ScatteredKeys(rules: seq<Rule>, g: ByteString, l: ByteString, n: ByteString, w: ByteString, y: ByteString)
    requires IsScattered(rules, g, l, n, w, y) && AreWords([n, g, l, w])
    ensures QueryFamily(rules, [n, g, l, w]) == g + " " + l + " " + n + " " + w
    ensures FamilyKey(Some(rules), QueryFamily(rules, [n, g, l, w])) == g + " " + w + " " + y
  {
    hide JoinWords, FamilyKey, AreWords, QueryFamily, PhraseKey, IsScattered, SortedList;
    ScatteredFamily(rules, g, l, n, w, y);
    SortedThree(rules, g, l, n, w, y);
    ScatteredFold(rules, g, l, n, w, y);
  }

  /** A family that is found in a table is not found after some lookups. */
  ghost predicate Strands(fold: Fold, rows: seq<Row>, queries: seq<Query>, family: ByteString, raw: ByteString) {
    IsFound(rows, fold, family, raw) && !IsFound(AfterLookups(rows, fold, queries), fold, family, raw)
  }

  lemma StrandedRow(fold: Fold, family: ByteString, other: ByteString, payload: Payload)
    requires fold(family) == other && fold(other) == other && family != "" && other != "" && family != other
    ensures GoodQuery(fold, other, "")
    ensures Strands(fold, [Row(1, family, payload)], [Query(other, "", true)], family, "")
  {
    var row := Row(1, family, payload);
    assert FoldsTo(fold, row, other);
    assert AfterLookup([row], fold, Query(other, "", true)) == [row.(family := other)];
    assert [Query(other, "", true)][1..] == [];
    FindsWhatFoldingEverythingFinds([row.(family := other)], fold, family, "");
  }

  lemma DefaultIsScattered()
    ensures IsScattered(DEFAULT_RULES, "games", "last", "night", "week", "yesterday")
    ensures AreWords(["night", "games", "last", "week"])
  {
    hide Less, IsWord;
    DefaultWords();
    assert Mark("games") == (5, 'g', 'm') && Mark("week") == (4, 'w', 'e');
    hide Mark;
    Earlier("games", "last");
    Earlier("last", "night");
    Earlier("night", "week");
    Earlier("week", "yesterday");
    DefaultWordsAreWords();
    PlainWords();
  }

  lemma Earlier(a: ByteString, b: ByteString)
    requires a != [] && b != [] && a[0] < b[0]
    ensures Less(a, b)
  {
    LessAt(a, b, 0);
  }

  lemma PlainWords()
    ensures IsWord("games") && IsWord("week")
  {
  }

  /** With the synonyms every configuration ships with: a playbook taught under
      "night games last week" is moved by a lookup of the folded key, and the query
      it was taught under no longer finds it. */
  lemma DefaultRulesStrandAFamily(payload: Payload)
    ensures var words := ["night", "games", "last", "week"];
      var fold, family := BagFold(DEFAULT_RULES), QueryFamily(DEFAULT_RULES, words);
      var rows, other := [Row(1, family, payload)], fold(family);
      && family == "games" + " " + "last" + " " + "night" + " " + "week"
      && other == "games" + " " + "week" + " " + "yesterday"
      && GoodQuery(fold, other, "")
      && Strands(fold, rows, [Query(other, "", true)], family, "")
  {
    hide FamilyKey, QueryFamily, IsScattered, Strands;
    var words := ["night", "games", "last", "week"];
    DefaultIsScattered();
    DefaultRulesAreGood();
    ScatteredKeys(DEFAULT_RULES, "games", "last", "night", "week", "yesterday");
    var family := QueryFamily(DEFAULT_RULES, words);
    FoldedTwice(DEFAULT_RULES, family);
    assert family[6] == 'l' && BagFold(DEFAULT_RULES)(family)[6] == 'w';
    StrandedRow(BagFold(DEFAULT_RULES), family, BagFold(DEFAULT_RULES)(family), payload);
  }

  // ----- synonyms that need two folds -----

  lemma OverlappingKeys(a: ByteString, b: ByteString, y: ByteString, z: ByteString)
    requires IsWord(a) && IsWord(b) && IsWord(y) && IsWord(z) && Less(a, y) && Less(b, y)
    requires a != b && a != y && a != z && b != y && b != z && y != z
    ensures var rules := [Rule([b, y], [z]), Rule([a], [b])];
      && AreRules(rules) && InCodeOrder(rules)
      && FamilyKey(Some(rules), a + " " + y) == b + " " + y
      && FamilyKey(Some(rules), b + " " + y) == z
      && FamilyKey(Some(rules), z) == z
  {
    hide Less, FoldBag, FamilyKey, IsWord, NormalForm, PhraseKey, JoinWords;
    var rules := [Rule([b, y], [z]), Rule([a], [b])];
    OverlappingRulesFoldTwice(a, b, y, z);
    RestingRules(rules, z);
    TwoWordKey(rules, a, y);
    TwoWordKey(rules, b, y);
    OneWordKey(rules, z);
    JoinTwo(b, y);
    JoinOne(z);
    SortedPair(b, y);
    SortedListIs([z], multiset{z});
  }

  lemma SortedPair(b: ByteString, y: ByteString)
    requires Less(b, y)
    ensures SortedList(multiset{b, y}) == [b, y]
  {
    LessIsTotal(b, y);
    assert multiset([b, y]) == multiset{b, y};
    SortedListIs([b, y], multiset{b, y});
  }

  lemma TwoWordKey(rules: seq<Rule>, a: ByteString, y: ByteString)
    requires IsWord(a) && IsWord(y) && Less(a, y)
    ensures FamilyKey(Some(rules), a + " " + y) == JoinWords(SortedList(FoldBag(rules, multiset{a, y}, 2)))
  {
    hide FamilyKey, FoldBag, Less, IsWord;
    LessIsTotal(a, y);
    assert multiset([a, y]) == multiset{a, y} && |multiset{a, y}| == 2;
    SortedListIs([a, y], multiset{a, y});
    JoinTwo(a, y);
    FoldOfPhraseKey(rules, [a, y]);
  }

  lemma OneWordKey(rules: seq<Rule>, z: ByteString)
    requires IsWord(z)
    ensures FamilyKey(Some(rules), z) == JoinWords(SortedList(FoldBag(rules, multiset{z}, 1)))
  {
    hide FamilyKey, FoldBag, IsWord;
    assert multiset([z]) == multiset{z} && |multiset{z}| == 1;
    SortedListIs([z], multiset{z});
    JoinOne(z);
    FoldOfPhraseKey(rules, [z]);
  }

  lemma RestingRules(rules: seq<Rule>, z: ByteString)
    requires forall k :: 0 <= k < |rules| ==> rules[k].variant != [] && z !in rules[k].variant
    ensures FoldBag(rules, multiset{z}, 1) == multiset{z}
  {
    forall k | 0 <= k < |rules| ensures !Fits(rules[k], multiset{z}) {
      var w := rules[k].variant[0];
      assert w in multiset(rules[k].variant) && w != z;
      Rests(rules[k], multiset{z}, w, 1);
    }
    NothingToFold(rules, multiset{z}, 1);
  }

  lemma MovedTwice(fold: Fold, first: ByteString, second: ByteString, third: ByteString, payload: Payload)
    requires fold(first) == second && fold(second) == third && fold(third) == third
    requires first != "" && second != "" && third != "" && first != second && second != third && first != third
    ensures Strands(fold, [Row(1, first, payload)],
                    [Query(second, first, true), Query(third, second, true)], second, first)
  {
    var r1, r2, r3 := [Row(1, first, payload)], [Row(1, second, payload)], [Row(1, third, payload)];
    assert AfterLookup(r1, fold, Query(second, first, true)) == r2;
    assert AfterLookup(r2, fold, Query(third, second, true)) == r3;
    assert [Query(second, first, true), Query(third, second, true)][1..] == [Query(third, second, true)];
    assert [Query(third, second, true)][1..] == [];
    assert AfterLookups(r1, fold, [Query(second, first, true), Query(third, second, true)])
        == AfterLookups(r2, fold, [Query(third, second, true)]) == r3;
    FindsWhatFoldingEverythingFinds(r3, fold, second, first);
  }

  /** Two rules whose canonical phrases are no variants. */
  function TwoHops(): seq<Rule> {
    [Rule(["b", "y"], ["z"]), Rule(["c"], ["b"])]
  }

  /** With the rules b y -> z and c -> b, in registration order, each lookup follows
      the synonyms once, yet the second moves the row out of reach of the first
      query, its family and its phrasing. */
  lemma TwoHopsStrandARow(first: ByteString, second: ByteString, third: ByteString, payload: Payload)
    requires first == "c" + " " + "y" && second == "b" + " " + "y" && third == "z"
    ensures InCodeOrder(TwoHops())
    ensures var queries := [Query(second, first, true), Query(third, second, true)];
      Strands(BagFold(TwoHops()), [Row(1, first, payload)], queries, second, first)
  {
    hide FamilyKey, Less, Strands;
    Earlier("c", "y");
    Earlier("b", "y");
    OverlappingKeys("c", "b", "y", "z");
    assert first[0] == 'c' && second[0] == 'b' && |first| == |second| == 3;
    MovedTwice(BagFold(TwoHops()), first, second, third, payload);
  }
}
