/** Folding a family key: a key is a sorted bag of words, and each synonym rule
    replaces the words of its variant, wherever they stand, by its canonical
    words. */
module FamilyKeys {
  import opened Text
  import opened Wrappers
  import Playbooks

  type Bag = multiset<ByteString>

  datatype Rule = Rule(variant: seq<ByteString>, canonical: seq<ByteString>)

  /** What registration makes of a synonym map. */
  ghost predicate AreRules(rules: seq<Rule>) {
    forall i :: 0 <= i < |rules| ==>
      && rules[i].variant != [] && AreWords(rules[i].variant)
      && rules[i].canonical != [] && AreWords(rules[i].canonical)
  }

  /** What registration asks for: no canonical word is matched again. */
  predicate MapsStraight(rules: seq<Rule>) {
    forall i, j, w :: 0 <= i < |rules| && 0 <= j < |rules| && w in rules[i].canonical ==> w !in rules[j].variant
  }

  predicate Fits(rule: Rule, bag: Bag) {
    multiset(rule.variant) <= bag
  }

  function Fire(rule: Rule, bag: Bag): Bag {
    bag - multiset(rule.variant) + multiset(rule.canonical)
  }

  /** One rule fires as often as it fits, `guard` times at most. */
  function FoldRule(rule: Rule, bag: Bag, guard: nat): Bag
    decreases guard
  {
    if guard == 0 || !Fits(rule, bag) then bag else FoldRule(rule, Fire(rule, bag), guard - 1)
  }

  function FoldBag(rules: seq<Rule>, bag: Bag, guard: nat): Bag {
    if rules == [] then bag else FoldBag(rules[1..], FoldRule(rules[0], bag, guard), guard)
  }

  method FoldTokenBag(rules: seq<Rule>, tokens: seq<ByteString>) returns (out: seq<ByteString>)
    ensures multiset(out) == FoldBag(rules, multiset(tokens), |tokens|)
  {
    if |rules| == 0 || |tokens| == 0 {
      NoTokens(rules);
      return tokens;
    }
    var counts, changed := multiset(tokens), false;
    for r := 0 to |rules|
      invariant FoldBag(rules[r..], counts, |tokens|) == FoldBag(rules, multiset(tokens), |tokens|)
      invariant !changed ==> counts == multiset(tokens)
    {
      var rule, guard := rules[r], 0;
      ghost var start := counts;
      while guard < |tokens| && Fits(rule, counts)
        invariant guard <= |tokens|
        invariant FoldRule(rule, counts, |tokens| - guard) == FoldRule(rule, start, |tokens|)
        invariant !changed ==> counts == multiset(tokens)
      {
        counts := counts - multiset(rule.variant) + multiset(rule.canonical);
        changed, guard := true, guard + 1;
      }
    }
    if !changed {
      return tokens;
    }
    out := [];
    while counts != multiset{}
      invariant multiset(out) + counts == FoldBag(rules, multiset(tokens), |tokens|)
      decreases |counts|
    {
      var token :| token in counts;
      out, counts := out + [token], counts - multiset{token};
    }
  }

  lemma {:induction false} NoTokens(rules: seq<Rule>)
    ensures FoldBag(rules, multiset{}, 0) == multiset{}
  {
    if rules != [] {
      NoTokens(rules[1..]);
    }
  }

  // ----- folding drains every variant -----

  /** No word of any variant became more frequent. */
  ghost predicate NoGrowth(rules: seq<Rule>, before: Bag, after: Bag) {
    forall i, w :: 0 <= i < |rules| && w in rules[i].variant ==> after[w] <= before[w]
  }

  lemma FireShrinks(rules: seq<Rule>, i: nat, bag: Bag)
    requires AreRules(rules) && MapsStraight(rules) && i < |rules| && Fits(rules[i], bag)
    ensures NoGrowth(rules, bag, Fire(rules[i], bag))
    ensures Fire(rules[i], bag)[rules[i].variant[0]] < bag[rules[i].variant[0]]
  {
    var rule := rules[i];
    assert rule.variant[0] in multiset(rule.variant);
    assert forall w :: w !in rule.canonical ==> multiset(rule.canonical)[w] == 0;
  }

  lemma AtLeastOneWord(rules: seq<Rule>, i: nat)
    requires AreRules(rules) && i < |rules|
    ensures rules[i].variant != []
  {
  }

  lemma FitsNeedsAWord(rule: Rule, bag: Bag)
    requires Fits(rule, bag) && rule.variant != []
    ensures bag[rule.variant[0]] > 0
  {
    assert rule.variant[0] in multiset(rule.variant);
  }

  lemma {:induction false} RuleDrains(rules: seq<Rule>, i: nat, bag: Bag, guard: nat)
    requires AreRules(rules) && MapsStraight(rules) && i < |rules| && bag[rules[i].variant[0]] <= guard
    ensures var after := FoldRule(rules[i], bag, guard);
      !Fits(rules[i], after) && NoGrowth(rules, bag, after)
    decreases guard
  {
    hide AreRules, MapsStraight, Fire, Fits;
    AtLeastOneWord(rules, i);
    if Fits(rules[i], bag) {
      FireShrinks(rules, i, bag);
      FitsNeedsAWord(rules[i], bag);
      RuleDrains(rules, i, Fire(rules[i], bag), guard - 1);
    }
  }

  lemma FitsBefore(rules: seq<Rule>, i: nat, before: Bag, after: Bag)
    requires i < |rules| && NoGrowth(rules, before, after) && Fits(rules[i], after)
    ensures Fits(rules[i], before)
  {
    forall w ensures multiset(rules[i].variant)[w] <= before[w] {
      if w in multiset(rules[i].variant) {
        assert w in rules[i].variant && after[w] <= before[w];
      }
    }
  }

  ghost predicate Guarded(rules: seq<Rule>, bag: Bag, guard: nat) {
    forall i, w :: 0 <= i < |rules| && w in rules[i].variant ==> bag[w] <= guard
  }

  lemma {:induction false} FoldDrains(rules: seq<Rule>, from: nat, bag: Bag, guard: nat)
    requires AreRules(rules) && MapsStraight(rules) && from <= |rules| && Guarded(rules, bag, guard)
    ensures var after := FoldBag(rules[from..], bag, guard);
      && NoGrowth(rules, bag, after)
      && forall i :: from <= i < |rules| ==> !Fits(rules[i], after)
    decreases |rules| - from
  {
    hide AreRules, MapsStraight, Fits, FoldRule;
    if from < |rules| {
      var once := FoldRule(rules[from], bag, guard);
      AtLeastOneWord(rules, from);
      RuleDrains(rules, from, bag, guard);
      FoldDrains(rules, from + 1, once, guard);
      var after := FoldBag(rules[from..], bag, guard);
      assert rules[from..][0] == rules[from] && rules[from..][1..] == rules[from + 1..];
      if Fits(rules[from], after) {
        FitsBefore(rules, from, once, after);
      }
    }
  }

  lemma {:induction false} NothingToFold(rules: seq<Rule>, bag: Bag, guard: nat)
    requires forall i :: 0 <= i < |rules| ==> !Fits(rules[i], bag)
    ensures FoldBag(rules, bag, guard) == bag
  {
    if rules != [] {
      assert !Fits(rules[0], bag);
      NothingToFold(rules[1..], bag, guard);
    }
  }

  lemma GuardedBySize(rules: seq<Rule>, bag: Bag, guard: nat)
    requires |bag| <= guard
    ensures Guarded(rules, bag, guard)
  {
    forall w ensures bag[w] <= guard {
      assert |bag[w := 0]| + bag[w] == |bag|;
    }
  }

  /** Folding by rules that map straight leaves no variant behind, so folding
      again changes nothing; and the guard of the loop never stops it early. */
  lemma StraightRulesLeaveNothing(rules: seq<Rule>, bag: Bag, guard: nat)
    requires AreRules(rules) && MapsStraight(rules) && |bag| <= guard
    ensures forall i :: 0 <= i < |rules| ==> !Fits(rules[i], FoldBag(rules, bag, guard))
    ensures forall more :: FoldBag(rules, FoldBag(rules, bag, guard), more) == FoldBag(rules, bag, guard)
    ensures FoldBag(rules, bag, guard) == FoldBag(rules, bag, |bag|)
  {
    hide FoldBag, Fits, AreRules, MapsStraight;
    GuardedBySize(rules, bag, guard);
    GuardedBySize(rules, bag, |bag|);
    assert rules[0..] == rules;
    FoldDrains(rules, 0, bag, guard);
    forall more ensures FoldBag(rules, FoldBag(rules, bag, guard), more) == FoldBag(rules, bag, guard) {
      NothingToFold(rules, FoldBag(rules, bag, guard), more);
    }
    GuardIsSlack(rules, 0, bag, guard, |bag|);
  }

  lemma {:induction false} RuleGuardIsSlack(rules: seq<Rule>, i: nat, bag: Bag, g: nat, h: nat)
    requires AreRules(rules) && MapsStraight(rules) && i < |rules|
    requires bag[rules[i].variant[0]] <= g && bag[rules[i].variant[0]] <= h
    ensures FoldRule(rules[i], bag, g) == FoldRule(rules[i], bag, h)
    decreases g
  {
    hide AreRules, MapsStraight, Fire, Fits;
    AtLeastOneWord(rules, i);
    if Fits(rules[i], bag) {
      FireShrinks(rules, i, bag);
      FitsNeedsAWord(rules[i], bag);
      RuleGuardIsSlack(rules, i, Fire(rules[i], bag), g - 1, h - 1);
    }
  }

  lemma {:induction false} GuardIsSlack(rules: seq<Rule>, from: nat, bag: Bag, g: nat, h: nat)
    requires AreRules(rules) && MapsStraight(rules) && from <= |rules|
    requires Guarded(rules, bag, g) && Guarded(rules, bag, h)
    ensures FoldBag(rules[from..], bag, g) == FoldBag(rules[from..], bag, h)
    decreases |rules| - from
  {
    hide AreRules, MapsStraight, Fits, FoldRule;
    if from < |rules| {
      AtLeastOneWord(rules, from);
      RuleGuardIsSlack(rules, from, bag, g, h);
      RuleDrains(rules, from, bag, g);
      GuardIsSlack(rules, from + 1, FoldRule(rules[from], bag, g), g, h);
      assert rules[from..][0] == rules[from] && rules[from..][1..] == rules[from + 1..];
    }
  }

  // ----- folding only rewrites -----

  /** The variant's words go, as often as the variant has them, and the canonical
      ones come. */
  ghost predicate Replaces(rule: Rule, before: Bag, after: Bag) {
    && multiset(rule.variant) <= before
    && after + multiset(rule.variant) == before + multiset(rule.canonical)
  }

  lemma FiringReplaces(rule: Rule, bag: Bag)
    requires Fits(rule, bag)
    ensures Replaces(rule, bag, Fire(rule, bag))
  {
  }

  ghost predicate FiresSome(rules: seq<Rule>, before: Bag, after: Bag) {
    exists i :: 0 <= i < |rules| && Replaces(rules[i], before, after)
  }

  /** Each bag comes from the one before by one firing of a rule that fits it. */
  ghost predicate Rewriting(rules: seq<Rule>, bags: seq<Bag>) {
    && bags != []
    && forall k :: 0 < k < |bags| ==> FiresSome(rules, bags[k - 1], bags[k])
  }

  lemma RewritingsJoin(rules: seq<Rule>, a: seq<Bag>, b: seq<Bag>)
    requires Rewriting(rules, a) && Rewriting(rules, b) && a[|a| - 1] == b[0]
    ensures Rewriting(rules, a + b[1..])
    ensures (a + b[1..])[0] == a[0] && (a + b[1..])[|a + b[1..]| - 1] == b[|b| - 1]
  {
    hide FiresSome;
    var c := a + b[1..];
    forall k | 0 < k < |c| ensures FiresSome(rules, c[k - 1], c[k]) {
      if k >= |a| {
        assert FiresSome(rules, b[k - |a|], b[k - |a| + 1]);
      }
    }
  }

  lemma {:induction false} RuleRewrites(rules: seq<Rule>, i: nat, bag: Bag, guard: nat) returns (bags: seq<Bag>)
    requires i < |rules|
    ensures Rewriting(rules, bags) && bags[0] == bag && bags[|bags| - 1] == FoldRule(rules[i], bag, guard)
    decreases guard
  {
    hide Fits, Fire, Replaces;
    if guard == 0 || !Fits(rules[i], bag) {
      bags := [bag];
    } else {
      FiringReplaces(rules[i], bag);
      var rest := RuleRewrites(rules, i, Fire(rules[i], bag), guard - 1);
      assert FiresSome(rules, bag, rest[0]);
      assert Rewriting(rules, [bag, rest[0]]);
      RewritingsJoin(rules, [bag, rest[0]], rest);
      bags := [bag, rest[0]] + rest[1..];
    }
  }

  /** The folded bag is reached from the bag by firing fitting rules only. */
  lemma {:induction false} FoldIsARewriting(rules: seq<Rule>, from: nat, bag: Bag, guard: nat) returns (bags: seq<Bag>)
    requires from <= |rules|
    ensures Rewriting(rules, bags) && bags[0] == bag && bags[|bags| - 1] == FoldBag(rules[from..], bag, guard)
    decreases |rules| - from
  {
    hide FoldRule, Rewriting;
    if from == |rules| {
      OneBag(rules, bag);
      bags := [bag];
    } else {
      var first := RuleRewrites(rules, from, bag, guard);
      var rest := FoldIsARewriting(rules, from + 1, FoldRule(rules[from], bag, guard), guard);
      NotEmpty(rules, first);
      NotEmpty(rules, rest);
      RewritingsJoin(rules, first, rest);
      bags := first + rest[1..];
      assert rules[from..][0] == rules[from] && rules[from..][1..] == rules[from + 1..];
    }
  }

  lemma OneBag(rules: seq<Rule>, bag: Bag)
    ensures Rewriting(rules, [bag])
  {
  }

  lemma NotEmpty(rules: seq<Rule>, bags: seq<Bag>)
    requires Rewriting(rules, bags)
    ensures bags != []
  {
  }

  /** Two rules, neither of whose canonical forms is a variant, can still need a
      second fold: what one yields completes the variant of the other. */
  lemma OverlappingRulesFoldTwice(a: ByteString, b: ByteString, y: ByteString, z: ByteString)
    requires IsWord(a) && IsWord(b) && IsWord(y) && IsWord(z)
    requires a != b && a != y && a != z && b != y && b != z && y != z
    ensures var rules := [Rule([b, y], [z]), Rule([a], [b])];
      && AreRules(rules) && !MapsStraight(rules)
      && FoldBag(rules, multiset{a, y}, 2) == multiset{b, y}
      && FoldBag(rules, multiset{b, y}, 2) == multiset{z}
  {
    hide FoldBag, IsWord;
    var r1, r2 := Rule([b, y], [z]), Rule([a], [b]);
    assert [r1, r2][1] == r2 && b in r2.canonical && [r1, r2][0] == r1 && b in r1.variant;
    FirstFold(a, b, y, z);
    SecondFold(a, b, y, z);
  }

  lemma FirstFold(a: ByteString, b: ByteString, y: ByteString, z: ByteString)
    requires a != b && b != y && a != y
    ensures FoldBag([Rule([b, y], [z]), Rule([a], [b])], multiset{a, y}, 2) == multiset{b, y}
  {
    hide FoldBag, FoldRule;
    var r1, r2 := Rule([b, y], [z]), Rule([a], [b]);
    TwoRules(r1, r2, multiset{a, y});
    Rests(r1, multiset{a, y}, b, 2);
    assert Fire(r2, multiset{a, y}) == multiset{b, y};
    FiresOnce(r2, multiset{a, y}, multiset{b, y}, a, 2);
  }

  lemma SecondFold(a: ByteString, b: ByteString, y: ByteString, z: ByteString)
    requires b != y && b != z && a != z
    ensures FoldBag([Rule([b, y], [z]), Rule([a], [b])], multiset{b, y}, 2) == multiset{z}
  {
    hide FoldBag, FoldRule;
    var r1, r2 := Rule([b, y], [z]), Rule([a], [b]);
    TwoRules(r1, r2, multiset{b, y});
    assert Fire(r1, multiset{b, y}) == multiset{z};
    FiresOnce(r1, multiset{b, y}, multiset{z}, b, 2);
    Rests(r2, multiset{z}, a, 2);
  }

  lemma TwoRules(r1: Rule, r2: Rule, bag: Bag)
    ensures FoldBag([r1, r2], bag, 2) == FoldRule(r2, FoldRule(r1, bag, 2), 2)
  {
    hide FoldRule;
    var once := FoldRule(r1, bag, 2);
    assert [r1, r2][0] == r1 && [r1, r2][1..] == [r2] && [r2][1..] == [];
    assert FoldBag([r1, r2], bag, 2) == FoldBag([r2], once, 2);
    assert FoldBag([r2], once, 2) == FoldBag([], FoldRule(r2, once, 2), 2);
  }

  lemma Rests(rule: Rule, bag: Bag, missing: ByteString, guard: nat)
    requires missing in multiset(rule.variant) && missing !in bag
    ensures !Fits(rule, bag) && FoldRule(rule, bag, guard) == bag
  {
    assert multiset(rule.variant)[missing] > bag[missing];
  }

  lemma FiresOnce(rule: Rule, bag: Bag, after: Bag, missing: ByteString, guard: nat)
    requires Fits(rule, bag) && Fire(rule, bag) == after && guard >= 2
    requires missing in multiset(rule.variant) && missing !in after
    ensures FoldRule(rule, bag, guard) == after
  {
    assert multiset(rule.variant)[missing] > after[missing];
    assert FoldRule(rule, bag, guard) == FoldRule(rule, after, guard - 1);
  }

  // ----- keys -----

  lemma {:induction false} BagHasSortedList(bag: Bag)
    ensures exists words :: NonDescending(words) && multiset(words) == bag
    decreases |bag|
  {
    if bag == multiset{} {
      var none: seq<ByteString> := [];
      EmptyIsSorted();
      assert multiset(none) == bag && NonDescending(none);
    } else {
      var w :| w in bag;
      BagHasSortedList(bag - multiset{w});
      var words :| NonDescending(words) && multiset(words) == bag - multiset{w};
      InsertIsSorted(w, words);
      assert multiset(InsertWord(w, words)) == bag;
    }
  }

  /** The one sorted list of a bag. */
  ghost function SortedList(bag: Bag): (words: seq<ByteString>)
    ensures NonDescending(words) && multiset(words) == bag
  {
    BagHasSortedList(bag);
    var words :| NonDescending(words) && multiset(words) == bag;
    words
  }

  /** The folded key; without a configuration nothing is folded. */
  ghost function FamilyKey(cfg: Option<seq<Rule>>, family: ByteString): ByteString {
    if cfg.None? || family == "" then family
    else JoinWords(SortedList(FoldBag(cfg.value, multiset(Words(family)), |Words(family)|)))
  }

  method FoldFamilyKey(cfg: Option<seq<Rule>>, family: ByteString) returns (key: ByteString)
    ensures key == FamilyKey(cfg, family)
  {
    if cfg.None? || family == "" {
      return family;
    }
    var tokens := Words(family);
    var folded := FoldTokenBag(cfg.value, tokens);
    SortIsSorted(folded);
    SortedIsUnique(SortWords(folded), SortedList(multiset(folded)));
    key := JoinWords(SortWords(folded));
  }

  ghost predicate BagOfWords(bag: Bag) {
    forall w :: w in bag ==> IsWord(w)
  }

  lemma {:induction false} RuleKeepsWords(rules: seq<Rule>, i: nat, bag: Bag, guard: nat)
    requires AreRules(rules) && i < |rules| && BagOfWords(bag)
    ensures BagOfWords(FoldRule(rules[i], bag, guard))
    decreases guard
  {
    if guard > 0 && Fits(rules[i], bag) {
      assert forall w :: w in multiset(rules[i].canonical) ==> w in rules[i].canonical;
      RuleKeepsWords(rules, i, Fire(rules[i], bag), guard - 1);
    }
  }

  lemma {:induction false} FoldKeepsWords(rules: seq<Rule>, from: nat, bag: Bag, guard: nat)
    requires AreRules(rules) && from <= |rules| && BagOfWords(bag)
    ensures BagOfWords(FoldBag(rules[from..], bag, guard))
    decreases |rules| - from
  {
    hide AreRules, FoldRule, BagOfWords;
    if from < |rules| {
      RuleKeepsWords(rules, from, bag, guard);
      FoldKeepsWords(rules, from + 1, FoldRule(rules[from], bag, guard), guard);
      assert rules[from..][0] == rules[from] && rules[from..][1..] == rules[from + 1..];
    }
  }

  /** The words of a joined sorted bag are that list again. */
  lemma KeyReadsBack(bag: Bag)
    requires BagOfWords(bag)
    ensures Words(JoinWords(SortedList(bag))) == SortedList(bag)
  {
    var words := SortedList(bag);
    forall i | 0 <= i < |words| ensures IsWord(words[i]) {
      assert words[i] in multiset(words);
    }
    WordsOfJoin(words);
  }

  /** The requirement on synonyms is what the playbook lookup needs: with rules
      that map straight, a folded key is its own fold. */
  lemma StraightRulesFoldOnce(cfg: Option<seq<Rule>>)
    requires cfg.Some? ==> AreRules(cfg.value) && MapsStraight(cfg.value)
    ensures Playbooks.SingleHop(family => FamilyKey(cfg, family))
  {
    forall family ensures FamilyKey(cfg, FamilyKey(cfg, family)) == FamilyKey(cfg, family) {
      if cfg.Some? && family != "" {
        KeyFoldsOnce(cfg.value, family);
      }
    }
  }

  lemma KeyFoldsOnce(rules: seq<Rule>, family: ByteString)
    requires AreRules(rules) && MapsStraight(rules) && family != ""
    ensures FamilyKey(Some(rules), FamilyKey(Some(rules), family)) == FamilyKey(Some(rules), family)
  {
    hide FoldBag, Words, JoinWords, SortedList, AreRules, MapsStraight, BagOfWords, Fits;
    var bag := multiset(Words(family));
    var folded := FoldBag(rules, bag, |Words(family)|);
    WordsMakeABag(family);
    assert rules[0..] == rules;
    FoldKeepsWords(rules, 0, bag, |Words(family)|);
    StraightRulesLeaveNothing(rules, bag, |Words(family)|);
    KeyReadsBack(folded);
  }

  lemma WordsMakeABag(family: ByteString)
    ensures BagOfWords(multiset(Words(family)))
  {
    WordsAreWords(family);
  }
}
