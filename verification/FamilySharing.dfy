/** Synonyms that share a variant word.  The fold of a stored key then depends on
    which rule takes the word, and folding a phrase in place need not fold alike. */
module FamilySharing {
  import opened FamilyKeys
  import opened FamilyRuns
  import opened Playbooks
  import opened Text
  import opened Wrappers

  /** The phrase's key folds to the family as a bag, and folding the phrase in place
      leads to words that fold elsewhere. */
  ghost predicate Diverts(rules: seq<Rule>, other: seq<ByteString>, family: ByteString) {
    && AreWords(other)
    && FamilyKey(Some(rules), PhraseKey(other)) == family
    && FamilyKey(Some(rules), QueryFamily(rules, other)) != family
  }

  ghost predicate SomeDiverts(rules: seq<Rule>, family: ByteString) {
    exists other :: Diverts(rules, other, family)
  }

  ghost function Callers(rules: seq<Rule>): Asking {
    (g, s) => IsCallerQuery(rules, g, s)
  }

  /** For all rules that map straight: a caller's family, asked for with no phrasing,
      stays findable through every table and every series of callers' lookups if and
      only if no variant is left among the words of the folded query, and no phrase
      that folds to the family as a bag folds elsewhere in place. */
  lemma UnphrasedCallersStrandExactly(rules: seq<Rule>, words: seq<ByteString>)
    requires AreRules(rules) && MapsStraight(rules) && AreWords(words) && words != []
    ensures Lasts(BagFold(rules), Callers(rules), QueryFamily(rules, words), "")
       <==> (forall k :: 0 <= k < |rules| ==> !Fits(rules[k], multiset(FoldPhrase(rules, words, 0))))
            && !SomeDiverts(rules, QueryFamily(rules, words))
  {
    hide Lasts, Fits, FamilyKey, NormalForm, FoldPhrase, PhraseKey, IsCallerQuery, MapsStraight, Diverts, Closed;
    var fold, phrase := BagFold(rules), FoldPhrase(rules, words, 0);
    var family := PhraseKey(phrase);
    PhraseOfWords(rules, words, 0);
    FoldedExactly(rules, phrase);
    KeyNotEmpty(phrase);
    LastsExactlyWhenClosed(fold, Callers(rules), family, "");
    if fold(family) != family {
      UnfoldedIsOpen(rules, phrase);
    } else if other :| Diverts(rules, other, family) {
      DivertedIsOpen(rules, other, family);
    } else {
      UndivertedIsClosed(rules, family);
    }
  }

  /** A family that is not its own fold is moved by a lookup of its fold. */
  lemma UnfoldedIsOpen(rules: seq<Rule>, phrase: seq<ByteString>)
    requires AreRules(rules) && MapsStraight(rules) && AreWords(phrase) && phrase != []
    requires BagFold(rules)(PhraseKey(phrase)) != PhraseKey(phrase)
    ensures !Closed(BagFold(rules), Callers(rules), PhraseKey(phrase), "")
  {
    hide Fits, FamilyKey, NormalForm, PhraseKey, IsCallerQuery, MapsStraight, JoinWords;
    var fold, family := BagFold(rules), PhraseKey(phrase);
    FoldedExactly(rules, phrase);
    FoldedKeyIsAFamily(rules, NormalForm(rules, multiset(phrase)));
    NormalKeyIsNotEmpty(rules, phrase);
    FoldedTwice(rules, family);
    KeyNotEmpty(phrase);
    assert Moves(fold, family, fold(family), "") && Callers(rules)(fold(family), "");
    assert Answers(family, fold, family, "") && !Answers(fold(family), fold, family, "");
  }

  lemma DivertedIsOpen(rules: seq<Rule>, other: seq<ByteString>, family: ByteString)
    requires AreRules(rules) && Diverts(rules, other, family)
    requires BagFold(rules)(family) == family && family != ""
    ensures !Closed(BagFold(rules), Callers(rules), family, "")
  {
    hide FamilyKey, PhraseKey, FoldPhrase;
    var fold, key, g := BagFold(rules), PhraseKey(other), QueryFamily(rules, other);
    EmptyKeyFoldsToNothing(rules);
    KeyNotEmpty(other);
    PhraseOfWords(rules, other, 0);
    KeyNotEmpty(FoldPhrase(rules, other, 0));
    assert IsQueryOf(rules, other, g, key);
    assert Moves(fold, key, g, key) && Callers(rules)(g, key);
    assert Answers(key, fold, family, "") && !Answers(g, fold, family, "");
  }

  lemma EmptyKeyFoldsToNothing(rules: seq<Rule>)
    ensures FamilyKey(Some(rules), "") == ""
  {
  }

  lemma UndivertedIsClosed(rules: seq<Rule>, family: ByteString)
    requires BagFold(rules)(family) == family && !SomeDiverts(rules, family)
    ensures Closed(BagFold(rules), Callers(rules), family, "")
  {
    hide FamilyKey, PhraseKey, QueryFamily;
    var fold := BagFold(rules);
    forall key, g, s | Callers(rules)(g, s) && Moves(fold, key, g, s) && Answers(key, fold, family, "")
      ensures Answers(g, fold, family, "")
    {
      var words :| IsQueryOf(rules, words, g, s);
      assert !Diverts(rules, words, family);
    }
  }

  /** When no word belongs to two variants no phrase diverts. */
  lemma DisjointNeverDiverts(rules: seq<Rule>, family: ByteString)
    requires GoodRules(rules)
    ensures !SomeDiverts(rules, family)
  {
    hide FamilyKey, PhraseKey, QueryFamily, GoodRules;
    forall other | AreWords(other) ensures !Diverts(rules, other, family) {
      FamilyFoldsLikePhrase(rules, other);
    }
  }

  // ----- sharing strands a family -----

  /** The rules l n -> y and l w -> p come first, the others know none of these
      words, and l, n, w, y as well as n, p stand in this order. */
  predicate IsSharing(rules: seq<Rule>, l: ByteString, n: ByteString, w: ByteString, y: ByteString, p: ByteString) {
    && |rules| > 1 && rules[0] == Rule([l, n], [y]) && rules[1] == Rule([l, w], [p])
    && Less(l, n) && Less(n, w) && Less(w, y) && Less(n, p)
    && p !in {l, n, w, y}
    && forall k :: 1 < k < |rules| ==>
         rules[k].variant != [] && forall v :: v in [l, n, w, y, p] ==> v !in rules[k].variant
  }

  predicate FiveApart(l: ByteString, n: ByteString, w: ByteString, y: ByteString, p: ByteString) {
    && l != n && l != w && l != y && l != p && n != w && n != y && n != p && w != y && w != p && y != p
  }

  lemma SharingApart(rules: seq<Rule>, l: ByteString, n: ByteString, w: ByteString, y: ByteString, p: ByteString)
    requires IsSharing(rules, l, n, w, y, p)
    ensures FiveApart(l, n, w, y, p)
    ensures NonDescending([l, n, w]) && NonDescending([w, y]) && NonDescending([n, p])
  {
    hide Less;
    LessIsTransitive(l, n, w);
    LessIsTransitive(l, w, y);
    LessIsTransitive(n, w, y);
    LessIsTotal(l, n);
    LessIsTotal(l, w);
    LessIsTotal(n, w);
    LessIsTotal(w, y);
    LessIsTotal(n, p);
    LessIsIrreflexive(l);
    LessIsIrreflexive(n);
    LessIsIrreflexive(w);
  }

  lemma SharedBags(l: ByteString, n: ByteString, w: ByteString, y: ByteString, p: ByteString)
    requires FiveApart(l, n, w, y, p)
    ensures multiset([n, l, w]) == multiset([l, n, w]) == multiset{w} + multiset([l, n])
    ensures multiset{w} + multiset([y]) == multiset([w, y]) == multiset([y, w])
    ensures |multiset([l, n, w])| == 3
    ensures l in multiset([l, n]) && l in multiset([l, w])
    ensures l !in multiset([w, y]) && l !in multiset([n, p])
  {
    ThreeInAnyOrder(l, n, w);
    Memberships(l, n, w, y, p);
  }

  lemma ThreeInAnyOrder(l: ByteString, n: ByteString, w: ByteString)
    requires l != n && l != w && n != w
    ensures multiset([n, l, w]) == multiset([l, n, w]) == multiset{w} + multiset([l, n])
    ensures |multiset([l, n, w])| == 3
  {
  }

  lemma Memberships(l: ByteString, n: ByteString, w: ByteString, y: ByteString, p: ByteString)
    requires FiveApart(l, n, w, y, p)
    ensures multiset{w} + multiset([y]) == multiset([w, y]) == multiset([y, w])
    ensures l in multiset([l, n]) && l in multiset([l, w])
    ensures l !in multiset([w, y]) && l !in multiset([n, p])
  {
  }

  /** What folds in place: the second rule takes the shared word. */
  lemma SharedPhrase(rules: seq<Rule>, l: ByteString, n: ByteString, w: ByteString, y: ByteString, p: ByteString)
    requires IsSharing(rules, l, n, w, y, p)
    ensures FoldPhrase(rules, [n, l, w], 0) == [n, p]
  {
    hide Less, FoldPhrase, FirstMatch, MatchesAt;
    var words := [n, l, w];
    SharingApart(rules, l, n, w, y, p);
    forall rule | rule in rules ensures !MatchesAt(rule, words, 0) {
      NoneAtFirst(rules, rule, l, n, w, y, p);
    }
    SecondTakes(rules, l, n, w, y, p);
    PhraseStep(rules, words, 0);
    PhraseStep(rules, words, 1);
    PhraseEnds(rules, words);
    assert [n] + ([p] + []) == [n, p];
  }

  lemma NoneAtFirst(rules: seq<Rule>, rule: Rule, l: ByteString, n: ByteString, w: ByteString, y: ByteString,
                    p: ByteString)
    requires IsSharing(rules, l, n, w, y, p) && FiveApart(l, n, w, y, p) && rule in rules
    ensures !MatchesAt(rule, [n, l, w], 0)
  {
    hide Less;
    var k :| 0 <= k < |rules| && rules[k] == rule;
    assert n in [l, n, w, y, p];
    if MatchesAt(rule, [n, l, w], 0) {
      MatchHead(rule, [n, l, w], 0);
    }
  }

  lemma SecondTakes(rules: seq<Rule>, l: ByteString, n: ByteString, w: ByteString, y: ByteString, p: ByteString)
    requires IsSharing(rules, l, n, w, y, p) && FiveApart(l, n, w, y, p)
    ensures FirstMatch(rules, [n, l, w], 1) == Some(Rule([l, w], [p]))
  {
    hide Less;
    var words := [n, l, w];
    assert rules[0..] == rules;
    assert words[1..3] == [l, w];
    assert MatchesAt(rules[1], words, 1);
    assert [l, w][1] != [l, n][1];
    MatchStep(rules, words, 1, 0);
    MatchStep(rules, words, 1, 1);
  }

  /** What folds as a bag: the first rule takes it. */
  lemma SharedBag(rules: seq<Rule>, l: ByteString, n: ByteString, w: ByteString, y: ByteString, p: ByteString)
    requires IsSharing(rules, l, n, w, y, p)
    ensures NormalForm(rules, multiset([n, l, w])) == multiset([w, y])
  {
    hide Less, Fits, Fire, FoldRule;
    SharingApart(rules, l, n, w, y, p);
    SharedBags(l, n, w, y, p);
    var bag, after := multiset([l, n, w]), multiset([w, y]);
    FireOn(rules[0], multiset{w});
    FiresOnce(rules[0], bag, after, l, 3);
    NothingFits(rules, l, n, w, y, p, after);
    forall k | 0 <= k < |rules[1..]| ensures !Fits(rules[1..][k], after) {
      assert rules[1..][k] == rules[k + 1];
    }
    NothingToFold(rules[1..], after, 3);
  }

  lemma NothingFits(rules: seq<Rule>, l: ByteString, n: ByteString, w: ByteString, y: ByteString, p: ByteString,
                    bag: Bag)
    requires IsSharing(rules, l, n, w, y, p) && FiveApart(l, n, w, y, p)
    requires bag == multiset([w, y]) || bag == multiset([n, p])
    ensures forall k :: 0 <= k < |rules| ==> !Fits(rules[k], bag)
  {
    hide Less;
    SharedBags(l, n, w, y, p);
    forall k | 0 <= k < |rules| ensures !Fits(rules[k], bag) {
      var v := rules[k].variant[0];
      assert v in rules[k].variant && v in multiset(rules[k].variant);
      assert w in [l, n, w, y, p] && y in [l, n, w, y, p] && n in [l, n, w, y, p] && p in [l, n, w, y, p];
      assert v !in bag;
      Rests(rules[k], bag, v, 0);
    }
  }

  /** The keys of both phrases, and what they fold to. */
  lemma SharedKeys(rules: seq<Rule>, l: ByteString, n: ByteString, w: ByteString, y: ByteString, p: ByteString)
    requires IsSharing(rules, l, n, w, y, p) && AreRules(rules) && MapsStraight(rules)
    requires AreWords([l, n, w, y, p])
    ensures PhraseKey([n, l, w]) == l + " " + n + " " + w
    ensures FamilyKey(Some(rules), l + " " + n + " " + w) == w + " " + y
    ensures QueryFamily(rules, [n, l, w]) == n + " " + p && FamilyKey(Some(rules), n + " " + p) == n + " " + p
  {
    hide Less, FoldPhrase, JoinWords, FamilyKey, NormalForm, IsWord, MapsStraight, Fits, PhraseKey, IsSharing;
    SharingApart(rules, l, n, w, y, p);
    SharedBags(l, n, w, y, p);
    SharedPhrase(rules, l, n, w, y, p);
    SharedBag(rules, l, n, w, y, p);
    KeyOf([n, l, w], [l, n, w]);
    KeyOf([n, p], [n, p]);
    JoinThree(l, n, w);
    JoinTwo(n, p);
    JoinTwo(w, y);
    SortedListIs([w, y], multiset([w, y]));
    OfFive(l, n, w, y, p);
    FoldOfPhraseKey(rules, [n, l, w]);
    NothingFits(rules, l, n, w, y, p, multiset([n, p]));
    FoldedExactly(rules, [n, p]);
  }

  lemma OfFive(l: ByteString, n: ByteString, w: ByteString, y: ByteString, p: ByteString)
    requires AreWords([l, n, w, y, p])
    ensures AreWords([n, l, w]) && AreWords([n, p]) && AreWords([y, w])
  {
    hide IsWord;
    var five := [l, n, w, y, p];
    assert IsWord(five[0]) && IsWord(five[1]) && IsWord(five[2]) && IsWord(five[3]) && IsWord(five[4]);
  }

  /** The family asked for is that of words no rule fits. */
  lemma AskedFamily(rules: seq<Rule>, l: ByteString, n: ByteString, w: ByteString, y: ByteString, p: ByteString)
    requires IsSharing(rules, l, n, w, y, p) && AreRules(rules) && MapsStraight(rules)
    requires AreWords([l, n, w, y, p])
    ensures QueryFamily(rules, [y, w]) == w + " " + y && FamilyKey(Some(rules), w + " " + y) == w + " " + y
  {
    hide Less, FoldPhrase, JoinWords, FamilyKey, NormalForm, IsWord, MapsStraight, Fits, PhraseKey, IsSharing;
    SharingApart(rules, l, n, w, y, p);
    SharedBags(l, n, w, y, p);
    OfFive(l, n, w, y, p);
    KeyOf([y, w], [w, y]);
    JoinTwo(w, y);
    NothingFits(rules, l, n, w, y, p, multiset([w, y]));
    FoldedExactly(rules, [y, w]);
    NothingToFoldInPlace(rules, [y, w], 0);
    assert [y, w][0..] == [y, w];
  }

  lemma KeyOf(words: seq<ByteString>, sorted: seq<ByteString>)
    requires NonDescending(sorted) && multiset(words) == multiset(sorted)
    ensures PhraseKey(words) == JoinWords(sorted)
  {
    SortIsSorted(words);
    SortedIsUnique(SortWords(words), sorted);
  }

  /** A row moves to where the family does not reach it. */
  lemma MovedAside(fold: Fold, key: ByteString, g: ByteString, family: ByteString, payload: Payload)
    requires fold(key) == family && key != "" && g != "" && family != ""
    requires key != g && g != family && fold(g) != family
    ensures Strands(fold, [Row(1, key, payload)], [Query(g, key, true)], family, "")
  {
    var row := Row(1, key, payload);
    assert FoldsTo(fold, row, family) || key == family;
    assert AfterLookup([row], fold, Query(g, key, true)) == [row.(family := g)];
    assert [Query(g, key, true)][1..] == [];
    FindsWhatFoldingEverythingFinds([row.(family := g)], fold, family, "");
  }

  /** "last night" and "last week", on top of the synonyms every configuration ships
      with. */
  const SHARING_RULES: seq<Rule> := [DEFAULT_RULES[0], Rule(["last", "week"], ["prior"])] + DEFAULT_RULES[1..]

  lemma SharingRulesAreSharing()
    ensures IsSharing(SHARING_RULES, "last", "night", "week", "yesterday", "prior")
  {
    DefaultWords();
    assert Mark("week") == (4, 'w', 'e') && Mark("prior") == (5, 'p', 'i');
    hide Less, Mark;
    Earlier("last", "night");
    Earlier("night", "week");
    Earlier("week", "yesterday");
    Earlier("night", "prior");
  }

  lemma SharingRulesAreRules()
    ensures AreRules(SHARING_RULES) && MapsStraight(SHARING_RULES)
    ensures AreWords(["last", "night", "week", "yesterday", "prior"])
  {
    DefaultWordsAreWords();
    PlainWords();
    PriorIsAWord();
    DefaultRulesMapStraight();
    DefaultRulesAreWords();
    PriorIsNoVariant();
    hide IsWord;
    var defaults, rules := DEFAULT_RULES, SHARING_RULES;
    forall k | 0 <= k < |rules| && k != 1
      ensures rules[k] == if k == 0 then defaults[0] else defaults[k - 1]
    {
    }
  }

  lemma PriorIsAWord()
    ensures IsWord("prior")
  {
  }

  lemma PriorIsNoVariant()
    ensures forall k :: 0 <= k < |DEFAULT_RULES| ==> "prior" !in DEFAULT_RULES[k].variant
    ensures "prior" !in ["last", "week"]
    ensures forall k, w :: 0 <= k < |DEFAULT_RULES| && w in DEFAULT_RULES[k].canonical ==> w !in ["last", "week"]
  {
    DefaultWords();
    assert Mark("week") == (4, 'w', 'e') && Mark("prior") == (5, 'p', 'i');
    hide Mark;
  }

  lemma SharingRulesAreInOrder()
    ensures InCodeOrder(SHARING_RULES)
  {
    hide Less, JoinWords;
    DefaultRulesAreInOrder();
    JoinTwo("last", "night");
    JoinTwo("last", "week");
    LessAt("last" + " " + "night", "last" + " " + "week", 5);
    var rules := SHARING_RULES;
    forall k | 1 < k < |rules| ensures rules[k] == DEFAULT_RULES[k - 1] && |rules[k].variant| == 1 {
    }
  }

  /** A playbook stored under the key of "night last week", from before folding,
      answers the query "yesterday week", whose folded words hold no variant; the
      first query, folded in place, moves the row, and the second no longer finds it. */
  lemma SharedWordStrandsARow(asked: seq<ByteString>, other: seq<ByteString>, payload: Payload)
    requires asked == ["yesterday", "week"] && other == ["night", "last", "week"]
    ensures InCodeOrder(SHARING_RULES)
    ensures var fold, family := BagFold(SHARING_RULES), QueryFamily(SHARING_RULES, asked);
      var key, g := PhraseKey(other), QueryFamily(SHARING_RULES, other);
      && IsCallerQuery(SHARING_RULES, family, "") && IsCallerQuery(SHARING_RULES, g, key)
      && fold(family) == family && Diverts(SHARING_RULES, other, family)
      && Strands(fold, [Row(1, key, payload)], [Query(g, key, true)], family, "")
  {
    hide Less, IsSharing, MapsStraight, AreRules, IsWord, InCodeOrder;
    SharingRulesAreInOrder();
    SharingRulesAreSharing();
    SharingRulesAreRules();
    assert "week"[0] == 'w' && "last"[0] == 'l' && "night"[0] == 'n';
    SharingStrands(SHARING_RULES, "last", "night", "week", "yesterday", "prior", payload);
  }

  lemma SharingStrands(rules: seq<Rule>, l: ByteString, n: ByteString, w: ByteString, y: ByteString, p: ByteString,
                       payload: Payload)
    requires IsSharing(rules, l, n, w, y, p) && AreRules(rules) && MapsStraight(rules)
    requires AreWords([l, n, w, y, p]) && l != [] && n != [] && w != []
    requires l[0] != n[0] && n[0] != w[0] && l[0] != w[0]
    ensures var fold, family := BagFold(rules), QueryFamily(rules, [y, w]);
      var key, g := PhraseKey([n, l, w]), QueryFamily(rules, [n, l, w]);
      && IsCallerQuery(rules, family, "") && IsCallerQuery(rules, g, key)
      && fold(family) == family && Diverts(rules, [n, l, w], family)
      && Strands(fold, [Row(1, key, payload)], [Query(g, key, true)], family, "")
  {
    hide Less, FamilyKey, PhraseKey, QueryFamily, IsSharing, MapsStraight, Strands, IsWord;
    SharedKeys(rules, l, n, w, y, p);
    AskedFamily(rules, l, n, w, y, p);
    OfFive(l, n, w, y, p);
    var family, key, g := QueryFamily(rules, [y, w]), PhraseKey([n, l, w]), QueryFamily(rules, [n, l, w]);
    assert IsQueryOf(rules, [y, w], family, "") && IsQueryOf(rules, [n, l, w], g, key);
    assert family[0] == w[0] && key[0] == l[0] && g[0] == n[0];
    MovedAside(BagFold(rules), key, g, family, payload);
  }
}
