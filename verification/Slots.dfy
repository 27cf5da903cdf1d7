/** Binding a playbook's entity slots to the entities of a query: slots in the
    playbook's order, entities in byte order, each entity used once. */
module Slots {
  import opened Text
  import opened Wrappers

  /** The canonical names a token stands for; none when it is no entity. */
  type Resolver = ByteString -> seq<ByteString>

  datatype Binding = Binding(token: ByteString, canonical: ByteString)

  /** The tokens that resolve, each at its first place. */
  function Claimable(tokens: seq<ByteString>, resolve: Resolver): (claimable: seq<ByteString>)
    ensures forall t :: t in claimable ==> resolve(t) != []
  {
    if tokens == [] then []
    else
      var rest, last := Claimable(tokens[..|tokens| - 1], resolve), tokens[|tokens| - 1];
      if resolve(last) != [] && last !in rest then rest + [last] else rest
  }

  function Bind(token: ByteString, resolve: Resolver): Binding
    requires resolve(token) != []
  {
    var sorted := SortWords(resolve(token));
    assert |multiset(sorted)| == |multiset(resolve(token))|;
    Binding(token, sorted[0])
  }

  /** The first `n` slots bound to the claimable tokens one by one. */
  function Bound(slots: seq<ByteString>, claimable: seq<ByteString>, n: nat, resolve: Resolver)
    : map<ByteString, Binding>
    requires n <= |slots| && forall t :: t in claimable ==> resolve(t) != []
  {
    if n == 0 then map[]
    else
      var before := Bound(slots, claimable, n - 1, resolve);
      if n <= |claimable| then before[slots[n - 1] := Bind(claimable[n - 1], resolve)] else before
  }

  lemma {:induction false} BoundAfter(slots: seq<ByteString>, claimable: seq<ByteString>, n: nat, resolve: Resolver)
    requires n <= |slots| && forall t :: t in claimable ==> resolve(t) != []
    ensures Bound(slots, claimable, 0, resolve) == map[]
    ensures n < |slots| ==>
      Bound(slots, claimable, n + 1, resolve)
      == if n < |claimable| then Bound(slots, claimable, n, resolve)[slots[n] := Bind(claimable[n], resolve)]
         else Bound(slots, claimable, n, resolve)
  {
    hide Bind;
  }

  lemma {:induction false} ClaimableIs(tokens: seq<ByteString>, resolve: Resolver)
    ensures forall t :: t in Claimable(tokens, resolve) <==> t in tokens && resolve(t) != []
    ensures forall i, j :: 0 <= i < j < |Claimable(tokens, resolve)| ==>
      Claimable(tokens, resolve)[i] != Claimable(tokens, resolve)[j]
  {
    if tokens != [] {
      ClaimableIs(tokens[..|tokens| - 1], resolve);
    }
  }

  lemma {:induction false} ClaimableGrows(tokens: seq<ByteString>, resolve: Resolver, i: nat)
    requires i <= |tokens|
    ensures Claimable(tokens[..i], resolve) <= Claimable(tokens, resolve)
  {
    if i < |tokens| {
      var init := tokens[..|tokens| - 1];
      assert init[..i] == tokens[..i];
      ClaimableGrows(init, resolve, i);
    } else {
      assert tokens[..i] == tokens;
    }
  }

  /** The tokens claimed after `n` slots. */
  function Taken(claimable: seq<ByteString>, n: nat): seq<ByteString> {
    if n <= |claimable| then claimable[..n] else claimable
  }

  /** The tokens not claimed by the first `n` slots. */
  function Free(tokens: seq<ByteString>, claimable: seq<ByteString>, n: nat): set<ByteString> {
    set t | t in tokens && t !in Taken(claimable, n)
  }

  lemma FreeAfter(tokens: seq<ByteString>, claimable: seq<ByteString>, n: nat)
    ensures Free(tokens, claimable, 0) == set t | t in tokens
    ensures Free(tokens, claimable, n + 1)
         == Free(tokens, claimable, n) - if n < |claimable| then {claimable[n]} else {}
  {
    if n < |claimable| {
      assert claimable[..n + 1] == claimable[..n] + [claimable[n]];
    }
  }

  /** While every token passed over was claimed or did not resolve, the next one
      that is free and resolves is the next claimable one. */
  lemma NextIsClaimed(tokens: seq<ByteString>, resolve: Resolver, n: nat, i: nat)
    requires i < |tokens| && |Claimable(tokens[..i], resolve)| <= n
    ensures var claimable, free := Claimable(tokens, resolve), tokens[i] !in Taken(Claimable(tokens, resolve), n);
      if free && resolve(tokens[i]) != [] then n < |claimable| && tokens[i] == claimable[n]
      else |Claimable(tokens[..i + 1], resolve)| <= n
  {
    hide Claimable;
    var claimable, before, after := Claimable(tokens, resolve), Claimable(tokens[..i], resolve),
        Claimable(tokens[..i + 1], resolve);
    ClaimableIs(tokens, resolve);
    ClaimableGrows(tokens, resolve, i);
    ClaimableGrows(tokens, resolve, i + 1);
    OneMore(tokens, resolve, i);
    if |after| == |before| + 1 {
      assert after[|before|] == claimable[|before|] == tokens[i];
    }
  }

  lemma OneMore(tokens: seq<ByteString>, resolve: Resolver, i: nat)
    requires i < |tokens|
    ensures var before := Claimable(tokens[..i], resolve);
      Claimable(tokens[..i + 1], resolve)
      == if resolve(tokens[i]) != [] && tokens[i] !in before then before + [tokens[i]] else before
  {
    assert tokens[..i + 1][..i] == tokens[..i];
  }

  method ResolveSlots(slots: seq<ByteString>, entities: seq<ByteString>, resolver: Option<Resolver>)
    returns (out: map<ByteString, Binding>)
    ensures resolver.None? ==> out == map[]
    ensures resolver.Some? ==>
      out == Bound(slots, Claimable(SortWords(entities), resolver.value), |slots|, resolver.value)
  {
    hide Claimable, SortWords, Free, Bind, Bound;
    if resolver.None? {
      return map[];
    }
    var resolve, tokens := resolver.value, SortWords(entities);
    ghost var claimable := Claimable(tokens, resolve);
    var unclaimed := set t | t in tokens;
    FreeAfter(tokens, claimable, 0);
    BoundAfter(slots, claimable, 0, resolve);
    out := map[];
    if |slots| == 0 {
      return;
    }
    for n := 0 to |slots|
      invariant unclaimed == Free(tokens, claimable, n)
      invariant out == Bound(slots, claimable, n, resolve)
    {
      var token := NextToken(tokens, resolve, unclaimed, n);
      FreeAfter(tokens, claimable, n);
      BoundAfter(slots, claimable, n, resolve);
      if token.Some? {
        assert token.value in claimable;
        out := out[slots[n] := Bind(token.value, resolve)];
        unclaimed := unclaimed - {token.value};
      }
    }
  }

  /** The first unclaimed token that resolves. */
  method NextToken(tokens: seq<ByteString>, resolve: Resolver, unclaimed: set<ByteString>, ghost n: nat)
    returns (token: Option<ByteString>)
    requires unclaimed == Free(tokens, Claimable(tokens, resolve), n)
    ensures var claimable := Claimable(tokens, resolve);
      token == if n < |claimable| then Some(claimable[n]) else None
  {
    hide Claimable;
    assert tokens[..0] == [];
    NothingClaimable(resolve);
    for i := 0 to |tokens|
      invariant |Claimable(tokens[..i], resolve)| <= n
    {
      NextIsClaimed(tokens, resolve, n, i);
      if tokens[i] in unclaimed && |resolve(tokens[i])| > 0 {
        return Some(tokens[i]);
      }
    }
    assert tokens[..|tokens|] == tokens;
    return None;
  }

  lemma NothingClaimable(resolve: Resolver)
    ensures Claimable([], resolve) == []
  {
  }

  // ----- what the bindings are -----

  /** A slot is bound exactly when one of its places in the playbook comes before
      the resolvable entities run out, and then to the entity of the last such
      place. */
  lemma {:induction false} LastPlaceWins(slots: seq<ByteString>, claimable: seq<ByteString>, n: nat,
                                         resolve: Resolver, k: nat)
    requires n <= |slots| && forall t :: t in claimable ==> resolve(t) != []
    requires k < n && k < |claimable| && forall j :: k < j < n && j < |claimable| ==> slots[j] != slots[k]
    ensures var bound := Bound(slots, claimable, n, resolve);
      slots[k] in bound && bound[slots[k]] == Bind(claimable[k], resolve)
  {
    if k < n - 1 {
      LastPlaceWins(slots, claimable, n - 1, resolve, k);
    }
  }

  lemma {:induction false} BoundHasAPlace(slots: seq<ByteString>, claimable: seq<ByteString>, n: nat,
                                          resolve: Resolver, slot: ByteString)
    returns (k: nat)
    requires n <= |slots| && forall t :: t in claimable ==> resolve(t) != []
    requires slot in Bound(slots, claimable, n, resolve)
    ensures k < n && k < |claimable| && slots[k] == slot
    ensures forall j :: k < j < n && j < |claimable| ==> slots[j] != slot
    ensures Bound(slots, claimable, n, resolve)[slot] == Bind(claimable[k], resolve)
  {
    hide Bind;
    if n <= |claimable| && slots[n - 1] == slot {
      k := n - 1;
    } else {
      k := BoundHasAPlace(slots, claimable, n - 1, resolve, slot);
    }
  }

  /** No entity fills two slots, what a slot is bound to is an entity of the query
      that resolves, and the order the query names its entities in is irrelevant. */
  lemma EachEntityFillsOneSlot(slots: seq<ByteString>, entities: seq<ByteString>, others: seq<ByteString>,
                               resolve: Resolver, s: ByteString, t: ByteString)
    requires multiset(entities) == multiset(others)
    ensures var bound := Bound(slots, Claimable(SortWords(entities), resolve), |slots|, resolve);
      && bound == Bound(slots, Claimable(SortWords(others), resolve), |slots|, resolve)
      && (s in bound ==> bound[s].token in entities && bound[s].canonical in resolve(bound[s].token))
      && (s in bound && t in bound && s != t ==> bound[s].token != bound[t].token)
  {
    hide Claimable, Bound, SortWords;
    var tokens := SortWords(entities);
    var claimable := Claimable(tokens, resolve);
    SortIsSorted(entities);
    SortIsSorted(others);
    SortedIsUnique(tokens, SortWords(others));
    ClaimableIs(tokens, resolve);
    var bound := Bound(slots, claimable, |slots|, resolve);
    if s in bound {
      var i := BoundHasAPlace(slots, claimable, |slots|, resolve, s);
      assert claimable[i] in tokens && claimable[i] in multiset(tokens);
      FirstOfSorted(resolve(claimable[i]));
      if t in bound {
        var j := BoundHasAPlace(slots, claimable, |slots|, resolve, t);
      }
    }
  }

  lemma {:induction false} ClaimableAscends(tokens: seq<ByteString>, resolve: Resolver)
    requires NonDescending(tokens)
    ensures Ascending(Claimable(tokens, resolve))
  {
    if tokens != [] {
      var n := |tokens| - 1;
      var init, last := tokens[..n], tokens[n];
      ClaimableAscends(init, resolve);
      ClaimableIs(init, resolve);
      var rest := Claimable(init, resolve);
      forall i | 0 <= i < |rest| && last !in rest ensures Less(rest[i], last) {
        assert rest[i] in rest;
        var k :| 0 <= k < n && init[k] == rest[i];
        LessIsTotal(tokens[k], last);
      }
    }
  }

  /** The k-th slot takes the k-th of the query's resolvable entities in byte order,
      under the first of its names; when the slot is named again before the
      entities run out, its last place counts. */
  lemma SlotsTakeEntitiesInOrder(slots: seq<ByteString>, entities: seq<ByteString>, resolve: Resolver, k: nat)
    returns (ordered: seq<ByteString>)
    ensures Ascending(ordered) && Elements(ordered) == set t | t in entities && resolve(t) != []
    ensures k < |slots| && k < |ordered| && (forall j :: k < j < |slots| && j < |ordered| ==> slots[j] != slots[k]) ==>
      var bound := Bound(slots, Claimable(SortWords(entities), resolve), |slots|, resolve);
      && slots[k] in bound && bound[slots[k]].token == ordered[k]
      && bound[slots[k]].canonical in resolve(ordered[k])
      && forall name :: name in resolve(ordered[k]) ==>
           name == bound[slots[k]].canonical || Less(bound[slots[k]].canonical, name)
  {
    hide Claimable, Bound, SortWords;
    var tokens := SortWords(entities);
    SortIsSorted(entities);
    ordered := Claimable(tokens, resolve);
    ClaimableAscends(tokens, resolve);
    ClaimableIs(tokens, resolve);
    assert forall t :: t in tokens <==> t in multiset(tokens);
    assert forall t :: t in entities <==> t in multiset(entities);
    if k < |slots| && k < |ordered| && (forall j :: k < j < |slots| && j < |ordered| ==> slots[j] != slots[k]) {
      LastPlaceWins(slots, ordered, |slots|, resolve, k);
      assert ordered[k] in ordered;
      FirstOfSorted(resolve(ordered[k]));
    }
  }

  lemma FirstOfSorted(words: seq<ByteString>)
    requires words != []
    ensures SortWords(words) != [] && SortWords(words)[0] in words
    ensures forall w :: w in words ==> w == SortWords(words)[0] || Less(SortWords(words)[0], w)
  {
    var sorted := SortWords(words);
    SortIsSorted(words);
    assert |multiset(sorted)| == |multiset(words)|;
    assert sorted[0] in multiset(sorted);
    forall w | w in words ensures w == sorted[0] || Less(sorted[0], w) {
      assert w in multiset(sorted);
      LessIsTotal(sorted[0], w);
    }
  }
}
