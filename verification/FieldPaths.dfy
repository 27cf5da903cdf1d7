/** Which places of a document a dotted path names, told by walking the document
    with an index into the path. */
module FieldPaths {
  import opened Wrappers
  import opened Letters
  import opened FieldSelect

  // ----- the segment of a key -----

  /** Does some path go on with the segment `head` after `taken`? */
  ghost predicate Continues(paths: set<Path>, taken: Path, head: string) {
    exists p :: p in paths && |p| > |taken| && p[..|taken|] == taken && p[|taken|] == head
  }

  /** After `taken` the key goes by the segment `head`: in lower case, or, when no
      path goes on with that, with its humps cut apart. */
  ghost predicate GoesBy(paths: set<Path>, taken: Path, key: string, head: string) {
    && head != "" && Continues(paths, taken, head)
    && (head == Lower(key) || (head == CamelToKebab(key) && !Continues(paths, taken, Lower(key))))
  }

  ghost predicate AnyGoesBy(paths: set<Path>, taken: Path, obj: Json)
    requires obj.Obj?
  {
    exists key, head :: key in obj.fields && GoesBy(paths, taken, key, head)
  }

  // ----- the places a path names -----

  /** The place spells out the path `p` from its segment `i` on: one key for each
      segment, in order, with list positions in between, and no shorter path is
      spelled on the way.  An object none of whose keys goes on with a path is
      passed through to its lists. */
  ghost predicate Spells(v: Json, paths: set<Path>, p: Path, i: nat, depth: nat, place: Place)
    decreases |place|, 1
  {
    && i < |p| && place != []
    && match v
       case Arr(items) =>
         && place[0].Index? && place[0].i < |items|
         && Spells(items[place[0].i], paths, p, i, depth, place[1..])
       case Obj(fields) =>
         if AnyGoesBy(paths, p[..i], v) then
           && place[0].Key? && place[0].key in fields && GoesBy(paths, p[..i], place[0].key, p[i])
           && if p[..i + 1] in paths then i + 1 == |p| && |place| == 1
              else Spells(fields[place[0].key], paths, p, i + 1, depth, place[1..])
         else SpellsThrough(v, paths, p, i, depth, place)
       case _ => false
  }

  /** The same in a list of an envelope, within at most 32 envelopes. */
  ghost predicate SpellsThrough(obj: Json, paths: set<Path>, p: Path, i: nat, depth: nat, place: Place)
    requires obj.Obj?
    decreases |place|, 0
  {
    && place != [] && place[0].Key? && place[0].key in obj.fields && place[0].key !in ENVELOPE_METADATA
    && match obj.fields[place[0].key]
       case Arr(_) => Spells(obj.fields[place[0].key], paths, p, i, depth, place[1..])
       case Obj(_) => depth < 32 && SpellsThrough(obj.fields[place[0].key], paths, p, i, depth + 1, place[1..])
       case _ => false
  }

  /** What stands at a place. */
  function ValueAt(v: Json, place: Place): Option<Json>
    decreases |place|
  {
    if place == [] then Some(v)
    else
      match v
      case Arr(items) =>
        if place[0].Index? && place[0].i < |items| then ValueAt(items[place[0].i], place[1..]) else None
      case Obj(fields) =>
        if place[0].Key? && place[0].key in fields then ValueAt(fields[place[0].key], place[1..]) else None
      case _ => None
  }

  // ----- what remains of the paths -----

  /** `rest` are the paths that begin with `taken`, without it. */
  ghost predicate IsRest(rest: set<Path>, paths: set<Path>, taken: Path) {
    forall q: Path :: q != [] ==> (q in rest <==> taken + q in paths)
  }

  lemma ContinuesExactly(rest: set<Path>, paths: set<Path>, taken: Path, head: string)
    requires IsRest(rest, paths, taken)
    ensures Selects(rest, head) <==> Continues(paths, taken, head)
    ensures KeepsWhole(rest, head) <==> taken + [head] in paths
  {
    if p :| p in paths && |p| > |taken| && p[..|taken|] == taken && p[|taken|] == head {
      var q := p[|taken|..];
      assert taken + q == p;
      if |q| == 1 {
        assert q == [head];
      } else {
        assert q[1..] in SubPaths(rest, head);
      }
    }
    if KeepsWhole(rest, head) {
      assert (taken + [head])[..|taken|] == taken;
    } else if r :| r in SubPaths(rest, head) {
      var q :| q in rest && |q| >= 2 && q[0] == head && r == q[1..];
      assert (taken + q)[..|taken|] == taken;
    }
  }

  /** Stripping one segment leaves the rest of what begins with it. */
  lemma RestOfRest(rest: set<Path>, paths: set<Path>, taken: Path, head: string)
    requires IsRest(rest, paths, taken)
    ensures IsRest(SubPaths(rest, head), paths, taken + [head])
  {
    forall q: Path | q != [] ensures q in SubPaths(rest, head) <==> taken + [head] + q in paths {
      assert taken + ([head] + q) == taken + [head] + q;
      assert ([head] + q)[1..] == q;
      assert forall r :: r in rest && |r| >= 2 && r[0] == head && r[1..] == q ==> r == [head] + q;
    }
  }

  lemma SegmentGoesBy(rest: set<Path>, paths: set<Path>, taken: Path, key: string)
    requires IsRest(rest, paths, taken)
    ensures var head := Segment(rest, key);
      forall other :: GoesBy(paths, taken, key, other) <==> other == head && head != ""
  {
    hide KeepsWhole, SubPaths, Selects, IsRest;
    ContinuesExactly(rest, paths, taken, Lower(key));
    ContinuesExactly(rest, paths, taken, CamelToKebab(key));
  }

  lemma HeadGoesBy(rest: set<Path>, paths: set<Path>, taken: Path, obj: Json)
    requires IsRest(rest, paths, taken) && obj.Obj?
    ensures HeadMatched(rest, obj) <==> AnyGoesBy(paths, taken, obj)
  {
    hide Segment, IsRest, GoesBy;
    forall key | key in obj.fields
      ensures Matches(rest, key) <==> exists head :: GoesBy(paths, taken, key, head)
    {
      SegmentGoesBy(rest, paths, taken, key);
      assert Matches(rest, key) ==> GoesBy(paths, taken, key, Segment(rest, key));
    }
  }

  // ----- a place is selected exactly when it spells a path -----

  ghost predicate Names(p: Path, v: Json, paths: set<Path>, taken: Path, depth: nat, place: Place) {
    p in paths && |p| > |taken| && p[..|taken|] == taken && Spells(v, paths, p, |taken|, depth, place)
  }

  /** What is selected at a place is what stands there, and something is selected
      exactly when the place spells a path. */
  ghost predicate Agrees(v: Json, selected: Option<Json>, paths: set<Path>, taken: Path, depth: nat, place: Place) {
    && (selected.Some? ==> ValueAt(v, place) == selected)
    && (selected.Some? <==> exists p :: Names(p, v, paths, taken, depth, place))
  }

  ghost predicate NamesThrough(p: Path, obj: Json, paths: set<Path>, taken: Path, depth: nat, place: Place)
    requires obj.Obj?
  {
    p in paths && |p| > |taken| && p[..|taken|] == taken && SpellsThrough(obj, paths, p, |taken|, depth, place)
  }

  ghost predicate AgreesThrough(obj: Json, selected: Option<Json>, paths: set<Path>, taken: Path, depth: nat,
                                place: Place)
    requires obj.Obj?
  {
    && (selected.Some? ==> ValueAt(obj, place) == selected)
    && (selected.Some? <==> exists p :: NamesThrough(p, obj, paths, taken, depth, place))
  }

  lemma EnvelopeWraps(obj: Json, rest: set<Path>, depth: nat, place: Place)
    requires obj.Obj?
    ensures SelectedInEnvelope(obj, rest, depth, place).Some? ==> WrapsList(obj, depth)
  {
    if SelectedInEnvelope(obj, rest, depth, place).Some? {
      var key := place[0].key;
      assert SelectedInField(key, obj.fields[key], rest, depth, place[1..]).Some?;
      assert IsListValue(obj.fields[key], depth);
    }
  }

  lemma {:induction false} SpellingSelects(v: Json, rest: set<Path>, paths: set<Path>, taken: Path, depth: nat,
                                           place: Place)
    requires IsRest(rest, paths, taken)
    ensures Agrees(v, SelectedAt(v, rest, depth, place), paths, taken, depth, place)
    decreases |place|, 1
  {
    hide IsRest, HeadMatched, AnyGoesBy, WrapsList, SelectedUnder, SelectedInEnvelope, GoesBy, SpellsThrough;
    if place != [] {
      match v
      case Arr(items) =>
        if place[0].Index? && place[0].i < |items| {
          SpellingSelects(items[place[0].i], rest, paths, taken, depth, place[1..]);
          assert forall p :: Names(p, v, paths, taken, depth, place)
                    <==> Names(p, items[place[0].i], paths, taken, depth, place[1..]);
        }
      case Obj(fields) =>
        HeadGoesBy(rest, paths, taken, v);
        if !HeadMatched(rest, v) {
          ThroughSelects(v, rest, paths, taken, depth, place);
          EnvelopeWraps(v, rest, depth, place);
          assert forall p ::
              Names(p, v, paths, taken, depth, place) <==> NamesThrough(p, v, paths, taken, depth, place);
        } else if place[0].Key? && place[0].key in fields {
          KeySelects(v, rest, paths, taken, depth, place);
        }
      case _ =>
    }
  }

  /** Through a key that goes by `head` a path is spelled that goes on with it. */
  lemma KeySpells(p: Path, v: Json, paths: set<Path>, taken: Path, depth: nat, place: Place, head: string)
    requires v.Obj? && AnyGoesBy(paths, taken, v) && place != [] && place[0].Key? && place[0].key in v.fields
    requires forall other :: GoesBy(paths, taken, place[0].key, other) <==> other == head && head != ""
    ensures var more, left := taken + [head], place[1..];
      Names(p, v, paths, taken, depth, place)
      <==> head != "" && if more in paths then p == more && left == []
                         else Names(p, v.fields[place[0].key], paths, more, depth, left)
  {
    hide AnyGoesBy, GoesBy;
    var n := |taken|;
    if |p| > n {
      assert p[..n + 1] == p[..n] + [p[n]];
      assert p[..n + 1] == taken + [head] <==> p[..n] == taken && p[n] == head;
      assert |p| == n + 1 ==> p == p[..n + 1];
    }
  }

  lemma {:induction false} KeySelects(v: Json, rest: set<Path>, paths: set<Path>, taken: Path, depth: nat,
                                      place: Place)
    requires IsRest(rest, paths, taken) && v.Obj? && HeadMatched(rest, v) && AnyGoesBy(paths, taken, v)
    requires place != [] && place[0].Key? && place[0].key in v.fields
    ensures Agrees(v, SelectedUnder(v, place[0].key, rest, depth, place[1..]), paths, taken, depth, place)
    decreases |place|, 0
  {
    hide IsRest, HeadMatched, AnyGoesBy, Segment, GoesBy, SubPaths, KeepsWhole, Names;
    var key, head, left := place[0].key, Segment(rest, place[0].key), place[1..];
    SegmentGoesBy(rest, paths, taken, key);
    forall p ensures var more := taken + [head];
      Names(p, v, paths, taken, depth, place)
      <==> head != "" && if more in paths then p == more
          && left == [] else Names(p, v.fields[key], paths, more, depth, left)
    {
      KeySpells(p, v, paths, taken, depth, place, head);
    }
    assert head != "" && taken + [head] in paths && left == [] ==> Names(taken + [head], v, paths, taken, depth, place);
    if head != "" {
      ContinuesExactly(rest, paths, taken, head);
      RestOfRest(rest, paths, taken, head);
      SpellingSelects(v.fields[key], SubPaths(rest, head), paths, taken + [head], depth, left);
      assert ValueAt(v, place) == ValueAt(v.fields[key], left);
      if taken + [head] !in paths {
        assert SelectedUnder(v, key, rest, depth, left).Some?
          <==> exists p :: Names(p, v.fields[key], paths, taken + [head], depth, left);
      }
    }
  }

  lemma {:induction false} ThroughSelects(obj: Json, rest: set<Path>, paths: set<Path>, taken: Path, depth: nat,
                                          place: Place)
    requires IsRest(rest, paths, taken) && obj.Obj?
    ensures AgreesThrough(obj, SelectedInEnvelope(obj, rest, depth, place), paths, taken, depth, place)
    decreases |place|, 0
  {
    hide IsRest, Spells;
    if place != [] && place[0].Key? && place[0].key in obj.fields && place[0].key !in ENVELOPE_METADATA {
      var v, left := obj.fields[place[0].key], place[1..];
      if v.Arr? {
        SpellingSelects(v, rest, paths, taken, depth, left);
        assert forall p :: NamesThrough(p, obj, paths, taken, depth, place) <==> Names(p, v, paths, taken, depth, left);
      } else if v.Obj? && depth < 32 {
        ThroughSelects(v, rest, paths, taken, depth + 1, left);
        EnvelopeWraps(v, rest, depth + 1, left);
        var inner := depth + 1;
        assert forall p ::
            NamesThrough(p, obj, paths, taken, depth, place) <==> NamesThrough(p, v, paths, taken, inner, left);
      }
    }
  }

  /** The selectors select something at a place exactly when it spells one of them
      out in full, key by key, and what they select is what stands there. */
  lemma SelectedExactlyWhereSpelled(v: Json, paths: set<Path>, place: Place)
    ensures SelectedAt(v, paths, 0, place).Some? <==> exists p :: p in paths && Spells(v, paths, p, 0, 0, place)
    ensures SelectedAt(v, paths, 0, place).Some? ==> SelectedAt(v, paths, 0, place) == ValueAt(v, place)
  {
    assert forall q: Path :: [] + q == q;
    SpellingSelects(v, paths, paths, [], 0, place);
    assert forall p :: Names(p, v, paths, [], 0, place) <==> p in paths && Spells(v, paths, p, 0, 0, place);
  }

  /** What every path asks for is in the output: at each place that spells a path
      stands what stood there before. */
  lemma WhatIsAskedForIsKept(v: Json, paths: set<Path>, p: Path, place: Place)
    requires p in paths && Spells(v, paths, p, 0, 0, place)
    ensures ValueAt(v, place).Some? && ValueAt(FilterFields(v, paths), place) == ValueAt(v, place)
    ensures exists q :: q in paths && Spells(FilterFields(v, paths), paths, q, 0, 0, place)
  {
    hide Spells, SelectedAt, FilterFields;
    SelectedExactlyWhereSpelled(v, paths, place);
    SelectedExactlyWhereSpelled(FilterFields(v, paths), paths, place);
    NothingSelectedIsLost(v, paths, place);
  }

  // ----- how humps are cut apart -----

  /** A capital after a small letter begins a word. */
  predicate BeginsWord(s: string, i: nat)
    requires i < |s|
  {
    i > 0 && IsUpper(s[i]) && IsLower(s[i - 1])
  }

  /** The words begun among the first `n` letters. */
  function WordsBegun(s: string, n: nat): nat
    requires n <= |s|
  {
    if n == 0 then 0 else WordsBegun(s, n - 1) + if BeginsWord(s, n - 1) then 1 else 0
  }

  /** The letter is written small behind the letters and hyphens before it, and
      right behind a hyphen when it begins a word. */
  ghost predicate WrittenAt(s: string, out: string, i: nat)
    requires i < |s|
  {
    var at := i + WordsBegun(s, i + 1);
    at < |out| && out[at] == LowerChar(s[i]) && (BeginsWord(s, i) ==> at > 0 && out[at - 1] == '-')
  }

  lemma {:induction false} WordsOfPrefix(s: string, m: nat, n: nat)
    requires n <= m <= |s|
    ensures WordsBegun(s[..m], n) == WordsBegun(s, n)
  {
    if n > 0 {
      WordsOfPrefix(s, m, n - 1);
    }
  }

  lemma StillWritten(s: string, n: nat, before: string, out: string, i: nat)
    requires i < n <= |s| && before <= out && WrittenAt(s[..n], before, i)
    ensures WrittenAt(s, out, i)
  {
    WordsOfPrefix(s, n, i + 1);
  }

  /** The hyphens cut a name exactly at its humps, and nothing else is changed but
      the letters' case. */
  lemma {:induction false} KebabCutsHumps(s: string)
    ensures var out := CamelToKebab(s);
      |out| == |s| + WordsBegun(s, |s|) && forall i :: 0 <= i < |s| ==> WrittenAt(s, out, i)
    decreases |s|
  {
    if s != "" {
      hide WrittenAt;
      var n := |s| - 1;
      var before, out := CamelToKebab(s[..n]), CamelToKebab(s);
      KebabCutsHumps(s[..n]);
      WordsOfPrefix(s, n, n);
      forall i | 0 <= i < n ensures WrittenAt(s, out, i) {
        StillWritten(s, n, before, out, i);
      }
      LastWritten(s, before, out);
    }
  }

  lemma LastWritten(s: string, before: string, out: string)
    requires s != "" && |before| == |s| - 1 + WordsBegun(s, |s| - 1)
    requires out == before + (if BeginsWord(s, |s| - 1) then "-" else "") + [LowerChar(s[|s| - 1])]
    ensures WrittenAt(s, out, |s| - 1)
  {
  }
}
