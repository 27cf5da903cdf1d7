/** Selecting fields from a JSON document by dotted paths.

    A path is a list of lowercase segments.  Arrays are traversed element by
    element; an object none of whose keys match but which wraps a list is treated
    as an envelope, and the selection applies inside the wrapped arrays. */
module FieldSelect {
  import opened Wrappers
  import opened Letters

  datatype Json =
    | Null
    | Bool(b: bool)
    | Number(text: string)
    | Text(s: string)
    | Arr(items: seq<Json>)
    | Obj(fields: map<string, Json>)

  type Path = seq<string>

  const MAX_ENVELOPE_DEPTH: nat := 32

  const ENVELOPE_METADATA: set<string> := {
    "errors", "Errors", "warnings", "Warnings", "fetch_failures", "FetchFailures",
    "paging", "pagination", "_links", "links", "meta", "metadata", "total", "totalCount", "total_count",
    "hasMore", "has_more", "offset", "nextPage", "next_page", "cursor"
  }

  // ----- matching a key -----

  function CamelToKebab(s: string): string {
    if s == "" then ""
    else
      var i := |s| - 1;
      CamelToKebab(s[..i])
      + (if i > 0 && IsUpper(s[i]) && IsLower(s[i - 1]) then "-" else "") + [LowerChar(s[i])]
  }

  predicate KeepsWhole(paths: set<Path>, head: string) { [head] in paths }

  /** What remains of the longer paths that start with `head`. */
  function SubPaths(paths: set<Path>, head: string): set<Path> {
    set p | p in paths && |p| >= 2 && p[0] == head :: p[1..]
  }

  predicate Selects(paths: set<Path>, head: string) {
    KeepsWhole(paths, head) || SubPaths(paths, head) != {}
  }

  /** The segment a key matches, "" for none. */
  function Segment(paths: set<Path>, key: string): string {
    if Selects(paths, Lower(key)) then Lower(key)
    else if CamelToKebab(key) != Lower(key) && Selects(paths, CamelToKebab(key)) then CamelToKebab(key)
    else ""
  }

  predicate Matches(paths: set<Path>, key: string) { Segment(paths, key) != "" }

  predicate HeadMatched(paths: set<Path>, obj: Json)
    requires obj.Obj?
  {
    exists k :: k in obj.fields && Matches(paths, k)
  }

  // ----- the projection -----

  /** Does the object wrap a list, directly or in nested envelopes? */
  predicate WrapsList(obj: Json, depth: nat)
    requires obj.Obj?
    decreases obj, 0
  {
    exists k :: k in obj.fields && k !in ENVELOPE_METADATA && IsListValue(obj.fields[k], depth)
  }

  predicate IsListValue(v: Json, depth: nat)
    decreases v, 1
  {
    v.Arr? || (v.Obj? && depth < MAX_ENVELOPE_DEPTH && WrapsList(v, depth + 1))
  }

  function Project(v: Json, paths: set<Path>, depth: nat): Json
    decreases v, 1
  {
    match v
    case Arr(items) => Arr(seq(|items|, i requires 0 <= i < |items| => Project(items[i], paths, depth)))
    case Null => Arr([])
    case Obj(fields) =>
      if HeadMatched(paths, v) then
        Obj(map k | k in fields && Matches(paths, k) ::
              if KeepsWhole(paths, Segment(paths, k)) then fields[k]
              else Project(fields[k], SubPaths(paths, Segment(paths, k)), depth))
      else if WrapsList(v, depth) then Unwrap(v, paths, depth)
      else Obj(map[])
    case _ => v
  }

  /** The envelope fallback: metadata and plain siblings pass through. */
  function Unwrap(obj: Json, paths: set<Path>, depth: nat): Json
    requires obj.Obj?
    decreases obj, 0
  {
    Obj(map k | k in obj.fields :: UnwrapField(k, obj.fields[k], paths, depth))
  }

  function UnwrapField(key: string, v: Json, paths: set<Path>, depth: nat): Json
    decreases v, 2
  {
    if key in ENVELOPE_METADATA || !IsListValue(v, depth) then v
    else if v.Arr? then Project(v, paths, depth)
    else Unwrap(v, paths, depth + 1)
  }

  // ----- what the selection found -----

  /** `anchored`: reached by following a path rather than an envelope. */
  datatype Found = Found(matched: bool, anchoredEmpty: bool, fallbackEmpty: bool)

  const NOTHING: Found := Found(false, false, false)

  function FoundIn(v: Json, paths: set<Path>, anchored: bool, depth: nat): Found
    decreases v, 1
  {
    match v
    case Arr(items) =>
      if items == [] then Found(false, anchored, !anchored)
      else
        Found(exists i :: 0 <= i < |items| && FoundIn(items[i], paths, anchored, depth).matched,
              exists i :: 0 <= i < |items| && FoundIn(items[i], paths, anchored, depth).anchoredEmpty,
              exists i :: 0 <= i < |items| && FoundIn(items[i], paths, anchored, depth).fallbackEmpty)
    case Null => Found(false, anchored, !anchored)
    case Obj(fields) =>
      if HeadMatched(paths, v) then
        Found(exists k :: k in fields && FoundAt(k, fields[k], paths, depth).matched,
              exists k :: k in fields && FoundAt(k, fields[k], paths, depth).anchoredEmpty,
              exists k :: k in fields && FoundAt(k, fields[k], paths, depth).fallbackEmpty)
      else if WrapsList(v, depth) then FoundInEnvelope(v, paths, depth)
      else NOTHING
    case _ => NOTHING
  }

  function FoundAt(key: string, v: Json, paths: set<Path>, depth: nat): Found
    decreases v, 2
  {
    if !Matches(paths, key) then NOTHING
    else if KeepsWhole(paths, Segment(paths, key)) then Found(true, false, false)
    else FoundIn(v, SubPaths(paths, Segment(paths, key)), true, depth)
  }

  function FoundInEnvelope(obj: Json, paths: set<Path>, depth: nat): Found
    requires obj.Obj?
    decreases obj, 0
  {
    Found(exists k :: k in obj.fields && FoundInField(k, obj.fields[k], paths, depth).matched,
          exists k :: k in obj.fields && FoundInField(k, obj.fields[k], paths, depth).anchoredEmpty,
          exists k :: k in obj.fields && FoundInField(k, obj.fields[k], paths, depth).fallbackEmpty)
  }

  function FoundInField(key: string, v: Json, paths: set<Path>, depth: nat): Found
    decreases v, 2
  {
    if key in ENVELOPE_METADATA || !IsListValue(v, depth) then NOTHING
    else if v.Arr? then FoundIn(v, paths, false, depth)
    else FoundInEnvelope(v, paths, depth + 1)
  }

  /** A selection that matched nothing anywhere, with no empty list that might
      have matched, leaves the document alone. */
  function FilterFields(v: Json, paths: set<Path>): Json {
    if paths == {} || FoundIn(v, paths, true, 0) == NOTHING then v else Project(v, paths, 0)
  }

  // ----- selecting twice is selecting once -----

  ghost predicate Stable(v: Json, paths: set<Path>, depth: nat) {
    Project(Project(v, paths, depth), paths, depth) == Project(v, paths, depth)
  }

  lemma {:induction false} ProjectStable(v: Json, paths: set<Path>, depth: nat)
    ensures Stable(v, paths, depth)
    decreases v, 1
  {
    match v
    case Arr(items) =>
      forall i | 0 <= i < |items| ensures Stable(items[i], paths, depth) {
        ProjectStable(items[i], paths, depth);
      }
    case Obj(fields) =>
      if HeadMatched(paths, v) {
        HeadStable(v, paths, depth);
      } else if WrapsList(v, depth) {
        UnwrapStable(v, paths, depth);
      }
    case _ =>
  }

  lemma {:induction false} HeadStable(v: Json, paths: set<Path>, depth: nat)
    requires v.Obj? && HeadMatched(paths, v)
    ensures Stable(v, paths, depth)
    decreases v, 0
  {
    hide Segment, SubPaths, KeepsWhole;
    var out := Project(v, paths, depth);
    assert HeadMatched(paths, out);
    forall k | k in out.fields && !KeepsWhole(paths, Segment(paths, k))
      ensures Project(out.fields[k], SubPaths(paths, Segment(paths, k)), depth) == out.fields[k]
    {
      ProjectStable(v.fields[k], SubPaths(paths, Segment(paths, k)), depth);
    }
  }

  /** An unwrapped envelope is still an envelope, and unwrapping it again changes
      nothing. */
  lemma {:induction false} UnwrapStable(obj: Json, paths: set<Path>, depth: nat)
    requires obj.Obj? && WrapsList(obj, depth)
    ensures var out := Unwrap(obj, paths, depth);
      && out.fields.Keys == obj.fields.Keys
      && WrapsList(out, depth)
      && Unwrap(out, paths, depth) == out
    decreases obj, 0
  {
    var out := Unwrap(obj, paths, depth);
    forall k | k in obj.fields
      ensures UnwrapField(k, out.fields[k], paths, depth) == out.fields[k]
      ensures k !in ENVELOPE_METADATA ==> IsListValue(out.fields[k], depth) == IsListValue(obj.fields[k], depth)
    {
      UnwrapFieldStable(k, obj.fields[k], paths, depth);
    }
  }

  lemma {:induction false} UnwrapFieldStable(key: string, v: Json, paths: set<Path>, depth: nat)
    ensures var out := UnwrapField(key, v, paths, depth);
      && UnwrapField(key, out, paths, depth) == out
      && (key !in ENVELOPE_METADATA ==> IsListValue(out, depth) == IsListValue(v, depth))
    decreases v, 2
  {
    if key !in ENVELOPE_METADATA && IsListValue(v, depth) {
      if v.Arr? {
        ProjectStable(v, paths, depth);
      } else {
        UnwrapStable(v, paths, depth + 1);
      }
    }
  }

  /** Field selection is idempotent on every document and selector set. */
  lemma SelectingTwiceIsSelectingOnce(v: Json, paths: set<Path>)
    ensures FilterFields(FilterFields(v, paths), paths) == FilterFields(v, paths)
  {
    ProjectStable(v, paths, 0);
  }

  // ----- the output lies within the input -----

  /** Same shape, with keys only ever left out and a null turned into []. */
  ghost predicate Within(out: Json, v: Json)
    decreases v
  {
    || out == v
    || (v.Null? && out == Arr([]))
    || (v.Arr? && out.Arr? && |out.items| == |v.items|
        && forall i :: 0 <= i < |v.items| ==> Within(out.items[i], v.items[i]))
    || (v.Obj? && out.Obj? && out.fields.Keys <= v.fields.Keys
        && forall k :: k in out.fields ==> Within(out.fields[k], v.fields[k]))
  }

  lemma {:induction false} ProjectWithin(v: Json, paths: set<Path>, depth: nat)
    ensures Within(Project(v, paths, depth), v)
    decreases v, 1
  {
    match v
    case Arr(items) =>
      forall i | 0 <= i < |items| ensures Within(Project(items[i], paths, depth), items[i]) {
        ProjectWithin(items[i], paths, depth);
      }
    case Obj(fields) =>
      if HeadMatched(paths, v) {
        forall k | k in fields
          ensures Within(Project(fields[k], SubPaths(paths, Segment(paths, k)), depth), fields[k])
        {
          ProjectWithin(fields[k], SubPaths(paths, Segment(paths, k)), depth);
        }
      } else if WrapsList(v, depth) {
        UnwrapWithin(v, paths, depth);
      }
    case _ =>
  }

  lemma {:induction false} UnwrapWithin(obj: Json, paths: set<Path>, depth: nat)
    requires obj.Obj?
    ensures Within(Unwrap(obj, paths, depth), obj)
    decreases obj, 0
  {
    forall k | k in obj.fields ensures Within(UnwrapField(k, obj.fields[k], paths, depth), obj.fields[k]) {
      var v := obj.fields[k];
      if k !in ENVELOPE_METADATA && IsListValue(v, depth) {
        if v.Arr? {
          ProjectWithin(v, paths, depth);
        } else {
          UnwrapWithin(v, paths, depth + 1);
        }
      }
    }
  }

  /** At every place, an output object's keys are among the input object's. */
  lemma OutputKeysAreInputKeys(v: Json, paths: set<Path>)
    ensures Within(FilterFields(v, paths), v)
  {
    ProjectWithin(v, paths, 0);
  }

  // ----- nothing selected is lost -----

  datatype Step = Key(key: string) | Index(i: nat)

  /** A place in a document: the steps that lead there from the root. */
  type Place = seq<Step>

  /** The value the selectors select at a place, None where they select nothing. */
  function SelectedAt(v: Json, paths: set<Path>, depth: nat, place: Place): Option<Json>
    decreases |place|, 1
  {
    if place == [] then None
    else
      match v
      case Arr(items) =>
        if place[0].Index? && place[0].i < |items| then SelectedAt(items[place[0].i], paths, depth, place[1..])
        else None
      case Obj(fields) =>
        if HeadMatched(paths, v) then
          if place[0].Key? && place[0].key in fields then SelectedUnder(v, place[0].key, paths, depth, place[1..])
          else None
        else if WrapsList(v, depth) then SelectedInEnvelope(v, paths, depth, place)
        else None
      case _ => None
  }

  function SelectedUnder(obj: Json, key: string, paths: set<Path>, depth: nat, place: Place): Option<Json>
    requires obj.Obj? && key in obj.fields
    decreases |place|, 2
  {
    var v := obj.fields[key];
    if !Matches(paths, key) then None
    else if KeepsWhole(paths, Segment(paths, key)) then if place == [] then Some(v) else None
    else SelectedAt(v, SubPaths(paths, Segment(paths, key)), depth, place)
  }

  function SelectedInEnvelope(obj: Json, paths: set<Path>, depth: nat, place: Place): Option<Json>
    requires obj.Obj?
    decreases |place|, 0
  {
    if place == [] || !place[0].Key? || place[0].key !in obj.fields then None
    else SelectedInField(place[0].key, obj.fields[place[0].key], paths, depth, place[1..])
  }

  function SelectedInField(key: string, v: Json, paths: set<Path>, depth: nat, place: Place): Option<Json>
    decreases |place|, 2
  {
    if key in ENVELOPE_METADATA || !IsListValue(v, depth) then None
    else if v.Arr? then SelectedAt(v, paths, depth, place)
    else SelectedInEnvelope(v, paths, depth + 1, place)
  }

  lemma {:induction false} ProjectKeepsSelected(v: Json, paths: set<Path>, depth: nat, place: Place)
    ensures SelectedAt(Project(v, paths, depth), paths, depth, place) == SelectedAt(v, paths, depth, place)
    decreases |place|, 1
  {
    if place != [] {
      match v
      case Arr(items) =>
        if place[0].Index? && place[0].i < |items| {
          ProjectKeepsSelected(items[place[0].i], paths, depth, place[1..]);
        }
      case Obj(fields) =>
        if HeadMatched(paths, v) {
          HeadKeepsSelected(v, paths, depth, place);
        } else if WrapsList(v, depth) {
          UnwrapKeepsSelected(v, paths, depth, place);
          UnwrapStable(v, paths, depth);
        }
      case _ =>
    }
  }

  lemma {:induction false} HeadKeepsSelected(v: Json, paths: set<Path>, depth: nat, place: Place)
    requires v.Obj? && HeadMatched(paths, v) && place != []
    ensures SelectedAt(Project(v, paths, depth), paths, depth, place) == SelectedAt(v, paths, depth, place)
    decreases |place|, 0
  {
    hide Segment, SubPaths, KeepsWhole;
    assert HeadMatched(paths, Project(v, paths, depth));
    if place[0].Key? && place[0].key in v.fields {
      var k := place[0].key;
      ProjectKeepsSelected(v.fields[k], SubPaths(paths, Segment(paths, k)), depth, place[1..]);
    }
  }

  lemma {:induction false} UnwrapKeepsSelected(obj: Json, paths: set<Path>, depth: nat, place: Place)
    requires obj.Obj?
    ensures SelectedInEnvelope(Unwrap(obj, paths, depth), paths, depth, place)
        == SelectedInEnvelope(obj, paths, depth, place)
    decreases |place|, 0
  {
    if place != [] && place[0].Key? && place[0].key in obj.fields {
      UnwrapFieldKeepsSelected(place[0].key, obj.fields[place[0].key], paths, depth, place[1..]);
    }
  }

  lemma {:induction false} UnwrapFieldKeepsSelected(key: string, v: Json, paths: set<Path>, depth: nat, place: Place)
    ensures SelectedInField(key, UnwrapField(key, v, paths, depth), paths, depth, place)
         == SelectedInField(key, v, paths, depth, place)
    decreases |place|, 2
  {
    UnwrapFieldStable(key, v, paths, depth);
    if key !in ENVELOPE_METADATA && IsListValue(v, depth) {
      if v.Arr? {
        ProjectKeepsSelected(v, paths, depth, place);
      } else {
        UnwrapKeepsSelected(v, paths, depth + 1, place);
      }
    }
  }

  /** Every value the selectors select in the document is still there, at its
      place, and selected, in the output, and no other is. */
  lemma NothingSelectedIsLost(v: Json, paths: set<Path>, place: Place)
    ensures SelectedAt(FilterFields(v, paths), paths, 0, place) == SelectedAt(v, paths, 0, place)
  {
    ProjectKeepsSelected(v, paths, 0, place);
  }

  // ----- nothing unselected is left -----

  /** Every key is selected, down to the values kept whole; an envelope may keep
      what lies beside its lists. */
  ghost predicate OnlySelected(v: Json, paths: set<Path>, depth: nat)
    decreases v, 1
  {
    match v
    case Arr(items) => forall i :: 0 <= i < |items| ==> OnlySelected(items[i], paths, depth)
    case Null => false
    case Obj(fields) =>
      if HeadMatched(paths, v) then
        forall k :: k in fields ==>
          Matches(paths, k)
          && (KeepsWhole(paths, Segment(paths, k))
              || OnlySelected(fields[k], SubPaths(paths, Segment(paths, k)), depth))
      else if WrapsList(v, depth) then OnlySelectedInLists(v, paths, depth)
      else fields == map[]
    case _ => true
  }

  ghost predicate OnlySelectedInLists(obj: Json, paths: set<Path>, depth: nat)
    requires obj.Obj?
    decreases obj, 0
  {
    forall k :: k in obj.fields && k !in ENVELOPE_METADATA && IsListValue(obj.fields[k], depth) ==>
      if obj.fields[k].Arr? then OnlySelected(obj.fields[k], paths, depth)
      else OnlySelectedInLists(obj.fields[k], paths, depth + 1)
  }

  /** The projection leaves a document alone exactly when there is nothing
      unselected in it. */
  lemma {:induction false} FixpointsAreSelected(v: Json, paths: set<Path>, depth: nat)
    ensures Project(v, paths, depth) == v <==> OnlySelected(v, paths, depth)
    decreases v, 1
  {
    match v
    case Arr(items) =>
      forall i | 0 <= i < |items|
        ensures Project(items[i], paths, depth) == items[i] <==> OnlySelected(items[i], paths, depth)
      {
        FixpointsAreSelected(items[i], paths, depth);
      }
      if Project(v, paths, depth) == v {
        assert forall i :: 0 <= i < |items| ==> Project(v, paths, depth).items[i] == items[i];
      }
    case Obj(fields) =>
      if HeadMatched(paths, v) {
        HeadFixpoint(v, paths, depth);
      } else if WrapsList(v, depth) {
        UnwrapFixpoint(v, paths, depth);
      }
    case _ =>
  }

  lemma {:induction false} HeadFixpoint(v: Json, paths: set<Path>, depth: nat)
    requires v.Obj? && HeadMatched(paths, v)
    ensures Project(v, paths, depth) == v <==> OnlySelected(v, paths, depth)
    decreases v, 0
  {
    hide Segment, SubPaths, KeepsWhole;
    var out := Project(v, paths, depth);
    forall k | k in v.fields
      ensures var sub := SubPaths(paths, Segment(paths, k));
        Project(v.fields[k], sub, depth) == v.fields[k] <==> OnlySelected(v.fields[k], sub, depth)
    {
      FixpointsAreSelected(v.fields[k], SubPaths(paths, Segment(paths, k)), depth);
    }
    if out == v {
      assert forall k :: k in v.fields ==> k in out.fields && out.fields[k] == v.fields[k];
    }
  }

  lemma {:induction false} UnwrapFixpoint(obj: Json, paths: set<Path>, depth: nat)
    requires obj.Obj?
    ensures Unwrap(obj, paths, depth) == obj <==> OnlySelectedInLists(obj, paths, depth)
    decreases obj, 0
  {
    var out := Unwrap(obj, paths, depth);
    forall k | k in obj.fields && k !in ENVELOPE_METADATA && IsListValue(obj.fields[k], depth)
      ensures out.fields[k] == obj.fields[k] <==>
        if obj.fields[k].Arr? then OnlySelected(obj.fields[k], paths, depth)
        else OnlySelectedInLists(obj.fields[k], paths, depth + 1)
    {
      assert out.fields[k] == UnwrapField(k, obj.fields[k], paths, depth);
      if obj.fields[k].Arr? {
        FixpointsAreSelected(obj.fields[k], paths, depth);
      } else {
        UnwrapFixpoint(obj.fields[k], paths, depth + 1);
      }
    }
    if OnlySelectedInLists(obj, paths, depth) {
      forall k | k in obj.fields ensures out.fields[k] == obj.fields[k] {
        assert out.fields[k] == UnwrapField(k, obj.fields[k], paths, depth);
      }
      assert out.fields == obj.fields;
    }
  }

  // ----- when the document is left alone -----

  /** Does the selection lead to an empty list, or to a null, that might have
      held what was asked for? */
  predicate LeadsToEmpty(v: Json, paths: set<Path>, depth: nat)
    decreases v, 1
  {
    match v
    case Arr(items) => items == [] || exists i :: 0 <= i < |items| && LeadsToEmpty(items[i], paths, depth)
    case Null => true
    case Obj(fields) =>
      if HeadMatched(paths, v) then exists k :: k in fields && LeadsToEmptyAt(k, fields[k], paths, depth)
      else WrapsList(v, depth) && EnvelopeLeadsToEmpty(v, paths, depth)
    case _ => false
  }

  predicate LeadsToEmptyAt(key: string, v: Json, paths: set<Path>, depth: nat)
    decreases v, 2
  {
    Matches(paths, key) && !KeepsWhole(paths, Segment(paths, key))
        && LeadsToEmpty(v, SubPaths(paths, Segment(paths, key)), depth)
  }

  predicate EnvelopeLeadsToEmpty(obj: Json, paths: set<Path>, depth: nat)
    requires obj.Obj?
    decreases obj, 0
  {
    exists k :: k in obj.fields && FieldLeadsToEmpty(k, obj.fields[k], paths, depth)
  }

  predicate FieldLeadsToEmpty(key: string, v: Json, paths: set<Path>, depth: nat)
    decreases v, 2
  {
    && key !in ENVELOPE_METADATA && IsListValue(v, depth)
    && if v.Arr? then LeadsToEmpty(v, paths, depth) else EnvelopeLeadsToEmpty(v, paths, depth + 1)
  }

  ghost predicate Reaches(v: Json, paths: set<Path>, depth: nat) {
    exists place :: SelectedAt(v, paths, depth, place).Some?
  }

  ghost predicate ReachesUnder(obj: Json, key: string, paths: set<Path>, depth: nat)
    requires obj.Obj? && key in obj.fields
  {
    exists place :: SelectedUnder(obj, key, paths, depth, place).Some?
  }

  ghost predicate ReachesInEnvelope(obj: Json, paths: set<Path>, depth: nat)
    requires obj.Obj?
  {
    exists place :: SelectedInEnvelope(obj, paths, depth, place).Some?
  }

  ghost predicate ReachesInField(key: string, v: Json, paths: set<Path>, depth: nat) {
    exists place :: SelectedInField(key, v, paths, depth, place).Some?
  }

  lemma ReachesItem(items: seq<Json>, paths: set<Path>, depth: nat)
    ensures Reaches(Arr(items), paths, depth) <==> exists i :: 0 <= i < |items| && Reaches(items[i], paths, depth)
  {
    if i :| 0 <= i < |items| && Reaches(items[i], paths, depth) {
      var place: Place :| SelectedAt(items[i], paths, depth, place).Some?;
      var longer := [Index(i)] + place;
      assert longer[1..] == place;
      assert SelectedAt(Arr(items), paths, depth, longer).Some?;
    }
    if place: Place :| SelectedAt(Arr(items), paths, depth, place).Some? {
      assert SelectedAt(items[place[0].i], paths, depth, place[1..]).Some?;
    }
  }

  lemma ReachesKey(v: Json, paths: set<Path>, depth: nat)
    requires v.Obj? && HeadMatched(paths, v)
    ensures Reaches(v, paths, depth) <==> exists k :: k in v.fields && ReachesUnder(v, k, paths, depth)
  {
    hide HeadMatched, SelectedUnder;
    if k :| k in v.fields && ReachesUnder(v, k, paths, depth) {
      var place: Place :| SelectedUnder(v, k, paths, depth, place).Some?;
      var longer := [Key(k)] + place;
      assert longer[1..] == place;
      assert SelectedAt(v, paths, depth, longer).Some?;
    }
    if place: Place :| SelectedAt(v, paths, depth, place).Some? {
      assert SelectedUnder(v, place[0].key, paths, depth, place[1..]).Some?;
      assert ReachesUnder(v, place[0].key, paths, depth);
    }
  }

  lemma ReachesField(obj: Json, paths: set<Path>, depth: nat)
    requires obj.Obj?
    ensures ReachesInEnvelope(obj, paths, depth)
       <==> exists k :: k in obj.fields && ReachesInField(k, obj.fields[k], paths, depth)
  {
    hide SelectedInField;
    if k :| k in obj.fields && ReachesInField(k, obj.fields[k], paths, depth) {
      var place: Place :| SelectedInField(k, obj.fields[k], paths, depth, place).Some?;
      var longer := [Key(k)] + place;
      assert longer[1..] == place;
      assert SelectedInEnvelope(obj, paths, depth, longer).Some?;
    }
    if place: Place :| SelectedInEnvelope(obj, paths, depth, place).Some? {
      var k := place[0].key;
      assert SelectedInField(k, obj.fields[k], paths, depth, place[1..]).Some?;
      assert ReachesInField(k, obj.fields[k], paths, depth);
    }
  }

  /** What the three flags of a search say about it. */
  predicate Tells(f: Found, reaches: bool, empty: bool) {
    (f.matched <==> reaches) && (f.anchoredEmpty || f.fallbackEmpty <==> empty)
  }

  lemma {:induction false} FoundTells(v: Json, paths: set<Path>, anchored: bool, depth: nat)
    ensures Tells(FoundIn(v, paths, anchored, depth), Reaches(v, paths, depth), LeadsToEmpty(v, paths, depth))
    decreases v, 2
  {
    match v
    case Arr(items) =>
      forall i | 0 <= i < |items|
        ensures Tells(FoundIn(items[i], paths, anchored, depth),
                      Reaches(items[i], paths, depth), LeadsToEmpty(items[i], paths, depth))
      {
        FoundTells(items[i], paths, anchored, depth);
      }
      ArrayTells(items, paths, anchored, depth);
    case Obj(fields) =>
      if HeadMatched(paths, v) {
        HeadTells(v, paths, anchored, depth);
      } else if WrapsList(v, depth) {
        EnvelopeTells(v, paths, depth);
        assert forall place :: SelectedAt(v, paths, depth, place) == SelectedInEnvelope(v, paths, depth, place);
      }
    case _ =>
  }

  lemma ArrayTells(items: seq<Json>, paths: set<Path>, anchored: bool, depth: nat)
    requires forall i :: 0 <= i < |items| ==>
      Tells(FoundIn(items[i], paths, anchored, depth),
            Reaches(items[i], paths, depth), LeadsToEmpty(items[i], paths, depth))
    ensures Tells(FoundIn(Arr(items), paths, anchored, depth),
                  Reaches(Arr(items), paths, depth), LeadsToEmpty(Arr(items), paths, depth))
  {
    hide Reaches;
    ReachesItem(items, paths, depth);
    if i :| 0 <= i < |items| && LeadsToEmpty(items[i], paths, depth) {
      assert FoundIn(items[i], paths, anchored, depth).anchoredEmpty
          || FoundIn(items[i], paths, anchored, depth).fallbackEmpty;
    }
  }

  lemma {:induction false} HeadTells(v: Json, paths: set<Path>, anchored: bool, depth: nat)
    requires v.Obj? && HeadMatched(paths, v)
    ensures Tells(FoundIn(v, paths, anchored, depth), Reaches(v, paths, depth), LeadsToEmpty(v, paths, depth))
    decreases v, 1
  {
    hide Segment, SubPaths, HeadMatched, Reaches;
    ReachesKey(v, paths, depth);
    forall k | k in v.fields
      ensures Tells(FoundAt(k, v.fields[k], paths, depth),
                    ReachesUnder(v, k, paths, depth), LeadsToEmptyAt(k, v.fields[k], paths, depth))
    {
      KeyTells(v, k, paths, depth);
    }
    if k :| k in v.fields && LeadsToEmptyAt(k, v.fields[k], paths, depth) {
      assert FoundAt(k, v.fields[k], paths, depth).anchoredEmpty || FoundAt(k, v.fields[k], paths, depth).fallbackEmpty;
    }
  }

  lemma {:induction false} KeyTells(obj: Json, key: string, paths: set<Path>, depth: nat)
    requires obj.Obj? && key in obj.fields
    ensures Tells(FoundAt(key, obj.fields[key], paths, depth),
                  ReachesUnder(obj, key, paths, depth), LeadsToEmptyAt(key, obj.fields[key], paths, depth))
    decreases obj, 0
  {
    hide Segment, SubPaths;
    if Matches(paths, key) {
      var v, sub := obj.fields[key], SubPaths(paths, Segment(paths, key));
      if KeepsWhole(paths, Segment(paths, key)) {
        assert SelectedUnder(obj, key, paths, depth, []).Some?;
      } else {
        FoundTells(v, sub, true, depth);
        assert forall place :: SelectedUnder(obj, key, paths, depth, place) == SelectedAt(v, sub, depth, place);
      }
    }
  }

  lemma {:induction false} EnvelopeTells(obj: Json, paths: set<Path>, depth: nat)
    requires obj.Obj?
    ensures Tells(FoundInEnvelope(obj, paths, depth),
                  ReachesInEnvelope(obj, paths, depth), EnvelopeLeadsToEmpty(obj, paths, depth))
    decreases obj, 0
  {
    hide ReachesInEnvelope;
    ReachesField(obj, paths, depth);
    forall k | k in obj.fields
      ensures Tells(FoundInField(k, obj.fields[k], paths, depth),
                    ReachesInField(k, obj.fields[k], paths, depth), FieldLeadsToEmpty(k, obj.fields[k], paths, depth))
    {
      FieldTells(k, obj.fields[k], paths, depth);
    }
    if k :| k in obj.fields && FieldLeadsToEmpty(k, obj.fields[k], paths, depth) {
      assert FoundInField(k, obj.fields[k], paths, depth).anchoredEmpty
             || FoundInField(k, obj.fields[k], paths, depth).fallbackEmpty;
    }
  }

  lemma {:induction false} FieldTells(key: string, v: Json, paths: set<Path>, depth: nat)
    ensures Tells(FoundInField(key, v, paths, depth),
                  ReachesInField(key, v, paths, depth), FieldLeadsToEmpty(key, v, paths, depth))
    decreases v, 3
  {
    if key !in ENVELOPE_METADATA && IsListValue(v, depth) {
      if v.Arr? {
        FoundTells(v, paths, false, depth);
        assert forall place :: SelectedInField(key, v, paths, depth, place) == SelectedAt(v, paths, depth, place);
      } else {
        EnvelopeTells(v, paths, depth + 1);
        ReachesInner(key, v, paths, depth, depth + 1);
      }
    }
  }

  lemma ReachesInner(key: string, v: Json, paths: set<Path>, depth: nat, inner: nat)
    requires key !in ENVELOPE_METADATA && v.Obj? && IsListValue(v, depth) && inner == depth + 1
    ensures ReachesInField(key, v, paths, depth) <==> ReachesInEnvelope(v, paths, inner)
  {
    if place: Place :| SelectedInField(key, v, paths, depth, place).Some? {
      assert SelectedInEnvelope(v, paths, inner, place).Some?;
    }
    if place: Place :| SelectedInEnvelope(v, paths, inner, place).Some? {
      assert SelectedInField(key, v, paths, depth, place).Some?;
    }
  }

  /** A document is left alone when the selectors reach nothing in it and lead to
      no empty list; else exactly what they select is left, each value at its
      place, and some of it unless only an empty list was found. */
  lemma LeftAloneOnAMiss(v: Json, paths: set<Path>, place: Place)
    requires paths != {}
    ensures var out := FilterFields(v, paths);
      if !Reaches(v, paths, 0) && !LeadsToEmpty(v, paths, 0) then out == v
      else OnlySelected(out, paths, 0) && SelectedAt(out, paths, 0, place) == SelectedAt(v, paths, 0, place)
  {
    FoundTells(v, paths, true, 0);
    NothingSelectedIsLost(v, paths, place);
    ProjectStable(v, paths, 0);
    FixpointsAreSelected(Project(v, paths, 0), paths, 0);
  }
}
