/** Looking a playbook up by query family when families have been folded since
    the row was stored: rows found under an old key are moved to the folded one.

    A row's key is its family.  Folding is any function here; module FamilyKeys
    has the one in use and shows that folding twice is folding once for synonyms
    that map straight to the final phrasing. */
module Playbooks {
  import opened Text
  import opened Wrappers

  type Fold = ByteString -> ByteString

  datatype Payload = Payload(playbookJson: ByteString, notes: ByteString, confidence: int)

  datatype Row = Row(id: int, family: ByteString, payload: Payload)

  /** Ascending ids, and no two rows under one key. */
  ghost predicate IsTable(rows: seq<Row>) {
    && (forall i, j :: 0 <= i < j < |rows| ==> rows[i].id < rows[j].id)
    && (forall i, j :: 0 <= i < j < |rows| ==> rows[i].family != rows[j].family)
  }

  /** Index of the row under exactly this key, |rows| when there is none. */
  function Exact(rows: seq<Row>, family: ByteString): (i: nat)
    ensures i <= |rows|
    ensures i < |rows| ==> rows[i].family == family
    ensures forall k :: 0 <= k < i ==> rows[k].family != family
  {
    if rows == [] || rows[0].family == family then 0 else 1 + Exact(rows[1..], family)
  }

  predicate FoldsTo(fold: Fold, row: Row, family: ByteString) {
    row.family != family && fold(row.family) == family
  }

  /** Index of the first row stored under another phrasing of the family. */
  function ByFold(rows: seq<Row>, fold: Fold, family: ByteString): (i: nat)
    ensures i <= |rows|
    ensures i < |rows| ==> FoldsTo(fold, rows[i], family)
    ensures forall k :: 0 <= k < i ==> !FoldsTo(fold, rows[k], family)
  {
    if rows == [] || FoldsTo(fold, rows[0], family) then 0 else 1 + ByFold(rows[1..], fold, family)
  }

  /** The three steps: the folded key, the key this phrasing once had, any key
      that folds to it. */
  function Find(rows: seq<Row>, fold: Fold, family: ByteString, raw: ByteString): (i: nat)
    ensures i <= |rows|
  {
    if family == "" then |rows|
    else if Exact(rows, family) < |rows| then Exact(rows, family)
    else if raw != "" && raw != family && Exact(rows, raw) < |rows| then Exact(rows, raw)
    else ByFold(rows, fold, family)
  }

  /** The row moved to the folded key, when the store accepts the write. */
  function Rekeyed(rows: seq<Row>, i: nat, family: ByteString, writable: bool): seq<Row> {
    if i < |rows| && writable then rows[i := rows[i].(family := family)] else rows
  }

  class PlaybookTable {
    const fold: Fold
    var rows: seq<Row>

    constructor (fold: Fold)
      ensures this.fold == fold && rows == []
    {
      this.fold, rows := fold, [];
    }

    method GetExact(family: ByteString) returns (at: nat)
      ensures at == Exact(rows, family)
    {
      at := 0;
      while at < |rows| && rows[at].family != family
        invariant at <= |rows| && Exact(rows, family) == at + Exact(rows[at..], family)
      {
        at := at + 1;
      }
    }

    method ScanByFold(family: ByteString) returns (at: nat)
      ensures at == ByFold(rows, fold, family)
    {
      at := 0;
      while at < |rows| && (rows[at].family == family || fold(rows[at].family) != family)
        invariant at <= |rows| && ByFold(rows, fold, family) == at + ByFold(rows[at..], fold, family)
      {
        at := at + 1;
      }
    }

    method Rekey(at: nat, family: ByteString, writable: bool) returns (row: Row)
      requires at < |rows|
      modifies `rows
      ensures rows == Rekeyed(old(rows), at, family, writable) && row == rows[at]
    {
      row := rows[at];
      if row.family == family {
        assert rows[at := row] == rows;
        return;
      }
      if !writable {
        return;
      }
      row := row.(family := family);
      rows := rows[at := row];
    }

    method LookupPlaybookByFamily(family: ByteString, raw: ByteString, writable: bool) returns (row: Option<Row>)
      modifies `rows
      ensures var i := Find(old(rows), fold, family, raw);
        && rows == Rekeyed(old(rows), i, family, writable)
        && row == if i < |rows| then Some(rows[i]) else None
    {
      if family == "" {
        return None;
      }
      var at := GetExact(family);
      if at < |rows| {
        assert rows[at := rows[at]] == rows;
        return Some(rows[at]);
      }
      if raw != "" && raw != family {
        at := GetExact(raw);
        if at < |rows| {
          var hit := Rekey(at, family, writable);
          return Some(hit);
        }
      }
      at := ScanByFold(family);
      if at == |rows| {
        return None;
      }
      var hit := Rekey(at, family, writable);
      return Some(hit);
    }
  }

  // ----- the simple lookup it refines -----

  /** Folding twice is folding once. */
  ghost predicate SingleHop(fold: Fold) {
    forall s :: fold(fold(s)) == fold(s)
  }

  /** A query under a folded family, with a phrasing that folds to it or none. */
  predicate GoodQuery(fold: Fold, family: ByteString, raw: ByteString) {
    family != "" && fold(family) == family && (raw != "" ==> fold(raw) == family)
  }

  /** The simple lookup: some stored key folds to the family. */
  ghost predicate Stored(rows: seq<Row>, fold: Fold, family: ByteString) {
    exists i :: 0 <= i < |rows| && fold(rows[i].family) == family
  }

  /** Is a row under this key an answer to the query? */
  predicate Answers(key: ByteString, fold: Fold, family: ByteString, raw: ByteString) {
    key == family || (raw != "" && key == raw) || fold(key) == family
  }

  ghost predicate StoredUnder(rows: seq<Row>, fold: Fold, family: ByteString, raw: ByteString) {
    exists i :: 0 <= i < |rows| && Answers(rows[i].family, fold, family, raw)
  }

  /** A row is found if and only if some stored key is the family, is the raw
      phrasing, or folds to the family; for a family that is its own fold, that is
      what folding every stored key would find, and only such a row is returned.  A
      row under the family goes before one under the raw phrasing, and that before
      the first whose key folds to the family. */
  lemma FindsWhatFoldingEverythingFinds(rows: seq<Row>, fold: Fold, family: ByteString, raw: ByteString)
    ensures Find(rows, fold, family, raw) < |rows| <==> family != "" && StoredUnder(rows, fold, family, raw)
    ensures Find(rows, fold, family, raw) < |rows| ==>
      Answers(rows[Find(rows, fold, family, raw)].family, fold, family, raw)
    ensures var i := Find(rows, fold, family, raw); i < |rows| && rows[i].family != family ==>
      && (forall k :: 0 <= k < |rows| ==> rows[k].family != family)
      && (raw == "" || rows[i].family == raw || forall k :: 0 <= k < |rows| ==> rows[k].family != raw)
      && (rows[i].family != raw ==> forall k :: 0 <= k < i ==> fold(rows[k].family) != family)
    ensures GoodQuery(fold, family, raw) ==>
      var i := Find(rows, fold, family, raw);
      && (i < |rows| <==> Stored(rows, fold, family))
      && (i < |rows| ==> fold(rows[i].family) == family)
  {
    var i := Find(rows, fold, family, raw);
    if k :| 0 <= k < |rows| && Answers(rows[k].family, fold, family, raw) {
      assert rows[k].family != family ==> (raw != "" && rows[k].family == raw) || FoldsTo(fold, rows[k], family);
    }
    if i < |rows| {
      assert Answers(rows[i].family, fold, family, raw);
    }
    if k :| 0 <= k < |rows| && fold(rows[k].family) == family {
      assert Answers(rows[k].family, fold, family, raw);
    }
  }

  // ----- rekeying -----

  /** Can a lookup of this family, so phrased, move a row away from this key? */
  predicate Moves(fold: Fold, key: ByteString, family: ByteString, raw: ByteString) {
    family != "" && key != family && ((raw != "" && key == raw) || fold(key) == family)
  }

  /** A hit that is not under the family's own key means no row is. */
  lemma MovesToAFreeKey(rows: seq<Row>, fold: Fold, family: ByteString, raw: ByteString, k: nat)
    requires Find(rows, fold, family, raw) < |rows| && k < |rows| && k != Find(rows, fold, family, raw)
    requires IsTable(rows)
    ensures rows[k].family != family
  {
    hide IsTable, ByFold;
    if Exact(rows, family) < |rows| {
      DistinctKeys(rows, k, Exact(rows, family));
    }
  }

  lemma DistinctKeys(rows: seq<Row>, i: nat, j: nat)
    requires i < |rows| && j < |rows| && i != j && IsTable(rows)
    ensures rows[i].family != rows[j].family
  {
  }

  /** Whatever the family and the phrasing: keys stay unique, ids and payloads
      stay, and at most the row found gets another key, the family. */
  lemma RekeyingIsHarmless(rows: seq<Row>, fold: Fold, family: ByteString, raw: ByteString, writable: bool)
    requires IsTable(rows)
    ensures var i := Find(rows, fold, family, raw); var after := Rekeyed(rows, i, family, writable);
      && |after| == |rows| && IsTable(after)
      && (forall k :: 0 <= k < |rows| ==> after[k].id == rows[k].id && after[k].payload == rows[k].payload)
      && (forall k :: 0 <= k < |rows| ==>
            || after[k] == rows[k]
            || (k == i && writable && after[k].family == family && Moves(fold, rows[k].family, family, raw)))
      && (i < |rows| && writable ==> after[i].family == family)
  {
    hide Find, StoredUnder, Stored;
    var i := Find(rows, fold, family, raw);
    FindsWhatFoldingEverythingFinds(rows, fold, family, raw);
    if i < |rows| {
      forall k | 0 <= k < |rows| && k != i ensures rows[k].family != family {
        MovesToAFreeKey(rows, fold, family, raw, k);
      }
    }
  }

  /** After a lookup that wrote, the same family is found at the first step, in
      the same row, whatever the phrasing. */
  lemma NextLookupIsExact(rows: seq<Row>, fold: Fold, family: ByteString, raw: ByteString, again: ByteString)
    requires IsTable(rows) && family != "" && Find(rows, fold, family, raw) < |rows|
    ensures var i := Find(rows, fold, family, raw); var after := Rekeyed(rows, i, family, true);
      Exact(after, family) == i && Find(after, fold, family, again) == i
      && after[i].id == rows[i].id && after[i].payload == rows[i].payload
      && Rekeyed(after, i, family, true) == after
  {
    var i := Find(rows, fold, family, raw);
    var after := Rekeyed(rows, i, family, true);
    assert after[i].family == family;
    assert forall k :: 0 <= k < |rows| && k != i ==> rows[k].family != family;
    assert after[i := after[i]] == after;
  }

  // ----- any series of lookups -----

  datatype Query = Query(family: ByteString, raw: ByteString, writable: bool)

  function AfterLookup(rows: seq<Row>, fold: Fold, q: Query): seq<Row> {
    Rekeyed(rows, Find(rows, fold, q.family, q.raw), q.family, q.writable)
  }

  function AfterLookups(rows: seq<Row>, fold: Fold, queries: seq<Query>): seq<Row>
    decreases |queries|
  {
    if queries == [] then rows else AfterLookups(AfterLookup(rows, fold, queries[0]), fold, queries[1..])
  }

  /** The pairs of family and phrasing that may be looked up. */
  type Asking = (ByteString, ByteString) -> bool

  predicate Asked(queries: seq<Query>, asking: Asking) {
    forall i :: 0 <= i < |queries| ==> asking(queries[i].family, queries[i].raw)
  }

  ghost predicate IsFound(rows: seq<Row>, fold: Fold, family: ByteString, raw: ByteString) {
    Find(rows, fold, family, raw) < |rows|
  }

  /** Once found, always found: no table and no series of lookups strands the
      family. */
  ghost predicate Lasts(fold: Fold, asking: Asking, family: ByteString, raw: ByteString) {
    forall rows, queries :: IsTable(rows) && Asked(queries, asking) && IsFound(rows, fold, family, raw) ==>
      IsFound(AfterLookups(rows, fold, queries), fold, family, raw)
  }

  /** No lookup moves an answer to a key that is no answer. */
  ghost predicate Closed(fold: Fold, asking: Asking, family: ByteString, raw: ByteString) {
    forall key, g, s :: asking(g, s) && Moves(fold, key, g, s) && Answers(key, fold, family, raw) ==>
      Answers(g, fold, family, raw)
  }

  lemma {:induction false} ClosedIsKept(rows: seq<Row>, fold: Fold, asking: Asking, queries: seq<Query>,
                                        family: ByteString, raw: ByteString)
    requires Closed(fold, asking, family, raw) && IsTable(rows) && Asked(queries, asking)
    requires IsFound(rows, fold, family, raw)
    ensures IsFound(AfterLookups(rows, fold, queries), fold, family, raw)
    decreases |queries|
  {
    hide Find, IsTable;
    if queries != [] {
      var q, after := queries[0], AfterLookup(rows, fold, queries[0]);
      FindsWhatFoldingEverythingFinds(rows, fold, family, raw);
      RekeyingIsHarmless(rows, fold, q.family, q.raw, q.writable);
      var i :| 0 <= i < |rows| && Answers(rows[i].family, fold, family, raw);
      assert Answers(after[i].family, fold, family, raw);
      FindsWhatFoldingEverythingFinds(after, fold, family, raw);
      ClosedIsKept(after, fold, asking, queries[1..], family, raw);
    }
  }

  lemma OneRowMoves(fold: Fold, key: ByteString, g: ByteString, s: ByteString)
    requires Moves(fold, key, g, s)
    ensures var row := Row(1, key, Payload("", "", 0));
      IsTable([row]) && AfterLookups([row], fold, [Query(g, s, true)]) == [row.(family := g)]
  {
    var row := Row(1, key, Payload("", "", 0));
    assert FoldsTo(fold, row, g) || key == s;
    assert AfterLookup([row], fold, Query(g, s, true)) == [row.(family := g)];
    assert [Query(g, s, true)][1..] == [];
  }

  /** Which families can be stranded, for any fold, any family asked for and any
      kind of queries: exactly those with an answer that some query moves to a key
      that is no answer. */
  lemma LastsExactlyWhenClosed(fold: Fold, asking: Asking, family: ByteString, raw: ByteString)
    ensures Lasts(fold, asking, family, raw) <==> family == "" || Closed(fold, asking, family, raw)
  {
    hide Find, IsTable, AfterLookups, Moves, Answers;
    if family == "" {
      forall rows ensures !IsFound(rows, fold, family, raw) {
        FindsWhatFoldingEverythingFinds(rows, fold, family, raw);
      }
    } else if Closed(fold, asking, family, raw) {
      forall rows, queries | IsTable(rows) && Asked(queries, asking) && IsFound(rows, fold, family, raw)
        ensures IsFound(AfterLookups(rows, fold, queries), fold, family, raw)
      {
        ClosedIsKept(rows, fold, asking, queries, family, raw);
      }
    } else {
      var key, g, s :| asking(g, s) && Moves(fold, key, g, s) && Answers(key, fold, family, raw)
                       && !Answers(g, fold, family, raw);
      var row := Row(1, key, Payload("", "", 0));
      OneRowMoves(fold, key, g, s);
      FindsWhatFoldingEverythingFinds([row], fold, family, raw);
      FindsWhatFoldingEverythingFinds([row.(family := g)], fold, family, raw);
      assert Answers([row][0].family, fold, family, raw);
      assert Asked([Query(g, s, true)], asking);
    }
  }

  /** Under folded queries every family asked for with no phrasing stays findable
      exactly when it is its own fold (or has no fold to be asked under); asked for
      with a phrasing, when family and phrasing each stay put, fold to the other, or
      to the family. */
  lemma FoldedQueriesStrandExactly(fold: Fold, family: ByteString, raw: ByteString)
    requires SingleHop(fold)
    ensures Lasts(fold, (g, s) => GoodQuery(fold, g, s), family, raw) <==>
      || family == ""
      || (fold(family) in {"", family, raw} && (raw == "" || fold(raw) in {"", family, raw}))
  {
    hide Lasts;
    var asking: Asking := (g, s) => GoodQuery(fold, g, s);
    LastsExactlyWhenClosed(fold, asking, family, raw);
    if Closed(fold, asking, family, raw) {
      ClosedUnderFolds(fold, family, raw, family);
      ClosedUnderFolds(fold, family, raw, raw);
    } else {
      NotClosed(fold, asking, family, raw);
    }
  }

  lemma ClosedUnderFolds(fold: Fold, family: ByteString, raw: ByteString, key: ByteString)
    requires SingleHop(fold) && Closed(fold, (g, s) => GoodQuery(fold, g, s), family, raw)
    ensures Answers(key, fold, family, raw) && fold(key) != "" ==> Answers(fold(key), fold, family, raw)
  {
    if Answers(key, fold, family, raw) && fold(key) != "" && fold(key) != key {
      assert Moves(fold, key, fold(key), "");
    }
  }

  lemma NotClosed(fold: Fold, asking: Asking, family: ByteString, raw: ByteString)
    requires !Closed(fold, asking, family, raw)
    ensures exists key, g, s :: asking(g, s) && Moves(fold, key, g, s) && Answers(key, fold, family, raw)
                                && !Answers(g, fold, family, raw)
  {
  }

  /** A query whose phrasing, if any, folds to what the family folds to. */
  predicate FoldsAlike(fold: Fold, family: ByteString, raw: ByteString) {
    raw != "" ==> fold(raw) == fold(family)
  }

  /** Some third key folds to what the family folds to. */
  ghost predicate ThirdAlike(fold: Fold, family: ByteString, raw: ByteString) {
    exists other :: other != "" && other != family && other != raw && fold(other) == fold(family)
  }

  /** The same when families may be looked up unfolded too, as long as each
      phrasing folds like its family: a family asked for with such a phrasing stays
      findable exactly when it is its own fold, or its fold is the phrasing or
      nothing and no third key folds alike. */
  lemma AlikeQueriesStrandExactly(fold: Fold, family: ByteString, raw: ByteString)
    requires SingleHop(fold) && FoldsAlike(fold, family, raw)
    ensures Lasts(fold, (g, s) => FoldsAlike(fold, g, s), family, raw) <==>
      || family == ""
      || fold(family) == family
      || (fold(family) in {"", raw} && !ThirdAlike(fold, family, raw))
  {
    hide Lasts;
    var asking: Asking := (g, s) => FoldsAlike(fold, g, s);
    LastsExactlyWhenClosed(fold, asking, family, raw);
    if family != "" && fold(family) != family {
      if fold(family) !in {"", raw} {
        assert Moves(fold, family, fold(family), "") && asking(fold(family), "");
        assert Answers(family, fold, family, raw) && !Answers(fold(family), fold, family, raw);
      } else if other :| other != "" && other != family && other != raw && fold(other) == fold(family) {
        assert Moves(fold, family, other, family) && asking(other, family);
        assert Answers(family, fold, family, raw) && !Answers(other, fold, family, raw);
      } else {
        AlikeMovesStay(fold, family, raw);
      }
    }
  }

  lemma AlikeMovesStay(fold: Fold, family: ByteString, raw: ByteString)
    requires SingleHop(fold) && FoldsAlike(fold, family, raw)
    requires fold(family) != family && fold(family) in {"", raw} && !ThirdAlike(fold, family, raw)
    ensures Closed(fold, (g, s) => FoldsAlike(fold, g, s), family, raw)
  {
    forall key, g, s | FoldsAlike(fold, g, s) && Moves(fold, key, g, s) && Answers(key, fold, family, raw)
      ensures Answers(g, fold, family, raw)
    {
      assert fold(fold(key)) == fold(key);
    }
  }

  // ----- what any series of phrased lookups keeps -----

  /** The phrasing, if it is not the family itself, folds to it; the family need
      not be its own fold. */
  predicate Phrased(fold: Fold, family: ByteString, raw: ByteString) {
    raw == "" || raw == family || fold(raw) == family
  }

  /** Same rows, ids and payloads; and every key still folds to what it folded to. */
  ghost predicate SameUnderFold(before: seq<Row>, after: seq<Row>, fold: Fold) {
    && |after| == |before|
    && forall i :: 0 <= i < |before| ==>
         && after[i].id == before[i].id && after[i].payload == before[i].payload
         && fold(after[i].family) == fold(before[i].family)
         && (after[i].family == before[i].family || after[i].family == fold(before[i].family))
  }

  /** No series of lookups, with or without failing writes, loses a row or changes
      what its key folds to; so every family that is its own fold is found after if
      and only if it was found before. */
  lemma {:induction false} LookupsStrandNothing(rows: seq<Row>, fold: Fold, queries: seq<Query>)
    requires IsTable(rows) && SingleHop(fold) && Asked(queries, (g, s) => Phrased(fold, g, s))
    ensures IsTable(AfterLookups(rows, fold, queries))
    ensures SameUnderFold(rows, AfterLookups(rows, fold, queries), fold)
    ensures forall family, raw :: GoodQuery(fold, family, raw) ==>
      (IsFound(AfterLookups(rows, fold, queries), fold, family, raw) <==> IsFound(rows, fold, family, raw))
    decreases |queries|
  {
    hide Find, IsTable;
    var after := AfterLookups(rows, fold, queries);
    if queries != [] {
      var q := queries[0];
      RekeyingIsHarmless(rows, fold, q.family, q.raw, q.writable);
      LookupsStrandNothing(AfterLookup(rows, fold, q), fold, queries[1..]);
      StepsCompose(rows, AfterLookup(rows, fold, q), after, fold);
    }
    forall family, raw | GoodQuery(fold, family, raw)
      ensures IsFound(after, fold, family, raw) <==> IsFound(rows, fold, family, raw)
    {
      FindsWhatFoldingEverythingFinds(rows, fold, family, raw);
      FindsWhatFoldingEverythingFinds(after, fold, family, raw);
      SameFamiliesStored(rows, after, fold, family);
    }
  }

  lemma SameFamiliesStored(before: seq<Row>, after: seq<Row>, fold: Fold, family: ByteString)
    requires SameUnderFold(before, after, fold)
    ensures Stored(before, fold, family) <==> Stored(after, fold, family)
  {
    if i :| 0 <= i < |before| && fold(before[i].family) == family {
      assert fold(after[i].family) == family;
    }
  }

  lemma StepsCompose(a: seq<Row>, b: seq<Row>, c: seq<Row>, fold: Fold)
    requires SameUnderFold(a, b, fold) && SameUnderFold(b, c, fold)
    ensures SameUnderFold(a, c, fold)
  {
  }

  /** A row under its folded key is never moved again. */
  lemma {:induction false} RekeyingIsOneTime(rows: seq<Row>, fold: Fold, queries: seq<Query>, i: nat)
    requires IsTable(rows) && Asked(queries, (g, s) => Phrased(fold, g, s))
    requires i < |rows| && fold(rows[i].family) == rows[i].family
    ensures i < |AfterLookups(rows, fold, queries)| && AfterLookups(rows, fold, queries)[i] == rows[i]
    decreases |queries|
  {
    hide Find, IsTable;
    if queries != [] {
      var q := queries[0];
      RekeyingIsHarmless(rows, fold, q.family, q.raw, q.writable);
      RekeyingIsOneTime(AfterLookup(rows, fold, q), fold, queries[1..], i);
    }
  }
}
