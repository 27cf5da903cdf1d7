/** The backward scan that seeds a derivation batch with recall families.  It splits
    whole segments, up to the stored offset, while the reader delivers complete lines
    only. */
module DeriveJournal {
  import opened Wrappers
  import opened Journal
  import opened Derive
  import opened DeriveBatches

  type EntryCodec = Codec<Entry>

  // ----- the scan for recall families -----

  /** The lines of a segment as splitting at line feeds yields them. */
  function SplitLines(data: Bytes, from: nat): seq<Bytes>
    requires from <= |data|
    decreases |data| - from
  {
    var lf := FirstLF(data, from);
    [data[from..lf]] + if lf == |data| then [] else SplitLines(data, lf + 1)
  }

  function LineEntry(codec: EntryCodec, line: Bytes): seq<Entry> {
    match EntryOf(codec, line)
    case Some(e) => [e]
    case None => []
  }

  function LineEntries(codec: EntryCodec, lines: seq<Bytes>): seq<Entry> {
    if lines == [] then []
    else LineEntries(codec, lines[..|lines| - 1]) + LineEntry(codec, lines[|lines| - 1])
  }

  /** What one more entry, met going backwards, adds to the families found. */
  function Note(found: map<string, string>, active: set<string>, e: Entry): map<string, string> {
    if e.session in active && e.session !in found && IsRecall(e) then found[e.session := e.queryFamily] else found
  }

  /** From the last entry back until every active session is accounted for. */
  function ScanBack(entries: seq<Entry>, active: set<string>, found: map<string, string>): map<string, string> {
    if entries == [] || |found| >= |active| then found
    else ScanBack(entries[..|entries| - 1], active, Note(found, active, entries[|entries| - 1]))
  }

  lemma {:induction false} ScanBackAppend(a: seq<Entry>, b: seq<Entry>, active: set<string>, found: map<string, string>)
    ensures ScanBack(a + b, active, found) == ScanBack(a, active, ScanBack(b, active, found))
  {
    hide Note;
    if b == [] {
      assert a + b == a;
    } else if |found| < |active| {
      assert (a + b)[..|a + b| - 1] == a + b[..|b| - 1];
      ScanBackAppend(a, b[..|b| - 1], active, Note(found, active, b[|b| - 1]));
    }
  }

  /** `found` already holds the answer for its sessions; for the others the
      answer lies in the first `i` entries. */
  ghost predicate ScannedDownTo(before: seq<Entry>, i: nat, active: set<string>, found: map<string, string>)
    requires i <= |before|
  {
    var all, rest := Families(before, map[]), Families(before[..i], map[]);
    && found.Keys <= active
    && (forall s :: s in found ==> s in all && all[s] == found[s])
    && (forall s :: s in active && s !in found ==> (s in all <==> s in rest) && (s in all ==> all[s] == rest[s]))
  }

  lemma ScanOneEntry(before: seq<Entry>, i: nat, active: set<string>, found: map<string, string>)
    requires 0 < i <= |before| && ScannedDownTo(before, i, active, found)
    ensures ScannedDownTo(before, i - 1, active, Note(found, active, before[i - 1]))
  {
    assert before[..i][..i - 1] == before[..i - 1];
  }

  lemma {:induction false} ScanBackKeeps(before: seq<Entry>, i: nat, active: set<string>, found: map<string, string>)
    returns (j: nat)
    requires i <= |before| && ScannedDownTo(before, i, active, found)
    ensures j <= i && ScannedDownTo(before, j, active, ScanBack(before[..i], active, found))
    ensures j == 0 || |ScanBack(before[..i], active, found)| >= |active|
  {
    hide ScannedDownTo, Note;
    if i == 0 || |found| >= |active| {
      j := i;
    } else {
      ScanOneEntry(before, i, active, found);
      assert before[..i][..i - 1] == before[..i - 1];
      j := ScanBackKeeps(before, i - 1, active, Note(found, active, before[i - 1]));
    }
  }

  /** The backward scan finds each active session's last recall family, as a forward
      pass over the same entries would. */
  lemma ScanBackIsSeed(before: seq<Entry>, batch: seq<Entry>)
    ensures ScanBack(before, ActiveSessions(batch), map[]) == SeedFor(before, batch)
  {
    hide ScanBack, ScannedDownTo, SeedFor, ActiveSessions;
    NothingScanned(before, ActiveSessions(batch));
    var j := ScanBackKeeps(before, |before|, ActiveSessions(batch), map[]);
    assert before[..|before|] == before;
    ScanDone(before, j, batch, ScanBack(before, ActiveSessions(batch), map[]));
  }

  lemma NothingScanned(before: seq<Entry>, active: set<string>)
    ensures ScannedDownTo(before, |before|, active, map[])
  {
    assert before[..|before|] == before;
  }

  lemma ScanDone(before: seq<Entry>, i: nat, batch: seq<Entry>, families: map<string, string>)
    requires i <= |before| && ScannedDownTo(before, i, ActiveSessions(batch), families)
    requires i == 0 || |families| >= |ActiveSessions(batch)|
    ensures families == SeedFor(before, batch)
  {
    if i == 0 {
      assert Families(before[..0], map[]) == map[];
    } else {
      FullSubset(families.Keys, ActiveSessions(batch));
    }
  }

  lemma FullSubset<T>(a: set<T>, b: set<T>)
    requires a <= b && |a| >= |b|
    ensures a == b
  {
    if a != b {
      var x :| x in b && x !in a;
      assert a <= b - {x};
      SubsetSize(a, b - {x});
    }
  }

  lemma {:induction false} SubsetSize<T>(a: set<T>, b: set<T>)
    requires a <= b
    ensures |a| <= |b|
  {
    if a != {} {
      var x :| x in a;
      SubsetSize(a - {x}, b - {x});
    }
  }

  method ScanRecallFamiliesReverse(codec: EntryCodec, data: Bytes, active: set<string>, families: map<string, string>)
    returns (found: map<string, string>)
    ensures found == ScanBack(LineEntries(codec, SplitLines(data, 0)), active, families)
  {
    hide SplitLines, ScanBack, LineEntries;
    var lines := SplitLines(data, 0);
    found := families;
    var i := |lines|;
    assert lines[..i] == lines;
    while i > 0 && |found| < |active|
      invariant 0 <= i <= |lines|
      invariant ScanBack(LineEntries(codec, lines[..i]), active, found)
          == ScanBack(LineEntries(codec, lines), active, families)
    {
      ScanOneLine(codec, lines, i, active, found);
      i := i - 1;
      var line := lines[i];
      if |line| == 0 || line[0] != OPEN_BRACE {
        continue;
      }
      var parsed := codec.parse(line);
      if parsed.None? {
        continue;
      }
      var e := parsed.value;
      if e.session !in active || e.session in found {
        continue;
      }
      if |e.cmd| > 0 && e.cmd[0] == "recall" && e.queryFamily != "" {
        found := found[e.session := e.queryFamily];
      }
    }
    ScanEnds(codec, lines[..i], active, found);
  }

  lemma ScanEnds(codec: EntryCodec, lines: seq<Bytes>, active: set<string>, found: map<string, string>)
    requires lines == [] || |found| >= |active|
    ensures ScanBack(LineEntries(codec, lines), active, found) == found
  {
  }

  lemma ScanStep(before: seq<Entry>, e: Entry, active: set<string>, found: map<string, string>)
    requires |found| < |active|
    ensures ScanBack(before + [e], active, found) == ScanBack(before, active, Note(found, active, e))
  {
    hide Note;
    assert (before + [e])[..|before|] == before;
  }

  lemma LastLine(codec: EntryCodec, lines: seq<Bytes>, i: nat)
    requires 0 < i <= |lines|
    ensures LineEntries(codec, lines[..i]) == LineEntries(codec, lines[..i - 1]) + LineEntry(codec, lines[i - 1])
  {
    assert lines[..i][..i - 1] == lines[..i - 1];
  }

  lemma ScanOneLine(codec: EntryCodec, lines: seq<Bytes>, i: nat, active: set<string>, found: map<string, string>)
    requires 0 < i <= |lines| && |found| < |active|
    ensures ScanBack(LineEntries(codec, lines[..i]), active, found)
         == ScanBack(LineEntries(codec, lines[..i - 1]), active,
              match EntryOf(codec, lines[i - 1]) case Some(e) => Note(found, active, e) case None => found)
  {
    hide Note, EntryOf, ScanBack, LineEntries;
    var before := LineEntries(codec, lines[..i - 1]);
    LastLine(codec, lines, i);
    match EntryOf(codec, lines[i - 1]) {
      case Some(e) => ScanStep(before, e, active, found);
      case None => assert before + [] == before;
    }
  }

  // ----- what it scans -----

  function ScanData(s: Segment, o: Offset): Bytes {
    if s.day == o.segment && o.byte < |s.data| then s.data[..o.byte] else s.data
  }

  function ScannedIn(codec: EntryCodec, s: Segment, o: Offset): seq<Entry> {
    if o.segment != 0 && s.day > o.segment then [] else LineEntries(codec, SplitLines(ScanData(s, o), 0))
  }

  function Scanned(codec: EntryCodec, dir: seq<Segment>, o: Offset): seq<Entry> {
    if dir == [] then [] else Scanned(codec, dir[..|dir| - 1], o) + ScannedIn(codec, dir[|dir| - 1], o)
  }

  /** Nothing lies before the zero offset. */
  function SeenBefore(codec: EntryCodec, dir: seq<Segment>, o: Offset): seq<Entry> {
    if o == ZERO then [] else Scanned(codec, dir, o)
  }

  /** Newest segment first, up to the stored offset. */
  method SessionRecallFamiliesBeforeBatch(codec: EntryCodec, batch: seq<Entry>, dir: seq<Segment>, offset: Offset)
    returns (families: map<string, string>)
    ensures families == SeedFor(SeenBefore(codec, dir, offset), batch)
  {
    hide ScanBack, SeedFor, ScannedIn, ActiveSessions;
    var active := ActiveSessions(batch);
    ScanBackIsSeed(SeenBefore(codec, dir, offset), batch);
    families := map[];
    if offset == ZERO {
      NothingToScan(active, families);
      return;
    }
    var i := |dir|;
    assert dir[..i] == dir;
    while i > 0 && |families| < |active|
      invariant 0 <= i <= |dir|
      invariant ScanBack(Scanned(codec, dir[..i], offset), active, families)
             == ScanBack(Scanned(codec, dir, offset), active, map[])
    {
      var before := dir[..i - 1];
      assert dir[..i][..i - 1] == before;
      ScanBackAppend(Scanned(codec, before, offset), ScannedIn(codec, dir[i - 1], offset), active, families);
      i := i - 1;
      var seg := dir[i];
      SegmentScan(codec, seg, offset);
      if offset.segment != 0 && seg.day > offset.segment {
        NothingToScan(active, families);
        continue;
      }
      var data := seg.data;
      if seg.day == offset.segment && offset.byte < |data| {
        data := data[..offset.byte];
      }
      families := ScanRecallFamiliesReverse(codec, data, active, families);
    }
    AllAccountedFor(codec, dir[..i], offset, active, families);
  }

  lemma NothingToScan(active: set<string>, found: map<string, string>)
    ensures ScanBack([], active, found) == found
  {
  }

  lemma SegmentScan(codec: EntryCodec, s: Segment, o: Offset)
    ensures ScannedIn(codec, s, o)
         == if o.segment != 0 && s.day > o.segment then [] else LineEntries(codec, SplitLines(ScanData(s, o), 0))
  {
  }

  lemma AllAccountedFor(codec: EntryCodec, dir: seq<Segment>, o: Offset, active: set<string>,
                        found: map<string, string>)
    requires dir == [] || |found| >= |active|
    ensures ScanBack(Scanned(codec, dir, o), active, found) == found
  {
  }
}
