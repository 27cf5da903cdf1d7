/** Derivation end to end: appends that may be torn, day rollover, and passes that
    read segment files from the stored offset.  Each such life is a life of
    DeriveRuns, line for line. */
module DeriveLives {
  import opened Wrappers
  import opened Journal
  import opened Derive
  import opened DeriveBatches
  import opened DeriveJournal
  import J = JournalRuns
  import R = DeriveRuns

  // ----- which lines on disk are delivered -----

  function Tag(records: seq<Record<Entry>>, delivered: bool): seq<R.Line> {
    seq(|records|, i requires 0 <= i < |records| => R.Line(records[i].entry, delivered))
  }

  /** The record that ends a segment without its line feed, if it is a full one. */
  function Tail(codec: EntryCodec, s: Segment): seq<Record<Entry>> {
    var end := Consumed(s.data, 0);
    RecordOf(codec, s.day, end, s.data[end..])
  }

  /** A segment that has a successor: its unterminated record stays a stray. */
  function Closed(codec: EntryCodec, s: Segment): seq<R.Line> {
    Tag(ReadLines(codec, s.day, s.data, 0), true) + Tag(Tail(codec, s), false)
  }

  function TaggedIn(codec: EntryCodec, s: Segment, o: Offset): seq<R.Line> {
    if s.day < o.segment then Closed(codec, s)
    else if s.day == o.segment then Tag(ReadLines(codec, s.day, s.data[..StartIn(s, o)], 0), true)
    else []
  }

  /** The lines before an offset. */
  function Tagged(codec: EntryCodec, dir: seq<Segment>, o: Offset): seq<R.Line> {
    if dir == [] then []
    else Tagged(codec, dir[..|dir| - 1], o) + TaggedIn(codec, dir[|dir| - 1], o)
  }

  function AllClosed(codec: EntryCodec, dir: seq<Segment>): seq<R.Line> {
    if dir == [] then [] else AllClosed(codec, dir[..|dir| - 1]) + Closed(codec, dir[|dir| - 1])
  }

  /** All lines: what ends the newest segment may still be completed. */
  function AllLines(codec: EntryCodec, dir: seq<Segment>): seq<R.Line> {
    if dir == [] then []
    else
      var s := dir[|dir| - 1];
      AllClosed(codec, dir[..|dir| - 1]) + Tag(ReadLines(codec, s.day, s.data, 0), true)
  }

  // ----- what the reader and the scan see of them -----

  lemma {:induction false} TagDelivered(records: seq<Record<Entry>>)
    ensures R.Delivered(Tag(records, true)) == J.Entries(records)
    ensures R.Delivered(Tag(records, false)) == []
    ensures R.All(Tag(records, true)) == R.All(Tag(records, false)) == J.Entries(records)
  {
    if records != [] {
      var init := records[..|records| - 1];
      TagDelivered(init);
      assert Tag(records, true)[..|init|] == Tag(init, true) && Tag(records, false)[..|init|] == Tag(init, false);
      assert J.Entries(records) == J.Entries(init) + [records[|init|].entry];
    }
  }

  lemma AllAppend(a: seq<R.Line>, b: seq<R.Line>)
    ensures R.All(a + b) == R.All(a) + R.All(b)
  {
  }

  lemma {:induction false} OneMoreLine(codec: EntryCodec, day: nat, data: Bytes, from: nat)
    requires from <= |data|
    ensures var lf := FirstLF(data, from);
      var record := RecordOf(codec, day, from, data[from..lf]);
      && SplitLines(data, from) == [data[from..lf]] + (if lf == |data| then [] else SplitLines(data, lf + 1))
      && J.ScanLines(codec, day, data, from)
      == record + (if lf == |data| then [] else J.ScanLines(codec, day, data, lf + 1))
  {
    hide FirstLF, RecordOf;
  }

  lemma {:induction false} ScanLinesSplit(codec: EntryCodec, day: nat, data: Bytes, from: nat)
    requires from <= |data|
    ensures LineEntries(codec, SplitLines(data, from)) == J.Entries(J.ScanLines(codec, day, data, from))
    decreases |data| - from
  {
    hide RecordOf, LineEntries, SplitLines, J.ScanLines, J.Entries;
    var lf := FirstLF(data, from);
    var line := data[from..lf];
    OneMoreLine(codec, day, data, from);
    OneLine(codec, day, from, line);
    if lf < |data| {
      ScanLinesSplit(codec, day, data, lf + 1);
      LineEntriesCons(codec, line, SplitLines(data, lf + 1));
      J.EntriesAppend(RecordOf(codec, day, from, line), J.ScanLines(codec, day, data, lf + 1));
    } else {
      NoMoreLines(codec);
      LineEntriesCons(codec, line, []);
      J.EntriesAppend(RecordOf(codec, day, from, line), []);
    }
  }

  lemma NoMoreLines(codec: EntryCodec)
    ensures LineEntries(codec, []) == [] && J.Entries<Entry>([]) == []
  {
  }

  lemma OneLine(codec: EntryCodec, day: nat, start: nat, line: Bytes)
    ensures J.Entries(RecordOf(codec, day, start, line)) == LineEntry(codec, line)
  {
  }

  lemma {:induction false} LineEntriesCons(codec: EntryCodec, line: Bytes, rest: seq<Bytes>)
    ensures LineEntries(codec, [line] + rest) == LineEntry(codec, line) + LineEntries(codec, rest)
  {
    hide LineEntry;
    if rest == [] {
      assert ([line] + rest)[..0] == [];
    } else {
      assert ([line] + rest)[..|rest|] == [line] + rest[..|rest| - 1];
      LineEntriesCons(codec, line, rest[..|rest| - 1]);
    }
  }

  /** A whole segment scanned: what is read, then the unterminated record. */
  lemma ClosedScan(codec: EntryCodec, s: Segment)
    ensures LineEntries(codec, SplitLines(s.data, 0)) == R.All(Closed(codec, s))
    ensures R.Delivered(Closed(codec, s)) == J.Entries(ReadLines(codec, s.day, s.data, 0))
  {
    hide ReadLines, RecordOf, Consumed, R.Delivered, R.All, LineEntries, SplitLines;
    var read := ReadLines(codec, s.day, s.data, 0);
    ScanLinesSplit(codec, s.day, s.data, 0);
    J.ScanIsReadThenTail(codec, s.day, s.data, 0);
    J.EntriesAppend(read, Tail(codec, s));
    TagDelivered(read);
    TagDelivered(Tail(codec, s));
    AllAppend(Tag(read, true), Tag(Tail(codec, s), false));
    R.DeliveredAppend(Tag(read, true), Tag(Tail(codec, s), false));
  }

  /** A segment cut at a line boundary scanned: what is read. */
  lemma BoundaryScan(codec: EntryCodec, day: nat, data: Bytes)
    requires J.Boundary(data, |data|)
    ensures LineEntries(codec, SplitLines(data, 0)) == J.Entries(ReadLines(codec, day, data, 0))
  {
    hide ReadLines;
    ScanLinesSplit(codec, day, data, 0);
    J.ScanSeesUnterminatedTail(codec, day, data);
  }

  lemma SegmentViews(codec: EntryCodec, s: Segment, o: Offset)
    requires s.day > 0 && o.segment > 0 && (s.day == o.segment ==> J.Boundary(s.data, o.byte))
    ensures ScannedIn(codec, s, o) == R.All(TaggedIn(codec, s, o))
    ensures R.Delivered(TaggedIn(codec, s, o)) == J.Entries(J.PriorInSegment(codec, s, o))
  {
    hide ReadLines, LineEntries, SplitLines, Tail;
    if s.day < o.segment {
      ClosedScan(codec, s);
    } else if s.day == o.segment {
      var cut := s.data[..o.byte];
      BoundaryScan(codec, s.day, cut);
      TagDelivered(ReadLines(codec, s.day, cut, 0));
      assert o.byte == |s.data| ==> cut == s.data;
    }
  }

  /** The scan sees all lines before the offset, the reader was handed the delivered
      ones. */
  lemma {:induction false} Views(codec: EntryCodec, dir: seq<Segment>, o: Offset)
    requires Sorted(dir) && (o == ZERO || o.segment > 0)
    requires forall i :: 0 <= i < |dir| && dir[i].day == o.segment ==> J.Boundary(dir[i].data, o.byte)
    ensures SeenBefore(codec, dir, o) == R.All(Tagged(codec, dir, o))
    ensures R.Delivered(Tagged(codec, dir, o)) == J.Entries(J.Prior(codec, dir, o))
  {
    hide TaggedIn, ScannedIn, J.PriorInSegment, R.All, R.Delivered;
    if dir == [] {
      NoLines();
    } else {
      var init, s := dir[..|dir| - 1], dir[|dir| - 1];
      Views(codec, init, o);
      AllAppend(Tagged(codec, init, o), TaggedIn(codec, s, o));
      R.DeliveredAppend(Tagged(codec, init, o), TaggedIn(codec, s, o));
      J.EntriesAppend(J.Prior(codec, init, o), J.PriorInSegment(codec, s, o));
      if o == ZERO {
        NothingBeforeZero(codec, s);
      } else {
        SegmentViews(codec, s, o);
      }
    }
  }

  lemma NoLines()
    ensures R.All([]) == [] && R.Delivered([]) == [] && J.Entries<Entry>([]) == []
  {
  }

  lemma NothingBeforeZero(codec: EntryCodec, s: Segment)
    requires s.day > 0
    ensures TaggedIn(codec, s, ZERO) == [] && J.PriorInSegment(codec, s, ZERO) == []
    ensures R.All([]) == [] && R.Delivered([]) == [] && J.Entries<Entry>([]) == []
  {
  }

  /** The scan over the segment files seeds a batch as the entries the reader was
      handed would, exactly when no stray record decides a session of the batch. */
  lemma RawScanAgreesExactly(codec: EntryCodec, dir: seq<Segment>, o: Offset, batch: seq<Entry>)
    requires Sorted(dir) && (o == ZERO || o.segment > 0)
    requires forall i :: 0 <= i < |dir| && dir[i].day == o.segment ==> J.Boundary(dir[i].data, o.byte)
    ensures SeedFor(SeenBefore(codec, dir, o), batch) == SeedFor(J.Entries(J.Prior(codec, dir, o)), batch)
        <==> R.NoStrayDecides(Tagged(codec, dir, o), batch)
  {
    hide SeedFor, R.NoStrayDecides;
    Views(codec, dir, o);
    R.ScanAgreesExactly(Tagged(codec, dir, o), batch);
  }

  /** A full record that lost its line feed at the end of an older segment is
      scanned, but was never delivered. */
  lemma StrayIsScanned(codec: EntryCodec, recall: Entry, day: nat, later: nat)
    requires IsLineCodec(codec) && 0 < day < later
    ensures var dir, o := [Segment(day, codec.marshal(recall)), Segment(later, [])], Offset(later, 0);
      && Sorted(dir) && SeenBefore(codec, dir, o) == [recall] && J.Prior(codec, dir, o) == []
      && Tagged(codec, dir, o) == [R.Line(recall, false)]
  {
    var first, second, o := Segment(day, codec.marshal(recall)), Segment(later, []), Offset(later, 0);
    var dir := [first, second];
    assert dir[..1] == [first] && [first][..0] == [];
    StrayTail(codec, recall, day);
    assert second.data[..0] == [];
    J.ReadNoLine(codec, later, [], 0);
    Views(codec, dir, o);
    assert R.All([R.Line(recall, false)]) == [recall];
    assert TaggedIn(codec, second, o) == [];
    assert Tagged(codec, [first], o) == TaggedIn(codec, first, o);
  }

  lemma StrayTail(codec: EntryCodec, recall: Entry, day: nat)
    requires IsLineCodec(codec)
    ensures var s := Segment(day, codec.marshal(recall));
      ReadLines(codec, day, s.data, 0) == [] && Closed(codec, s) == [R.Line(recall, false)]
  {
    hide IsLineCodec;
    var line := codec.marshal(recall);
    J.LineHasNoLF(codec, recall);
    assert line[0..] == line;
    J.ReadNoLine(codec, day, line, 0);
  }

  // ----- appends only add lines -----

  lemma {:induction false} TaggedBefore(codec: EntryCodec, dir: seq<Segment>, o: Offset)
    requires Sorted(dir) && forall i :: 0 <= i < |dir| ==> dir[i].day < o.segment
    ensures Tagged(codec, dir, o) == AllClosed(codec, dir)
  {
    if dir != [] {
      TaggedBefore(codec, dir[..|dir| - 1], o);
    }
  }

  /** What lies before an offset is a prefix of all lines. */
  lemma {:induction false} TaggedIsPrefix(codec: EntryCodec, dir: seq<Segment>, o: Offset)
    requires Sorted(dir) && J.OffsetOk(dir, o)
    ensures Tagged(codec, dir, o) <= AllLines(codec, dir)
  {
    hide Closed, ReadLines;
    if dir != [] {
      var init, s := dir[..|dir| - 1], dir[|dir| - 1];
      TaggedInOlder(codec, init, o);
      if s.day == o.segment {
        TaggedBefore(codec, init, o);
        ReadPrefix(codec, s.day, s.data, o.byte);
      }
    }
  }

  lemma {:induction false} TaggedInOlder(codec: EntryCodec, dir: seq<Segment>, o: Offset)
    requires Sorted(dir)
    requires forall i :: 0 <= i < |dir| && dir[i].day == o.segment ==> J.Boundary(dir[i].data, o.byte)
    ensures Tagged(codec, dir, o) <= AllClosed(codec, dir)
    ensures (forall i :: 0 <= i < |dir| ==> dir[i].day < o.segment) ==> Tagged(codec, dir, o) == AllClosed(codec, dir)
  {
    hide ReadLines, Tail;
    if dir != [] {
      var init, s := dir[..|dir| - 1], dir[|dir| - 1];
      TaggedInOlder(codec, init, o);
      if s.day == o.segment {
        ReadPrefix(codec, s.day, s.data, o.byte);
      }
    }
  }

  lemma TagAppend(a: seq<Record<Entry>>, b: seq<Record<Entry>>, delivered: bool)
    ensures Tag(a + b, delivered) == Tag(a, delivered) + Tag(b, delivered)
  {
  }

  lemma ReadPrefix(codec: EntryCodec, day: nat, data: Bytes, b: nat)
    requires J.Boundary(data, b)
    ensures Tag(ReadLines(codec, day, data[..b], 0), true) <= Tag(ReadLines(codec, day, data, 0), true)
  {
    hide ReadLines;
    J.ReadLinesSplit(codec, day, data, 0, b);
    TagAppend(ReadLines(codec, day, data[..b], 0), ReadLines(codec, day, data, b), true);
  }

  /** Appending bytes to a segment keeps the lines that were complete. */
  lemma GrownReads(codec: EntryCodec, day: nat, data: Bytes, grown: Bytes)
    requires data <= grown
    ensures Tag(ReadLines(codec, day, data, 0), true) <= Tag(ReadLines(codec, day, grown, 0), true)
  {
    hide ReadLines, Consumed;
    var b := Consumed(data, 0);
    J.ConsumedIsBoundary(codec, day, data, 0);
    J.ReadLinesSplit(codec, day, data, 0, b);
    assert J.Boundary(grown, b) && grown[..b] == data[..b];
    J.ReadLinesSplit(codec, day, grown, 0, b);
    TagAppend(ReadLines(codec, day, data[..b], 0), ReadLines(codec, day, grown, b), true);
    assert ReadLines(codec, day, data, 0) == ReadLines(codec, day, data[..b], 0);
  }

  lemma AppendAddsLines(codec: EntryCodec, dir: seq<Segment>, day: nat, bytes: Bytes)
    requires Sorted(dir) && day > 0 && (dir != [] ==> dir[|dir| - 1].day <= day)
    ensures AllLines(codec, dir) <= AllLines(codec, Appended(dir, day, bytes))
  {
    hide Appended, Repaired, ReadLines, Tail, Tag;
    J.AppendedShape(dir, day, bytes);
    var dir', n := Appended(dir, day, bytes), |dir|;
    if n > 0 && dir[n - 1].day == day {
      J.RepairedExtends(dir[n - 1].data);
      GrownReads(codec, day, dir[n - 1].data, dir'[n - 1].data);
      assert dir'[..n - 1] == dir[..n - 1];
    } else {
      assert dir'[..n] == dir;
    }
  }

  lemma {:induction false} TaggedDependsOnBefore(codec: EntryCodec, dir: seq<Segment>, dir': seq<Segment>, o: Offset)
    requires |dir| == |dir'| && forall i :: 0 <= i < |dir| ==> TaggedIn(codec, dir[i], o) == TaggedIn(codec, dir'[i], o)
    ensures Tagged(codec, dir, o) == Tagged(codec, dir', o)
  {
    hide TaggedIn;
    if dir != [] {
      TaggedDependsOnBefore(codec, dir[..|dir| - 1], dir'[..|dir'| - 1], o);
    }
  }

  /** An append adds no line before the offset. */
  lemma AppendKeepsTagged(codec: EntryCodec, dir: seq<Segment>, o: Offset, day: nat, bytes: Bytes)
    requires Sorted(dir) && J.OffsetOk(dir, o) && day > 0 && (dir != [] ==> dir[|dir| - 1].day <= day)
    ensures Tagged(codec, Appended(dir, day, bytes), o) == Tagged(codec, dir, o)
  {
    hide ReadLines, Appended, Repaired, Closed;
    var dir', n := Appended(dir, day, bytes), |dir|;
    J.AppendedShape(dir, day, bytes);
    if n > 0 && dir[n - 1].day == day {
      assert dir'[..n - 1] == dir[..n - 1];
      var s, s' := dir[n - 1], dir'[n - 1];
      J.RepairedExtends(s.data);
      if s.day == o.segment {
        assert s'.data[..o.byte] == s.data[..o.byte];
      }
    } else {
      assert dir'[..n] == dir;
      assert o == ZERO || o.segment <= dir[n - 1].day;
    }
  }

  /** A committed pass has consumed every line. */
  lemma NextOffsetConsumesAll(codec: EntryCodec, dir: seq<Segment>, o: Offset)
    requires Sorted(dir) && J.OffsetOk(dir, o)
    ensures Tagged(codec, dir, NextOffset(dir, o)) == AllLines(codec, dir)
  {
    hide ReadLines, Consumed, Closed;
    if dir != [] {
      var init, s := dir[..|dir| - 1], dir[|dir| - 1];
      var b := Consumed(s.data, StartIn(s, o));
      J.ConsumedIsBoundary(codec, s.day, s.data, StartIn(s, o));
      J.ReadLinesSplit(codec, s.day, s.data, 0, b);
      TaggedBefore(codec, init, Offset(s.day, b));
      assert ReadLines(codec, s.day, s.data, 0) == ReadLines(codec, s.day, s.data[..b], 0);
    }
  }

  lemma {:induction false} ClosedIsRead(codec: EntryCodec, dir: seq<Segment>)
    requires Sorted(dir)
    ensures R.Delivered(AllClosed(codec, dir)) == J.Entries(ReadFrom(codec, dir, ZERO))
    ensures R.Delivered(AllLines(codec, dir)) == J.Entries(ReadFrom(codec, dir, ZERO))
  {
    hide ReadLines, Closed, R.Delivered;
    NoLines();
    if dir != [] {
      var init, s := dir[..|dir| - 1], dir[|dir| - 1];
      ClosedIsRead(codec, init);
      ClosedScan(codec, s);
      TagDelivered(ReadLines(codec, s.day, s.data, 0));
      R.DeliveredAppend(AllClosed(codec, init), Closed(codec, s));
      R.DeliveredAppend(AllClosed(codec, init), Tag(ReadLines(codec, s.day, s.data, 0), true));
      J.EntriesAppend(ReadFrom(codec, init, ZERO), ReadLines(codec, s.day, s.data, 0));
    }
  }

  /** After the lines before the offset come exactly those the reader returns. */
  lemma RestIsRead(codec: EntryCodec, dir: seq<Segment>, o: Offset)
    requires Sorted(dir) && J.OffsetOk(dir, o) && (o == ZERO || o.segment > 0)
    ensures |Tagged(codec, dir, o)| <= |AllLines(codec, dir)|
    ensures AllLines(codec, dir)[..|Tagged(codec, dir, o)|] == Tagged(codec, dir, o)
    ensures R.Delivered(AllLines(codec, dir)[|Tagged(codec, dir, o)|..]) == J.Entries(ReadFrom(codec, dir, o))
  {
    hide Tagged, AllLines, R.Delivered, J.Entries;
    TaggedIsPrefix(codec, dir, o);
    var all, before := AllLines(codec, dir), Tagged(codec, dir, o);
    var rest := all[|before|..];
    assert all == before + rest;
    R.DeliveredAppend(before, rest);
    ClosedIsRead(codec, dir);
    Views(codec, dir, o);
    J.PriorThenRest(codec, dir, o);
    J.EntriesAppend(J.Prior(codec, dir, o), ReadFrom(codec, dir, o));
    var x := J.Entries(J.Prior(codec, dir, o));
    assert (x + R.Delivered(rest))[|x|..] == R.Delivered(rest);
    assert (x + J.Entries(ReadFrom(codec, dir, o)))[|x|..] == J.Entries(ReadFrom(codec, dir, o));
  }

  // ----- one pass over the segment files -----

  /** Nothing new, or a held batch: nothing changes.  A pass that fails records a
      prefix and keeps the offset; one that succeeds records all and stores the next. */
  ghost function PassResult(codec: EntryCodec, dir: seq<Segment>, o: Offset, recorded: seq<Correction>, now: int,
                            flagExists: FlagTree, failAt: Option<nat>): (Offset, seq<Correction>, bool)
  {
    var entries, next := J.Entries(ReadFrom(codec, dir, o)), NextOffset(dir, o);
    var pairs := Pairs(entries, SeedFor(SeenBefore(codec, dir, o), entries), flagExists);
    if (entries == [] && next == o) || Pending(entries, now, flagExists) then (o, recorded, true)
    else if failAt.Some? && failAt.value <= |pairs| then (o, recorded + pairs[..failAt.value], false)
    else (next, recorded + pairs, true)
  }

  /** `failAt` is the first store call that fails, counting the recorded
      corrections and, last, the new offset; None when the store works. */
  class Deriver {
    const journal: JournalDir<Entry>
    var recorded: seq<Correction>

    constructor (journal: JournalDir<Entry>)
      ensures this.journal == journal && recorded == []
    {
      this.journal, recorded := journal, [];
    }

    method DeriveFlagCorrections(now: int, flagExists: FlagTree, failAt: Option<nat>) returns (ok: bool)
      requires journal.Valid()
      modifies `recorded, journal`stored
      ensures journal.Valid()
      ensures (journal.stored, recorded, ok)
           == PassResult(journal.codec, journal.segments, old(journal.stored), old(recorded), now, flagExists, failAt)
    {
      hide Pairs, Pending, SeedFor, SeenBefore, ReadFrom, NextOffset, J.Entries;
      var offset := journal.stored;
      var records, next := journal.ReadJournalFrom(offset);
      var entries := J.Entries(records);
      if |entries| == 0 && next == offset {
        return true;
      }
      var recallSeed := SessionRecallFamiliesBeforeBatch(journal.codec, entries, journal.segments, offset);
      var pairs, pending := PairFlagCorrections(entries, recallSeed, now, flagExists);
      if pending {
        return true;
      }
      for i := 0 to |pairs|
        invariant recorded == old(recorded) + pairs[..i] && journal.stored == offset
        invariant failAt.Some? ==> i <= failAt.value
      {
        if failAt == Some(i) {
          return false;
        }
        recorded := recorded + [pairs[i]];
      }
      assert pairs[..|pairs|] == pairs;
      if failAt == Some(|pairs|) {
        return false;
      }
      journal.StoreOffset(next);
      return true;
    }
  }

  // ----- lives -----

  datatype World = World(dir: seq<Segment>, offset: Offset, recorded: seq<Correction>)

  datatype Event =
    | Append(item: J.Item<Entry>)
    | Pass(now: int, failAt: Option<nat>)

  /** Days do not go back; clock and stamps are free. */
  predicate Enabled(codec: EntryCodec, w: World, event: Event) {
    event.Append? ==> J.CanAppend(codec, w.dir, event.item)
  }

  ghost function Next(codec: EntryCodec, w: World, event: Event, flagExists: FlagTree): World {
    match event
    case Append(item) => w.(dir := Appended(w.dir, item.day, J.Wire(codec, item)))
    case Pass(now, failAt) =>
      var (offset, recorded, _) := PassResult(codec, w.dir, w.offset, w.recorded, now, flagExists, failAt);
      w.(offset := offset, recorded := recorded)
  }

  ghost function Exec(codec: EntryCodec, w: World, run: seq<Event>, flagExists: FlagTree): Option<World>
    decreases |run|
  {
    if run == [] then Some(w)
    else if !Enabled(codec, w, run[0]) then None
    else Exec(codec, Next(codec, w, run[0], flagExists), run[1..], flagExists)
  }

  const EMPTY: World := World([], ZERO, [])

  /** The entries handed out by the resumed reads so far, and those of the next read. */
  function HandedOut(codec: EntryCodec, w: World): seq<Entry> { J.Entries(J.Prior(codec, w.dir, w.offset)) }

  function Unread(codec: EntryCodec, w: World): seq<Entry> { J.Entries(ReadFrom(codec, w.dir, w.offset)) }

  ghost function Done(codec: EntryCodec, w: World, flagExists: FlagTree): seq<Correction> {
    Pairs(HandedOut(codec, w), map[], flagExists)
  }

  // ----- what can go wrong in a pass over the files -----

  ghost predicate IsFaulty(codec: EntryCodec, w: World, event: Event, fault: R.Fault, flagExists: FlagTree) {
    && event.Pass?
    && R.PassIsFaulty(Tagged(codec, w.dir, w.offset), Unread(codec, w), event.now, event.failAt, fault, flagExists)
  }

  ghost predicate Never(codec: EntryCodec, w: World, run: seq<Event>, fault: R.Fault, flagExists: FlagTree)
    decreases |run|
  {
    run != [] ==>
      && !IsFaulty(codec, w, run[0], fault, flagExists)
      && Never(codec, Next(codec, w, run[0], flagExists), run[1..], fault, flagExists)
  }

  ghost function RepeatedIn(codec: EntryCodec, w: World, event: Event, flagExists: FlagTree): nat {
    match event
    case Append(_) => 0
    case Pass(now, failAt) => R.PassRepeats(Tagged(codec, w.dir, w.offset), Unread(codec, w), now, failAt, flagExists)
  }

  ghost function MissedIn(codec: EntryCodec, w: World, event: Event, flagExists: FlagTree): nat {
    match event
    case Append(_) => 0
    case Pass(now, failAt) => R.PassMisses(Tagged(codec, w.dir, w.offset), Unread(codec, w), now, failAt, flagExists)
  }

  ghost function Repeated(codec: EntryCodec, w: World, run: seq<Event>, flagExists: FlagTree): nat
    decreases |run|
  {
    if run == [] then 0
    else RepeatedIn(codec, w, run[0], flagExists)
         + Repeated(codec, Next(codec, w, run[0], flagExists), run[1..], flagExists)
  }

  ghost function Missed(codec: EntryCodec, w: World, run: seq<Event>, flagExists: FlagTree): nat
    decreases |run|
  {
    if run == [] then 0
    else MissedIn(codec, w, run[0], flagExists)
         + Missed(codec, Next(codec, w, run[0], flagExists), run[1..], flagExists)
  }

  // ----- every life is a run over its lines -----

  function Abs(codec: EntryCodec, w: World): R.World {
    R.World(AllLines(codec, w.dir), |Tagged(codec, w.dir, w.offset)|, w.recorded)
  }

  ghost predicate WorldOk(w: World) {
    Sorted(w.dir) && J.OffsetOk(w.dir, w.offset) && (w.offset == ZERO || w.offset.segment > 0)
  }

  lemma AbsBatch(codec: EntryCodec, w: World, flagExists: FlagTree)
    requires WorldOk(w)
    ensures var a := Abs(codec, w);
      && a.offset <= |a.lines| && R.Before(a) == Tagged(codec, w.dir, w.offset) && R.Batch(a) == Unread(codec, w)
      && R.Consumed(a) == HandedOut(codec, w)
      && R.BatchPairs(a, flagExists)
      == Pairs(Unread(codec, w), SeedFor(SeenBefore(codec, w.dir, w.offset), Unread(codec, w)), flagExists)
  {
    hide Pairs, SeedFor, Tagged, AllLines, R.Delivered, R.All, J.Prior, J.Entries, SeenBefore, ReadFrom;
    RestIsRead(codec, w.dir, w.offset);
    Views(codec, w.dir, w.offset);
  }

  /** A pass over the files is a pass over their lines. */
  lemma PassRefines(codec: EntryCodec, w: World, now: int, failAt: Option<nat>, flagExists: FlagTree)
    requires WorldOk(w)
    ensures Abs(codec, Next(codec, w, Pass(now, failAt), flagExists))
         == R.Next(Abs(codec, w), R.Pass(now, failAt), flagExists)
    ensures WorldOk(Next(codec, w, Pass(now, failAt), flagExists))
  {
    hide Pairs, SeedFor, Tagged, AllLines, SeenBefore, Pending, R.Batch, R.BatchPairs, R.Before, R.Consumed,
         ReadFrom, NextOffset, J.Entries, J.OffsetOk, J.Prior;
    AbsBatch(codec, w, flagExists);
    NextOffsetConsumesAll(codec, w.dir, w.offset);
    J.SecondReadIsEmpty(codec, w.dir, w.offset);
    NextOffsetIsNamed(w.dir, w.offset);
    NothingYieldsNothing(now, SeedFor(SeenBefore(codec, w.dir, w.offset), []), flagExists);
  }

  lemma NothingYieldsNothing(now: int, seed: map<string, string>, flagExists: FlagTree)
    ensures !Pending([], now, flagExists) && Pairs([], seed, flagExists) == []
  {
    SuccessesYieldNothing([], 0, seed, now, flagExists);
  }

  lemma NextOffsetIsNamed(dir: seq<Segment>, o: Offset)
    requires Sorted(dir) && J.OffsetOk(dir, o) && (o == ZERO || o.segment > 0)
    ensures NextOffset(dir, o) == ZERO || NextOffset(dir, o).segment > 0
  {
  }

  /** The lines an append makes final: completed records, and the unterminated one of
      a segment it succeeds. */
  function News(codec: EntryCodec, dir: seq<Segment>, item: J.Item<Entry>): seq<R.Line> {
    var before, after := AllLines(codec, dir), AllLines(codec, Appended(dir, item.day, J.Wire(codec, item)));
    if |before| <= |after| then after[|before|..] else []
  }

  lemma AppendRefines(codec: EntryCodec, w: World, item: J.Item<Entry>, flagExists: FlagTree)
    requires WorldOk(w) && Enabled(codec, w, Append(item))
    ensures var a := Abs(codec, w);
      Abs(codec, Next(codec, w, Append(item), flagExists)) == a.(lines := a.lines + News(codec, w.dir, item))
    ensures WorldOk(Next(codec, w, Append(item), flagExists))
  {
    hide Appended, J.Wire, AllLines, Tagged, J.OffsetOk, Sorted;
    var bytes := J.Wire(codec, item);
    AppendAddsLines(codec, w.dir, item.day, bytes);
    AppendKeepsTagged(codec, w.dir, w.offset, item.day, bytes);
    J.AppendedShape(w.dir, item.day, bytes);
    J.AppendKeepsOffset(w.dir, w.offset, item.day, bytes);
    var before, after := AllLines(codec, w.dir), AllLines(codec, Appended(w.dir, item.day, bytes));
    assert before + after[|before|..] == after;
  }

  /** The run over lines that a life amounts to. */
  ghost function RunOf(codec: EntryCodec, w: World, run: seq<Event>, flagExists: FlagTree): seq<R.Event>
    decreases |run|
  {
    if run == [] then []
    else
      (match run[0]
       case Append(item) => R.Appends(News(codec, w.dir, item))
       case Pass(now, failAt) => [R.Pass(now, failAt)])
      + RunOf(codec, Next(codec, w, run[0], flagExists), run[1..], flagExists)
  }

  lemma OnePass(a: R.World, now: int, failAt: Option<nat>, rest: seq<R.Event>, flagExists: FlagTree)
    ensures var run, next := [R.Pass(now, failAt)] + rest, R.Next(a, R.Pass(now, failAt), flagExists);
      && R.Exec(a, run, flagExists) == R.Exec(next, rest, flagExists)
      && (forall fault :: R.Never(a, run, fault, flagExists)
            <==> !R.IsFaulty(a, R.Pass(now, failAt), fault, flagExists) && R.Never(next, rest, fault, flagExists))
      && R.Repeated(a, run, flagExists)
      == R.RepeatedIn(a, R.Pass(now, failAt), flagExists) + R.Repeated(next, rest, flagExists)
      && R.Missed(a, run, flagExists)
      == R.MissedIn(a, R.Pass(now, failAt), flagExists) + R.Missed(next, rest, flagExists)
  {
    hide R.Next, R.IsFaulty, R.RepeatedIn, R.MissedIn;
    assert ([R.Pass(now, failAt)] + rest)[1..] == rest;
  }

  /** Same end, same faults. */
  lemma {:induction false} LivesAreRuns(codec: EntryCodec, w: World, run: seq<Event>, flagExists: FlagTree)
    requires WorldOk(w) && Exec(codec, w, run, flagExists).Some?
    ensures WorldOk(Exec(codec, w, run, flagExists).value)
    ensures var a, lines := Abs(codec, w), RunOf(codec, w, run, flagExists);
      && R.Exec(a, lines, flagExists) == Abs(codec, Exec(codec, w, run, flagExists).value)
      && (forall fault :: R.Never(a, lines, fault, flagExists) <==> Never(codec, w, run, fault, flagExists))
      && R.Repeated(a, lines, flagExists) == Repeated(codec, w, run, flagExists)
      && R.Missed(a, lines, flagExists) == Missed(codec, w, run, flagExists)
    decreases |run|
  {
    hide Abs, Next, WorldOk, News, R.Appends, R.Next, R.Exec, R.Never, R.Repeated, R.Missed, IsFaulty, R.IsFaulty,
         R.RepeatedIn, R.MissedIn, RepeatedIn, MissedIn, Enabled;
    var a := Abs(codec, w);
    if run == [] {
      NoEvents(a, flagExists);
    } else {
      var next := Next(codec, w, run[0], flagExists);
      var rest := RunOf(codec, next, run[1..], flagExists);
      match run[0] {
        case Append(item) =>
          var news := News(codec, w.dir, item);
          AppendRefines(codec, w, item, flagExists);
          AppendIsFaultless(codec, w, item, flagExists);
          LivesAreRuns(codec, next, run[1..], flagExists);
          R.ExecSplits(a, R.Appends(news), rest, flagExists);
          R.AppendLines(a, news, flagExists);
          R.FaultsAfterAppends(a, news, rest, flagExists);
        case Pass(now, failAt) =>
          PassRefines(codec, w, now, failAt, flagExists);
          PassFaultsRefine(codec, w, now, failAt, flagExists);
          LivesAreRuns(codec, next, run[1..], flagExists);
          OnePass(a, now, failAt, rest, flagExists);
      }
    }
  }

  lemma NoEvents(a: R.World, flagExists: FlagTree)
    ensures R.Exec(a, [], flagExists) == a && forall fault :: R.Never(a, [], fault, flagExists)
    ensures R.Repeated(a, [], flagExists) == 0 == R.Missed(a, [], flagExists)
  {
  }

  lemma AppendIsFaultless(codec: EntryCodec, w: World, item: J.Item<Entry>, flagExists: FlagTree)
    ensures forall fault :: !IsFaulty(codec, w, Append(item), fault, flagExists)
    ensures RepeatedIn(codec, w, Append(item), flagExists) == 0 == MissedIn(codec, w, Append(item), flagExists)
  {
  }

  lemma PassFaultsRefine(codec: EntryCodec, w: World, now: int, failAt: Option<nat>, flagExists: FlagTree)
    requires WorldOk(w)
    ensures var a, pass := Abs(codec, w), R.Pass(now, failAt);
      && (forall fault :: R.IsFaulty(a, pass, fault, flagExists)
            <==> IsFaulty(codec, w, Pass(now, failAt), fault, flagExists))
      && R.RepeatedIn(a, pass, flagExists) == RepeatedIn(codec, w, Pass(now, failAt), flagExists)
      && R.MissedIn(a, pass, flagExists) == MissedIn(codec, w, Pass(now, failAt), flagExists)
  {
    hide Tagged, Unread, R.PassIsFaulty, R.PassRepeats, R.PassMisses, Abs, R.Before, R.Batch;
    AbsBatch(codec, w, flagExists);
  }

  /** End to end, over any life with torn tails, tails completed late, rollover, held
      batches and failing stores, whatever the clock and the stamps say: what is
      recorded is, up to anchors and in order, what one pass over the entries handed
      out derives, if and only if no pass failed midway and none came too late; with
      the anchors if and only if moreover no stray got one wrong.  The balance of the
      numbers always holds, nothing is invented, and nothing is missing as long as no
      pass came too late. */
  lemma PassesDeriveWhatOnePassWould(codec: EntryCodec, run: seq<Event>, flagExists: FlagTree)
    requires Exec(codec, EMPTY, run, flagExists).Some?
    ensures var w := Exec(codec, EMPTY, run, flagExists).value;
      var done, whole := Done(codec, w, flagExists), Pairs(J.Entries(ReadFrom(codec, w.dir, ZERO)), map[], flagExists);
      var midway := !Never(codec, EMPTY, run, R.Midway, flagExists);
      var late := !Never(codec, EMPTY, run, R.TooLate, flagExists);
      var anchored := Never(codec, EMPTY, run, R.Misanchored, flagExists);
      && |w.recorded| + Missed(codec, EMPTY, run, flagExists) == |done| + Repeated(codec, EMPTY, run, flagExists)
      && (midway <==> Repeated(codec, EMPTY, run, flagExists) > 0)
      && (late <==> Missed(codec, EMPTY, run, flagExists) > 0)
      && (!(midway && late) ==>
            && (WithoutAnchors(w.recorded) == WithoutAnchors(done) <==> !midway && !late)
            && (w.recorded == done <==> !midway && !late && anchored))
      && R.AllAmong(w.recorded, whole, anchored)
      && (!late ==> R.AllAmong(done, w.recorded, anchored))
  {
    hide Pairs, R.Exec, R.Delivered, AllLines, Tagged, J.Prior, ReadFrom, J.Entries, Never, R.Never, Repeated, Missed,
         R.Repeated, R.Missed, WithoutAnchors, R.AllAmong, R.Consumed, R.Before, R.Batch;
    EmptyIsEmpty(codec);
    LivesAreRuns(codec, EMPTY, run, flagExists);
    var lines := RunOf(codec, EMPTY, run, flagExists);
    R.BatchesDeriveWhatOnePassWould(lines, flagExists);
    R.FailedPassesLoseNothing(lines, flagExists);
    var w := Exec(codec, EMPTY, run, flagExists).value;
    AbsBatch(codec, w, flagExists);
    ClosedIsRead(codec, w.dir);
  }

  lemma EmptyIsEmpty(codec: EntryCodec)
    ensures WorldOk(EMPTY) && Abs(codec, EMPTY) == R.EMPTY
  {
  }

  // ----- a retry completed too late -----

  function Whole(codec: EntryCodec, day: nat, e: Entry): J.Item<Entry> {
    J.Item(day, e, |codec.marshal(e)| + 1)
  }

  function Unterminated(codec: EntryCodec, day: nat, e: Entry): J.Item<Entry> {
    J.Item(day, e, |codec.marshal(e)|)
  }

  /** A failure, then its retry that lost only its line feed; a pass that finds the
      failure alone and its window closed; and an append of the same day, which
      completes the retry.  Both passes succeed and record nothing, and one pass over
      the entries handed out derives the correction. */
  lemma RetryCompletedTooLate(codec: EntryCodec, day: nat, other: Entry, early: int, now: int)
    requires IsLineCodec(codec) && day > 0 && early > CORRECTION_WINDOW && other.exitCode == 0
    ensures var run := [Append(Whole(codec, day, Mistake())), Append(Unterminated(codec, day, Correctly())),
                        Pass(early, None), Append(Whole(codec, day, other)), Pass(now, None)];
      var end := Exec(codec, EMPTY, run, _ => false);
      && end.Some? && end.value.recorded == [] && !Never(codec, EMPTY, run, R.TooLate, _ => false)
      && HandedOut(codec, end.value) == [Mistake(), Correctly(), other]
      && Done(codec, end.value, _ => false) == [TheirCorrection("")]
  {
    hide Exec, J.DirOf, J.Wire, Mistake, Correctly, TheirCorrection, ReadFrom, J.Prior, Appended, IsLineCodec, Pairs,
         NextOffset, J.OffsetOk, Sorted;
    var flagExists: FlagTree := _ => false;
    var f, r, x := Whole(codec, day, Mistake()), Unterminated(codec, day, Correctly()), Whole(codec, day, other);
    TwoThenThree(codec, f, r, x);
    var two, three := J.DirOf(codec, [f, r]), J.DirOf(codec, [f, r, x]);
    var w2 := World(two, ZERO, []);
    var o1 := NextOffset(two, ZERO);
    FirstPassGivesUp(codec, two, early);
    var o2 := NextOffset(three, o1);
    LatePassFindsRetry(codec, two, day, J.Wire(codec, x), other, now);
    ExecFive(codec, f, r, x, early, now);
    ThreeDerive(other, now);
    var run := [Append(f), Append(r), Pass(early, None), Append(x), Pass(now, None)];
    PassesDeriveWhatOnePassWould(codec, run, flagExists);
  }

  /** What the appends leave on disk, and what a read from scratch returns of it. */
  lemma TwoThenThree(codec: EntryCodec, f: J.Item<Entry>, r: J.Item<Entry>, x: J.Item<Entry>)
    requires IsLineCodec(codec) && f.day == r.day == x.day > 0
    requires J.IsWhole(codec, f) && J.LacksOnlyLF(codec, r) && J.IsWhole(codec, x)
    ensures var one, two, three := J.DirOf(codec, [f]), J.DirOf(codec, [f, r]), J.DirOf(codec, [f, r, x]);
      && one == Appended([], f.day, J.Wire(codec, f)) && two == Appended(one, r.day, J.Wire(codec, r))
      && three == Appended(two, x.day, J.Wire(codec, x))
      && Sorted(two) && Sorted(three) && two != []
      && J.CanAppend(codec, [], f) && J.CanAppend(codec, one, r) && J.CanAppend(codec, two, x)
      && two[|two| - 1].day == x.day
      && J.Entries(ReadFrom(codec, two, ZERO)) == [f.entry]
      && J.Entries(ReadFrom(codec, three, ZERO)) == [f.entry, r.entry, x.entry]
  {
    hide J.Wire, Appended, ReadFrom, IsLineCodec, Sorted;
    assert [f][..0] == [] && [f, r][..1] == [f] && [f, r, x][..2] == [f, r];
    J.DirOfShape(codec, [f]);
    J.DirOfShape(codec, [f, r]);
    J.DirOfShape(codec, [f, r, x]);
    J.TornWriteRoundTrip(codec, [f, r]);
    J.TornWriteRoundTrip(codec, [f, r, x]);
    assert J.DeliveredAll(codec, [f], f.day) == [f.entry];
    assert J.DeliveredAll(codec, [f, r], 0) == [f.entry] && J.DeliveredAll(codec, [f, r], x.day) == [f.entry, r.entry];
  }

  lemma FirstPassGivesUp(codec: EntryCodec, dir: seq<Segment>, early: int)
    requires Sorted(dir) && early > CORRECTION_WINDOW && J.Entries(ReadFrom(codec, dir, ZERO)) == [Mistake()]
    ensures Next(codec, World(dir, ZERO, []), Pass(early, None), _ => false)
         == World(dir, NextOffset(dir, ZERO), [])
  {
    hide ReadFrom, J.Entries, NextOffset, Mistake, Pairs, Pending, SeedFor;
    R.MistakeIsAt();
    LoneEntry(Mistake(), SeedFor(SeenBefore(codec, dir, ZERO), [Mistake()]), early, _ => false);
  }

  /** After the first pass the next append of the day hands out the retry. */
  lemma LatePassFindsRetry(codec: EntryCodec, dir: seq<Segment>, day: nat, bytes: Bytes, other: Entry, now: int)
    requires Sorted(dir) && dir != [] && dir[|dir| - 1].day == day > 0 && other.exitCode == 0
    requires Sorted(Appended(dir, day, bytes))
    requires J.Entries(ReadFrom(codec, dir, ZERO)) == [Mistake()]
    requires J.Entries(ReadFrom(codec, Appended(dir, day, bytes), ZERO)) == [Mistake(), Correctly(), other]
    ensures var after, o := Appended(dir, day, bytes), NextOffset(dir, ZERO);
      && Next(codec, World(after, o, []), Pass(now, None), _ => false) == World(after, NextOffset(after, o), [])
      && HandedOut(codec, World(after, NextOffset(after, o), [])) == [Mistake(), Correctly(), other]
  {
    hide ReadFrom, NextOffset, Mistake, Correctly, PairsUpTo, Pending, SeedFor, Appended, Sorted, J.Prior, J.Entries;
    var after, o := Appended(dir, day, bytes), NextOffset(dir, ZERO);
    ZeroIsOk(dir);
    J.SecondReadIsEmpty(codec, dir, ZERO);
    AllIsPrior(codec, dir, ZERO);
    J.AppendKeepsPrior(codec, dir, o, day, bytes);
    J.AppendKeepsOffset(dir, o, day, bytes);
    J.PriorThenRest(codec, after, o);
    J.EntriesAppend(J.Prior(codec, after, o), ReadFrom(codec, after, o));
    var prior, rest := J.Entries(J.Prior(codec, after, o)), J.Entries(ReadFrom(codec, after, o));
    assert rest == (prior + rest)[1..] == [Correctly(), other];
    BothSucceed(other);
    SuccessesYieldNothing(rest, |rest|, SeedFor(SeenBefore(codec, after, o), rest), now, _ => false);
    AllIsPrior(codec, after, o);
  }

  lemma BothSucceed(other: Entry)
    requires other.exitCode == 0
    ensures forall e :: e in [Correctly(), other] ==> e.exitCode == 0
  {
  }

  lemma ZeroIsOk(dir: seq<Segment>)
    requires Sorted(dir)
    ensures J.OffsetOk(dir, ZERO)
  {
  }

  /** After a read everything lies before the offset. */
  lemma AllIsPrior(codec: EntryCodec, dir: seq<Segment>, o: Offset)
    requires Sorted(dir) && J.OffsetOk(dir, o)
    ensures J.Entries(J.Prior(codec, dir, NextOffset(dir, o))) == J.Entries(ReadFrom(codec, dir, ZERO))
  {
    hide ReadFrom, J.Prior, NextOffset, Sorted;
    J.SecondReadIsEmpty(codec, dir, o);
    J.PriorThenRest(codec, dir, NextOffset(dir, o));
    assert J.Prior(codec, dir, NextOffset(dir, o)) + [] == J.Prior(codec, dir, NextOffset(dir, o));
  }

  lemma ExecFive(codec: EntryCodec, f: J.Item<Entry>, r: J.Item<Entry>, x: J.Item<Entry>, early: int, now: int)
    ensures var flagExists: FlagTree := _ => false;
      var w1 := Next(codec, EMPTY, Append(f), flagExists);
      var w2 := Next(codec, w1, Append(r), flagExists);
      var w3 := Next(codec, w2, Pass(early, None), flagExists);
      var w4 := Next(codec, w3, Append(x), flagExists);
      Enabled(codec, EMPTY, Append(f)) && Enabled(codec, w1, Append(r)) && Enabled(codec, w3, Append(x)) ==>
        Exec(codec, EMPTY, [Append(f), Append(r), Pass(early, None), Append(x), Pass(now, None)], flagExists)
        == Some(Next(codec, w4, Pass(now, None), flagExists))
  {
    hide Next;
    var flagExists: FlagTree := _ => false;
    var w1 := Next(codec, EMPTY, Append(f), flagExists);
    var w2 := Next(codec, w1, Append(r), flagExists);
    var w3 := Next(codec, w2, Pass(early, None), flagExists);
    var w4 := Next(codec, w3, Append(x), flagExists);
    var w5 := Next(codec, w4, Pass(now, None), flagExists);
    var run := [Append(f), Append(r), Pass(early, None), Append(x), Pass(now, None)];
    assert run[1..] == [Append(r), Pass(early, None), Append(x), Pass(now, None)];
    assert run[1..][1..] == [Pass(early, None), Append(x), Pass(now, None)];
    assert run[1..][1..][1..] == [Append(x), Pass(now, None)];
    assert [Append(x), Pass(now, None)][1..] == [Pass(now, None)] && [Pass(now, None)][1..] == [];
    if Enabled(codec, EMPTY, Append(f)) && Enabled(codec, w1, Append(r)) && Enabled(codec, w3, Append(x)) {
      assert Exec(codec, w5, [], flagExists) == Some(w5);
      assert Exec(codec, w4, [Pass(now, None)], flagExists) == Some(w5);
      assert Exec(codec, w3, [Append(x), Pass(now, None)], flagExists) == Some(w5);
      assert Exec(codec, w2, run[1..][1..], flagExists) == Some(w5);
      assert Exec(codec, w1, run[1..], flagExists) == Some(w5);
    }
  }

  lemma ThreeDerive(other: Entry, now: int)
    requires other.exitCode == 0
    ensures Pairs([Mistake(), Correctly(), other], map[], _ => false) == [TheirCorrection("")]
  {
    hide PairsUpTo, Mistake, Correctly, TheirCorrection, NothingLate, Families, WithoutAnchors, Lookup, AnchorsAgree;
    var flagExists: FlagTree := _ => false;
    var pair := [Mistake(), Correctly()];
    PairIsDecided(now);
    SplitsExactly(pair, [other], map[], flagExists);
    LoneEntry(other, Families(pair, map[]), now, flagExists);
    TogetherTheyPair(map[]);
    R.NoLookup();
    assert pair + [other] == [Mistake(), Correctly(), other];
    assert [TheirCorrection("")] + [] == [TheirCorrection("")];
  }
}
