/** The append-only journal: dated segment files, torn-tail repair, whole-segment
    cleanup and reading from a (segment, byte) offset.

    A directory is the list of its segments, oldest first.  A segment is named by
    its day, counted in days since the epoch, so name order is day order; day 0
    stands for the empty name of the zero offset. */
module Journal {
  import opened Wrappers

  newtype Byte = b: int | 0 <= b < 256

  type Bytes = seq<Byte>

  const LF: Byte := 10
  const OPEN_BRACE: Byte := 123

  const NANOSECONDS_PER_DAY: int := 86400 * 1_000_000_000
  const MAX_SEGMENT_AGE_DAYS: int := 14
  const MAX_TOTAL_BYTES: int := 5 * 1024 * 1024

  datatype Segment = Segment(day: nat, data: Bytes)

  datatype Offset = Offset(segment: nat, byte: nat)

  const ZERO: Offset := Offset(0, 0)

  /** One entry as read back, with the place its line starts. */
  datatype Record<E> = Record(segment: nat, start: nat, entry: E)

  /** How entries become lines and back. */
  datatype Codec<!E> = Codec(marshal: E -> Bytes, parse: Bytes -> Option<E>)

  /** What the journal needs of the encoding: a line is one JSON object on one
      line, it parses back, and no cut-off line parses. */
  ghost predicate IsLineCodec<E(!new)>(codec: Codec<E>) {
    && (forall e :: codec.parse(codec.marshal(e)) == Some(e))
    && (forall e :: codec.marshal(e) != [] && codec.marshal(e)[0] == OPEN_BRACE && LF !in codec.marshal(e))
    && (forall e, cut :: 0 <= cut < |codec.marshal(e)| ==> codec.parse(codec.marshal(e)[..cut]) == None)
  }

  predicate Sorted(dir: seq<Segment>) {
    && (forall i :: 0 <= i < |dir| ==> dir[i].day > 0)
    && (forall i, j :: 0 <= i < j < |dir| ==> dir[i].day < dir[j].day)
  }

  // ----- reading -----

  /** Index of the first line feed at or after `from`, or |data|. */
  function FirstLF(data: Bytes, from: nat): (r: nat)
    requires from <= |data|
    ensures from <= r <= |data|
    ensures r < |data| ==> data[r] == LF
    ensures forall k :: from <= k < r ==> data[k] != LF
    decreases |data| - from
  {
    if from == |data| || data[from] == LF then from else FirstLF(data, from + 1)
  }

  /** Lines that are not JSON objects, or do not parse, are skipped. */
  function EntryOf<E>(codec: Codec<E>, line: Bytes): Option<E> {
    if line == [] || line[0] != OPEN_BRACE then None else codec.parse(line)
  }

  function RecordOf<E>(codec: Codec<E>, day: nat, start: nat, line: Bytes): seq<Record<E>> {
    match EntryOf(codec, line)
    case Some(e) => [Record(day, start, e)]
    case None => []
  }

  /** The records of the complete lines from byte `from` on. */
  function ReadLines<E>(codec: Codec<E>, day: nat, data: Bytes, from: nat): seq<Record<E>>
    requires from <= |data|
    decreases |data| - from
  {
    var lf := FirstLF(data, from);
    if lf == |data| then []
    else RecordOf(codec, day, from, data[from..lf]) + ReadLines(codec, day, data, lf + 1)
  }

  /** The byte after the last line feed at or after `from`; `from` when there is none. */
  function Consumed(data: Bytes, from: nat): (r: nat)
    requires from <= |data|
    ensures from <= r <= |data|
    decreases |data| - from
  {
    var lf := FirstLF(data, from);
    if lf == |data| then from else Consumed(data, lf + 1)
  }

  /** One unfolding of the two readers of a segment. */
  lemma {:induction false} ReadOn<E>(codec: Codec<E>, day: nat, data: Bytes, from: nat)
    requires from <= |data|
    ensures var lf := FirstLF(data, from);
      if lf == |data| then ReadLines(codec, day, data, from) == [] && Consumed(data, from) == from
      else
        && ReadLines(codec, day, data, from)
           == RecordOf(codec, day, from, data[from..lf]) + ReadLines(codec, day, data, lf + 1)
        && Consumed(data, from) == Consumed(data, lf + 1)
  {
  }

  /** Where reading starts inside a segment that is not older than the offset. */
  function StartIn(s: Segment, offset: Offset): (r: nat)
    ensures r <= |s.data|
  {
    if s.day != offset.segment then 0 else if offset.byte > |s.data| then |s.data| else offset.byte
  }

  function ReadSegment<E>(codec: Codec<E>, s: Segment, offset: Offset): seq<Record<E>> {
    if s.day < offset.segment then [] else ReadLines(codec, s.day, s.data, StartIn(s, offset))
  }

  /** Everything a read from `offset` returns. */
  function ReadFrom<E>(codec: Codec<E>, dir: seq<Segment>, offset: Offset): seq<Record<E>> {
    if dir == [] then []
    else ReadFrom(codec, dir[..|dir| - 1], offset) + ReadSegment(codec, dir[|dir| - 1], offset)
  }

  /** The offset a read returns for its caller to persist. */
  function NextOffset(dir: seq<Segment>, offset: Offset): Offset {
    if dir == [] then offset
    else
      var s := dir[|dir| - 1];
      if s.day < offset.segment then NextOffset(dir[..|dir| - 1], offset)
      else Offset(s.day, Consumed(s.data, StartIn(s, offset)))
  }

  // ----- writing -----

  /** A torn tail is closed with a line feed before anything follows it. */
  function Repaired(data: Bytes): Bytes {
    if data == [] || data[|data| - 1] == LF then data else data + [LF]
  }

  function RepairedAt(dir: seq<Segment>, day: nat): seq<Segment> {
    if dir == [] then []
    else if dir[0].day == day then [Segment(day, Repaired(dir[0].data))] + dir[1..]
    else [dir[0]] + RepairedAt(dir[1..], day)
  }

  /** Append to the day's segment, creating it when it is missing. */
  function WrittenAt(dir: seq<Segment>, day: nat, bytes: Bytes): seq<Segment> {
    if dir == [] || day < dir[0].day then [Segment(day, bytes)] + dir
    else if dir[0].day == day then [Segment(day, dir[0].data + bytes)] + dir[1..]
    else [dir[0]] + WrittenAt(dir[1..], day, bytes)
  }

  function Appended(dir: seq<Segment>, day: nat, bytes: Bytes): seq<Segment> {
    WrittenAt(RepairedAt(dir, day), day, bytes)
  }

  // ----- cleanup -----

  function TotalBytes(dir: seq<Segment>): nat {
    if dir == [] then 0 else |dir[0].data| + TotalBytes(dir[1..])
  }

  /** `now` is in nanoseconds since the epoch. */
  predicate TooOld(s: Segment, now: int) {
    s.day * NANOSECONDS_PER_DAY < now - MAX_SEGMENT_AGE_DAYS * NANOSECONDS_PER_DAY
  }

  predicate MustGo(dir: seq<Segment>, now: int)
    requires dir != []
  {
    TooOld(dir[0], now) || TotalBytes(dir) > MAX_TOTAL_BYTES
  }

  /** `stuck` are the segments whose removal fails. */
  function Cleaned(dir: seq<Segment>, now: int, stuck: set<nat>): seq<Segment> {
    if |dir| <= 1 || !MustGo(dir, now) || dir[0].day in stuck then dir
    else Cleaned(dir[1..], now, stuck)
  }

  // ----- the directory as it is changed in place -----

  class JournalDir<E(!new)> {
    const codec: Codec<E>
    var segments: seq<Segment>
    var stored: Offset

    ghost predicate Valid()
      reads this
    {
      Sorted(segments)
    }

    constructor (codec: Codec<E>)
      ensures Valid() && this.codec == codec && segments == [] && stored == ZERO
    {
      this.codec, segments, stored := codec, [], ZERO;
    }

    /** Find the day's segment, if it exists. */
    method Find(day: nat) returns (at: nat)
      ensures at <= |segments|
      ensures at < |segments| ==> segments[at].day == day
      ensures forall k :: 0 <= k < at ==> segments[k].day != day
    {
      at := 0;
      while at < |segments| && segments[at].day != day
        invariant at <= |segments| && forall k :: 0 <= k < at ==> segments[k].day != day
      {
        at := at + 1;
      }
    }

    method RepairTail(day: nat)
      requires Valid()
      modifies `segments
      ensures Valid() && segments == RepairedAt(old(segments), day)
    {
      var at := Find(day);
      RepairedAtIndex(segments, day, at);
      if at == |segments| {
        return;
      }
      var data := segments[at].data;
      if |data| == 0 || data[|data| - 1] == LF {
        assert segments[at := Segment(day, data)] == segments;
        return;
      }
      segments := segments[at := Segment(day, data + [LF])];
    }

    method Write(day: nat, bytes: Bytes)
      requires Valid() && day > 0
      modifies `segments
      ensures Valid() && segments == WrittenAt(old(segments), day, bytes)
    {
      hide WrittenAt, Sorted;
      var at := 0;
      while at < |segments| && segments[at].day < day
        invariant at <= |segments| && forall k :: 0 <= k < at ==> segments[k].day < day
      {
        at := at + 1;
      }
      WrittenAtIndex(segments, day, bytes, at);
      PutKeepsOrder(segments, day, bytes, at);
      if at < |segments| && segments[at].day == day {
        segments := segments[at := Segment(day, segments[at].data + bytes)];
      } else {
        segments := segments[..at] + [Segment(day, bytes)] + segments[at..];
      }
    }

    /** Whole oldest segments go; the newest never does. */
    method Cleanup(now: int, stuck: set<nat>) returns (ok: bool)
      requires Valid()
      modifies `segments
      ensures Valid() && segments == Cleaned(old(segments), now, stuck)
      ensures ok <==> |segments| <= 1 || !MustGo(segments, now)
    {
      if |segments| <= 1 {
        return true;
      }
      var total := 0;
      for i := 0 to |segments|
        invariant total + TotalBytes(segments[i..]) == TotalBytes(segments)
      {
        total := total + |segments[i].data|;
      }
      var all := segments;
      var i := 0;
      while i < |all| - 1
        invariant 0 <= i <= |all| - 1 && segments == all[i..]
        invariant total == TotalBytes(all[i..])
        invariant Cleaned(all, now, stuck) == Cleaned(all[i..], now, stuck)
      {
        var tooOld := all[i].day * NANOSECONDS_PER_DAY < now - MAX_SEGMENT_AGE_DAYS * NANOSECONDS_PER_DAY;
        var tooBig := total > MAX_TOTAL_BYTES;
        if !tooOld && !tooBig {
          break;
        }
        if all[i].day in stuck {
          return false;
        }
        segments := segments[1..];
        total := total - |all[i].data|;
        i := i + 1;
      }
      return true;
    }

    /** Append one entry to the day's segment, then tidy up. */
    method AppendEntry(entry: E, day: nat, now: int, stuck: set<nat>)
      requires Valid() && day > 0
      modifies `segments
      ensures Valid()
      ensures segments == Cleaned(Appended(old(segments), day, codec.marshal(entry) + [LF]), now, stuck)
    {
      var line := codec.marshal(entry);
      RepairTail(day);
      Write(day, line + [LF]);
      var _ := Cleanup(now, stuck);
    }

    /** The complete lines of one segment from byte `from` on. */
    method ScanSegment(day: nat, data: Bytes, from: nat) returns (out: seq<Record<E>>, consumed: nat)
      requires from <= |data|
      ensures out == ReadLines(codec, day, data, from)
      ensures consumed == Consumed(data, from)
    {
      hide ReadLines, Consumed;
      out, consumed := [], from;
      while true
        invariant from <= consumed <= |data|
        invariant ReadLines(codec, day, data, from) == out + ReadLines(codec, day, data, consumed)
        invariant Consumed(data, from) == Consumed(data, consumed)
        decreases |data| - consumed
      {
        ReadOn(codec, day, data, consumed);
        var lf := FirstLF(data, consumed);
        if lf == |data| {
          break;
        }
        var line, at := data[consumed..lf], consumed;
        consumed := lf + 1;
        if |line| == 0 || line[0] != OPEN_BRACE {
          continue;
        }
        var parsed := codec.parse(line);
        if parsed.Some? {
          out := out + [Record(day, at, parsed.value)];
        }
      }
    }

    /** Every complete entry at or after the offset, and the offset to go on from. */
    method ReadJournalFrom(offset: Offset) returns (out: seq<Record<E>>, next: Offset)
      requires Valid()
      ensures out == ReadFrom(codec, segments, offset)
      ensures next == NextOffset(segments, offset)
    {
      out, next := [], offset;
      for i := 0 to |segments|
        invariant out == ReadFrom(codec, segments[..i], offset)
        invariant next == NextOffset(segments[..i], offset)
      {
        assert segments[..i + 1][..i] == segments[..i];
        var s := segments[i];
        if s.day < offset.segment {
          continue;
        }
        var consumed := 0;
        if s.day == offset.segment {
          consumed := offset.byte;
          if consumed > |s.data| {
            consumed := |s.data|;
          }
        }
        var records;
        records, consumed := ScanSegment(s.day, s.data, consumed);
        out := out + records;
        next := Offset(s.day, consumed);
      }
      assert segments[..|segments|] == segments;
    }

    method StoreOffset(offset: Offset)
      modifies `stored
      ensures stored == offset
    {
      stored := offset;
    }
  }

  // ----- index forms of the recursive functions -----

  lemma UpdateInTail(dir: seq<Segment>, at: nat, s: Segment)
    requires 0 < at < |dir|
    ensures dir[at := s] == [dir[0]] + dir[1..][at - 1 := s]
  {
  }

  lemma {:induction false} RepairedAtIndex(dir: seq<Segment>, day: nat, at: nat)
    requires at <= |dir| && (at < |dir| ==> dir[at].day == day)
    requires forall k :: 0 <= k < at ==> dir[k].day != day
    ensures RepairedAt(dir, day) == if at == |dir| then dir else dir[at := Segment(day, Repaired(dir[at].data))]
  {
    hide Repaired;
    if at > 0 {
      RepairedAtIndex(dir[1..], day, at - 1);
      if at < |dir| {
        UpdateInTail(dir, at, Segment(day, Repaired(dir[at].data)));
      }
    }
  }

  /** The bytes put in segment `at`, or in a new segment there. */
  function PutAt(dir: seq<Segment>, day: nat, bytes: Bytes, at: nat): seq<Segment>
    requires at <= |dir|
  {
    if at < |dir| && dir[at].day == day then dir[at := Segment(day, dir[at].data + bytes)]
    else dir[..at] + [Segment(day, bytes)] + dir[at..]
  }

  lemma PutInTail(dir: seq<Segment>, day: nat, bytes: Bytes, at: nat)
    requires 0 < at <= |dir|
    ensures PutAt(dir, day, bytes, at) == [dir[0]] + PutAt(dir[1..], day, bytes, at - 1)
  {
    if at < |dir| && dir[at].day == day {
      UpdateInTail(dir, at, Segment(day, dir[at].data + bytes));
    } else {
      assert dir[..at] == [dir[0]] + dir[1..][..at - 1];
    }
  }

  lemma PutKeepsOrder(dir: seq<Segment>, day: nat, bytes: Bytes, at: nat)
    requires Sorted(dir) && at <= |dir| && day > 0
    requires forall k :: 0 <= k < at ==> dir[k].day < day
    requires at < |dir| ==> dir[at].day >= day
    ensures Sorted(PutAt(dir, day, bytes, at))
  {
    var put := PutAt(dir, day, bytes, at);
    if at < |dir| && dir[at].day == day {
      assert forall i :: 0 <= i < |put| ==> put[i].day == dir[i].day;
    } else {
      assert forall i :: at < i < |put| ==> put[i] == dir[i - 1];
    }
  }

  lemma {:induction false} WrittenAtIndex(dir: seq<Segment>, day: nat, bytes: Bytes, at: nat)
    requires Sorted(dir) && at <= |dir| && (at < |dir| ==> dir[at].day >= day)
    requires forall k :: 0 <= k < at ==> dir[k].day < day
    ensures WrittenAt(dir, day, bytes) == PutAt(dir, day, bytes, at)
  {
    if at > 0 {
      hide PutAt;
      WrittenAtIndex(dir[1..], day, bytes, at - 1);
      PutInTail(dir, day, bytes, at);
    }
  }
}
