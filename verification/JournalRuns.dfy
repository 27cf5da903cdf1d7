/** Whole lives of the journal: appends that may be cut off by a crash, day
    rollover, cleanup, and a reader that resumes from its stored offset. */
module JournalRuns {
  import opened Wrappers
  import opened Journal

  // ----- lines -----

  predicate Boundary(data: Bytes, b: nat) {
    b <= |data| && (b == 0 || data[b - 1] == LF)
  }

  lemma FirstLFIs(data: Bytes, from: nat, at: nat)
    requires from <= at <= |data|
    requires at < |data| ==> data[at] == LF
    requires forall k :: from <= k < at ==> data[k] != LF
    ensures FirstLF(data, from) == at
  {
  }

  lemma ReadOneLine<E>(codec: Codec<E>, day: nat, data: Bytes, from: nat, at: nat)
    requires from <= at < |data| && data[at] == LF
    requires forall k :: from <= k < at ==> data[k] != LF
    ensures ReadLines(codec, day, data, from)
         == RecordOf(codec, day, from, data[from..at]) + ReadLines(codec, day, data, at + 1)
    ensures Consumed(data, from) == Consumed(data, at + 1)
  {
    FirstLFIs(data, from, at);
  }

  lemma ReadNoLine<E>(codec: Codec<E>, day: nat, data: Bytes, from: nat)
    requires from <= |data| && LF !in data[from..]
    ensures ReadLines(codec, day, data, from) == [] && Consumed(data, from) == from
  {
    forall k | from <= k < |data| ensures data[k] != LF {
      assert data[k] == data[from..][k - from];
    }
    FirstLFIs(data, from, |data|);
  }

  /** Reading splits at any line boundary, and what comes after the boundary
      does not matter for what is before it. */
  lemma {:induction false} ReadLinesSplit<E>(codec: Codec<E>, day: nat, data: Bytes, from: nat, b: nat)
    requires from <= b && Boundary(data, b)
    ensures ReadLines(codec, day, data, from)
         == ReadLines(codec, day, data[..b], from) + ReadLines(codec, day, data, b)
    ensures Consumed(data, from) == Consumed(data, b) && Consumed(data[..b], from) == b
    decreases b - from
  {
    hide ReadLines, Consumed;
    if from == b {
      ReadNoLine(codec, day, data[..b], b);
    } else {
      var lf := FirstLF(data, from);
      hide FirstLF;
      assert lf <= b - 1;
      ReadOneLine(codec, day, data, from, lf);
      ReadOneLine(codec, day, data[..b], from, lf);
      assert data[..b][from..lf] == data[from..lf];
      ReadLinesSplit(codec, day, data, lf + 1, b);
    }
  }

  lemma {:induction false} ConsumedIsBoundary<E>(codec: Codec<E>, day: nat, data: Bytes, from: nat)
    requires Boundary(data, from)
    ensures Boundary(data, Consumed(data, from))
    ensures ReadLines(codec, day, data, Consumed(data, from)) == []
    ensures Consumed(data, Consumed(data, from)) == Consumed(data, from)
    ensures LF !in data[Consumed(data, from)..]
    decreases |data| - from
  {
    hide ReadLines, Consumed;
    ReadOn(codec, day, data, from);
    var lf := FirstLF(data, from);
    if lf < |data| {
      ConsumedIsBoundary(codec, day, data, lf + 1);
    }
  }

  // ----- positions -----

  predicate Before<E>(r: Record<E>, o: Offset) {
    r.segment < o.segment || (r.segment == o.segment && r.start < o.byte)
  }

  predicate NotBefore<E>(r: Record<E>, o: Offset) {
    r.segment > o.segment || (r.segment == o.segment && r.start >= o.byte)
  }

  /** Strictly increasing positions; in particular no record twice. */
  ghost predicate Ordered<E(!new)>(out: seq<Record<E>>) {
    forall i, j :: 0 <= i < j < |out| ==> Before(out[i], Offset(out[j].segment, out[j].start))
  }

  lemma {:induction false} ReadLinesOrdered<E(!new)>(codec: Codec<E>, day: nat, data: Bytes, from: nat)
    requires from <= |data|
    ensures forall r :: r in ReadLines(codec, day, data, from) ==>
      r.segment == day && from <= r.start < Consumed(data, from)
    ensures Ordered(ReadLines(codec, day, data, from))
    decreases |data| - from
  {
    hide ReadLines, Consumed;
    ReadOn(codec, day, data, from);
    var lf := FirstLF(data, from);
    if lf < |data| {
      ReadLinesOrdered(codec, day, data, lf + 1);
      var head, rest := RecordOf(codec, day, from, data[from..lf]), ReadLines(codec, day, data, lf + 1);
      assert forall k :: 0 <= k < |rest| ==> rest[k] in rest;
    }
  }

  /** An offset a reader may hold: zero, or a line boundary of a segment not
      newer than the newest. */
  ghost predicate OffsetOk(dir: seq<Segment>, o: Offset) {
    && (o == ZERO || (dir != [] && o.segment <= dir[|dir| - 1].day))
    && forall i :: 0 <= i < |dir| && dir[i].day == o.segment ==> Boundary(dir[i].data, o.byte)
  }

  lemma {:induction false} ReadFromOrdered<E(!new)>(codec: Codec<E>, dir: seq<Segment>, o: Offset)
    requires Sorted(dir) && OffsetOk(dir, o)
    ensures forall r :: r in ReadFrom(codec, dir, o) ==> NotBefore(r, o) && Before(r, NextOffset(dir, o))
    ensures Ordered(ReadFrom(codec, dir, o))
  {
    ReadFromSpan(codec, dir, o);
  }

  /** The same for any sorted list of segments, as needed by the induction. */
  lemma {:induction false} ReadFromSpan<E(!new)>(codec: Codec<E>, dir: seq<Segment>, o: Offset)
    requires Sorted(dir)
    requires forall i :: 0 <= i < |dir| && dir[i].day == o.segment ==> Boundary(dir[i].data, o.byte)
    ensures forall r :: r in ReadFrom(codec, dir, o) ==>
      NotBefore(r, o) && Before(r, NextOffset(dir, o)) && dir != [] && r.segment <= dir[|dir| - 1].day
    ensures Ordered(ReadFrom(codec, dir, o))
  {
    if dir != [] {
      var init, s := dir[..|dir| - 1], dir[|dir| - 1];
      ReadFromSpan(codec, init, o);
      ReadLinesOrdered(codec, s.day, s.data, StartIn(s, o));
      var a, b := ReadFrom(codec, init, o), ReadSegment(codec, s, o);
      if s.day >= o.segment {
        assert forall r :: r in a ==> r.segment < s.day;
        OrderedConcat(a, b);
      } else {
        assert b == [];
        assert a + b == a;
      }
    }
  }

  lemma OrderedConcat<E(!new)>(a: seq<Record<E>>, b: seq<Record<E>>)
    requires Ordered(a) && Ordered(b)
    requires forall x, y :: x in a && y in b ==> Before(x, Offset(y.segment, y.start))
    ensures Ordered(a + b)
  {
    var c := a + b;
    forall i, j | 0 <= i < j < |c| ensures Before(c[i], Offset(c[j].segment, c[j].start)) {
      if i < |a| && j >= |a| {
        assert a[i] in a && b[j - |a|] in b;
      }
    }
  }

  // ----- what lies before an offset -----

  function PriorInSegment<E>(codec: Codec<E>, s: Segment, o: Offset): seq<Record<E>> {
    if s.day < o.segment then ReadLines(codec, s.day, s.data, 0)
    else if s.day == o.segment then ReadLines(codec, s.day, s.data[..StartIn(s, o)], 0)
    else []
  }

  /** The complete entries that lie before the offset in what survives. */
  function Prior<E>(codec: Codec<E>, dir: seq<Segment>, o: Offset): seq<Record<E>> {
    if dir == [] then []
    else Prior(codec, dir[..|dir| - 1], o) + PriorInSegment(codec, dir[|dir| - 1], o)
  }

  lemma {:induction false} OlderSegmentsReadNothing<E>(codec: Codec<E>, dir: seq<Segment>, o: Offset)
    requires forall i :: 0 <= i < |dir| ==> dir[i].day < o.segment
    ensures ReadFrom(codec, dir, o) == [] && NextOffset(dir, o) == o
  {
    if dir != [] {
      OlderSegmentsReadNothing(codec, dir[..|dir| - 1], o);
    }
  }

  lemma SegmentPriorThenRest<E>(codec: Codec<E>, s: Segment, o: Offset)
    requires s.day > 0 && (s.day == o.segment ==> Boundary(s.data, o.byte))
    ensures ReadSegment(codec, s, ZERO) == PriorInSegment(codec, s, o) + ReadSegment(codec, s, o)
    ensures s.day > o.segment ==> PriorInSegment(codec, s, o) == []
    ensures s.day < o.segment ==> ReadSegment(codec, s, o) == []
  {
    hide ReadLines;
    if s.day == o.segment {
      ReadLinesSplit(codec, s.day, s.data, 0, o.byte);
    }
  }

  /** A read from scratch is what lies before the offset, then a read from it. */
  lemma {:induction false} PriorThenRest<E>(codec: Codec<E>, dir: seq<Segment>, o: Offset)
    requires Sorted(dir)
    requires forall i :: 0 <= i < |dir| && dir[i].day == o.segment ==> Boundary(dir[i].data, o.byte)
    ensures ReadFrom(codec, dir, ZERO) == Prior(codec, dir, o) + ReadFrom(codec, dir, o)
  {
    hide ReadSegment, PriorInSegment;
    if dir != [] {
      var init, s := dir[..|dir| - 1], dir[|dir| - 1];
      PriorThenRest(codec, init, o);
      SegmentPriorThenRest(codec, s, o);
      if s.day <= o.segment {
        OlderSegmentsReadNothing(codec, init, o);
      }
    }
  }

  /** Reading again at once returns nothing. */
  lemma {:induction false} SecondReadIsEmpty<E>(codec: Codec<E>, dir: seq<Segment>, o: Offset)
    requires Sorted(dir) && OffsetOk(dir, o)
    ensures ReadFrom(codec, dir, NextOffset(dir, o)) == []
    ensures OffsetOk(dir, NextOffset(dir, o))
  {
    if dir != [] {
      var init, s := dir[..|dir| - 1], dir[|dir| - 1];
      ConsumedIsBoundary(codec, s.day, s.data, StartIn(s, o));
      OlderSegmentsReadNothing(codec, init, NextOffset(dir, o));
    }
  }

  lemma {:induction false} PriorAppend<E>(codec: Codec<E>, older: seq<Segment>, newer: seq<Segment>, o: Offset)
    ensures Prior(codec, older + newer, o) == Prior(codec, older, o) + Prior(codec, newer, o)
  {
    hide PriorInSegment;
    if newer == [] {
      assert older + newer == older;
    } else {
      var init := newer[..|newer| - 1];
      assert (older + newer)[..|older + newer| - 1] == older + init;
      PriorAppend(codec, older, init, o);
    }
  }

  // ----- cleanup -----

  /** The bytes of all segments, one after the other. */
  function AllBytes(dir: seq<Segment>): Bytes {
    if dir == [] then [] else AllBytes(dir[..|dir| - 1]) + dir[|dir| - 1].data
  }

  lemma {:induction false} AllBytesFirst(s: Segment, dir: seq<Segment>)
    ensures AllBytes([s] + dir) == s.data + AllBytes(dir)
    decreases |dir|
  {
    var all := [s] + dir;
    if dir == [] {
      assert all == [s] && all[..0] == [];
    } else {
      var init := dir[..|dir| - 1];
      assert all[..|all| - 1] == [s] + init;
      AllBytesFirst(s, init);
    }
  }

  lemma {:induction false} TotalIsAllBytes(dir: seq<Segment>)
    ensures TotalBytes(dir) == |AllBytes(dir)|
  {
    if dir != [] {
      TotalIsAllBytes(dir[1..]);
      AllBytesFirst(dir[0], dir[1..]);
      assert [dir[0]] + dir[1..] == dir;
    }
  }

  /** The oldest segment began more than two weeks ago, or there are more than five
      mebibytes in all. */
  predicate BreaksACap(dir: seq<Segment>, now: int)
    requires dir != []
  {
    now - dir[0].day * 86_400_000_000_000 > 1_209_600_000_000_000 || |AllBytes(dir)| > 5_242_880
  }

  lemma MustGoExactly(dir: seq<Segment>, now: int)
    requires dir != []
    ensures MustGo(dir, now) <==> BreaksACap(dir, now)
  {
    hide TotalBytes, AllBytes;
    TotalIsAllBytes(dir);
  }

  /** Cleanup removes oldest segments as long as they break a cap and can be
      removed, and never the newest. */
  lemma {:induction false} CleanupDropsOldest(dir: seq<Segment>, now: int, stuck: set<nat>) returns (k: nat)
    ensures k <= |dir| && Cleaned(dir, now, stuck) == dir[k..]
    ensures dir != [] ==> k < |dir|
    ensures forall j :: 0 <= j < k ==> BreaksACap(dir[j..], now) && dir[j].day !in stuck
    ensures k + 1 < |dir| ==> !BreaksACap(dir[k..], now) || dir[k].day in stuck
    decreases |dir|
  {
    hide MustGo, BreaksACap;
    assert dir[0..] == dir;
    if dir != [] {
      MustGoExactly(dir, now);
    }
    if |dir| <= 1 || !MustGo(dir, now) || dir[0].day in stuck {
      k := 0;
    } else {
      k := CleanupDropsOldest(dir[1..], now, stuck);
      assert forall j :: 0 < j <= k + 1 ==> dir[1..][j - 1..] == dir[j..];
      k := k + 1;
    }
  }

  /** When every removal succeeds, one segment is left or both caps are met. */
  lemma CleanupMeetsCaps(dir: seq<Segment>, now: int)
    requires Sorted(dir)
    ensures var kept := Cleaned(dir, now, {});
      |kept| <= 1
      || (|AllBytes(kept)| <= 5_242_880
          && forall i :: 0 <= i < |kept| ==> now - kept[i].day * 86_400_000_000_000 <= 1_209_600_000_000_000)
  {
    hide Cleaned, AllBytes;
    var k := CleanupDropsOldest(dir, now, {});
    assert forall i :: k <= i < |dir| ==> dir[k].day <= dir[i].day;
  }

  // ----- runs -----

  /** An append of which the first `cut` bytes of line and line feed arrived. */
  datatype Item<E> = Item(day: nat, entry: E, cut: nat)

  datatype World<E> = World(
    dir: seq<Segment>,
    offset: Offset,
    outputs: seq<Record<E>>,  // everything the reader was handed, in order
    gone: nat,                // how many of those lie in segments deleted since
    log: seq<Item<E>>,        // every append so far
    forgotten: nat)           // how many of those lie in deleted segments

  datatype Step<E> =
    | Append(item: Item<E>)
    | Cleanup(now: int, stuck: set<nat>)
    | Read

  function Wire<E>(codec: Codec<E>, item: Item<E>): Bytes
  {
    var full := codec.marshal(item.entry) + [LF];
    if item.cut <= |full| then full[..item.cut] else full
  }

  predicate CanAppend<E>(codec: Codec<E>, dir: seq<Segment>, item: Item<E>) {
    && item.day > 0 && item.cut <= |codec.marshal(item.entry)| + 1
    && (dir != [] ==> dir[|dir| - 1].day <= item.day)
  }

  predicate Enabled<E>(codec: Codec<E>, w: World<E>, step: Step<E>) {
    step.Append? ==> CanAppend(codec, w.dir, step.item)
  }

  /** How many of the logged appends went to days before `day`. */
  function OlderThan<E>(log: seq<Item<E>>, day: nat): (n: nat)
    ensures n <= |log|
  {
    if log == [] || log[0].day >= day then 0 else 1 + OlderThan(log[1..], day)
  }

  function Next<E>(codec: Codec<E>, w: World<E>, step: Step<E>): World<E>
    requires Enabled(codec, w, step)
  {
    match step
    case Append(item) =>
      w.(dir := Appended(w.dir, item.day, Wire(codec, item)), log := w.log + [item])
    case Cleanup(now, stuck) =>
      var kept := Cleaned(w.dir, now, stuck);
      var dropped := w.dir[..if |kept| <= |w.dir| then |w.dir| - |kept| else 0];
      w.(dir := kept,
         gone := w.gone + |Prior(codec, dropped, w.offset)|,
         forgotten := if kept == [] || w.forgotten > |w.log| then w.forgotten
                      else w.forgotten + OlderThan(w.log[w.forgotten..], kept[0].day))
    case Read =>
      w.(outputs := w.outputs + ReadFrom(codec, w.dir, w.offset), offset := NextOffset(w.dir, w.offset))
  }

  function Exec<E>(codec: Codec<E>, w: World<E>, run: seq<Step<E>>): Option<World<E>>
    decreases |run|
  {
    if run == [] then Some(w)
    else if !Enabled(codec, w, run[0]) then None
    else Exec(codec, Next(codec, w, run[0]), run[1..])
  }

  function Empty<E>(): World<E> {
    World([], ZERO, [], 0, [], 0)
  }

  function Oldest(dir: seq<Segment>): nat {
    if dir == [] then 0 else dir[0].day
  }

  /** Positions strictly increase and stay before the offset; after the first
      `gone` records, which lie in segments older than `oldest`, come exactly
      the records `prior`. */
  ghost predicate HandedOut<E(!new)>(out: seq<Record<E>>, gone: nat, prior: seq<Record<E>>, oldest: nat, o: Offset) {
    && Ordered(out)
    && (forall r :: r in out ==> Before(r, o))
    && gone <= |out|
    && (oldest == 0 ==> gone == 0)
    && out[gone..] == prior
    && (forall r :: r in out[..gone] ==> r.segment < oldest)
  }

  /** Everything handed out so far is: entries of segments since deleted, then
      exactly what survives before the offset. */
  ghost predicate ReaderOk<E(!new)>(codec: Codec<E>, w: World<E>) {
    && Sorted(w.dir)
    && OffsetOk(w.dir, w.offset)
    && HandedOut(w.outputs, w.gone, Prior(codec, w.dir, w.offset), Oldest(w.dir), w.offset)
  }

  // ----- the shape of an append -----

  /** An append touches the newest segment only, or opens a newer one. */
  lemma {:induction false} AppendedShape(dir: seq<Segment>, day: nat, bytes: Bytes)
    requires Sorted(dir) && day > 0 && (dir != [] ==> dir[|dir| - 1].day <= day)
    ensures Appended(dir, day, bytes)
         == if dir != [] && dir[|dir| - 1].day == day
            then dir[..|dir| - 1] + [Segment(day, Repaired(dir[|dir| - 1].data) + bytes)]
            else dir + [Segment(day, bytes)]
    ensures Sorted(Appended(dir, day, bytes))
  {
    hide RepairedAt, WrittenAt, Repaired;
    var n := |dir|;
    var at := if n > 0 && dir[n - 1].day == day then n - 1 else n;
    RepairedAtIndex(dir, day, at);
    WrittenAtIndex(RepairedAt(dir, day), day, bytes, at);
  }

  lemma AppendKeepsOffset(dir: seq<Segment>, o: Offset, day: nat, bytes: Bytes)
    requires Sorted(dir) && OffsetOk(dir, o) && day > 0 && (dir != [] ==> dir[|dir| - 1].day <= day)
    ensures OffsetOk(Appended(dir, day, bytes), o)
  {
    hide Appended, Repaired;
    AppendedShape(dir, day, bytes);
    if dir != [] {
      RepairedExtends(dir[|dir| - 1].data);
    }
  }

  lemma RepairedExtends(data: Bytes)
    ensures data <= Repaired(data)
  {
  }

  /** An append adds nothing before the offset. */
  lemma AppendKeepsPrior<E>(codec: Codec<E>, dir: seq<Segment>, o: Offset, day: nat, bytes: Bytes)
    requires Sorted(dir) && OffsetOk(dir, o) && day > 0 && (dir != [] ==> dir[|dir| - 1].day <= day)
    ensures Prior(codec, Appended(dir, day, bytes), o) == Prior(codec, dir, o)
  {
    hide ReadLines, Appended, Repaired;
    var dir', n := Appended(dir, day, bytes), |dir|;
    AppendedShape(dir, day, bytes);
    if n > 0 && dir[n - 1].day == day {
      assert dir'[..n - 1] == dir[..n - 1];
      var s, s' := dir[n - 1], dir'[n - 1];
      RepairedExtends(s.data);
      if s.day == o.segment {
        assert s'.data[..o.byte] == s.data[..o.byte];
      }
    } else {
      assert dir'[..n] == dir;
    }
  }

  lemma AppendKeepsReader<E(!new)>(codec: Codec<E>, w: World<E>, item: Item<E>)
    requires ReaderOk(codec, w) && CanAppend(codec, w.dir, item)
    ensures ReaderOk(codec, Next(codec, w, Append(item)))
  {
    hide Appended, Prior, OffsetOk, Ordered, Wire, Repaired;
    var bytes := Wire(codec, item);
    AppendedShape(w.dir, item.day, bytes);
    AppendKeepsOffset(w.dir, w.offset, item.day, bytes);
    AppendKeepsPrior(codec, w.dir, w.offset, item.day, bytes);
  }

  lemma DropFromOutputs<E(!new)>(out: seq<Record<E>>, gone: nat, lost: seq<Record<E>>, kept: seq<Record<E>>,
                                 oldest: nat, newOldest: nat, o: Offset)
    requires HandedOut(out, gone, lost + kept, oldest, o)
    requires newOldest == 0 ==> oldest == 0 && lost == []
    requires oldest <= newOldest && forall r :: r in lost ==> r.segment < newOldest
    ensures HandedOut(out, gone + |lost|, kept, newOldest, o)
  {
    assert out[gone + |lost|..] == out[gone..][|lost|..] == kept;
    assert out[..gone + |lost|] == out[..gone] + out[gone..][..|lost|] == out[..gone] + lost;
  }

  lemma SuffixKeepsOffset(dir: seq<Segment>, k: nat, o: Offset)
    requires Sorted(dir) && OffsetOk(dir, o) && k <= |dir| && (dir != [] ==> k < |dir|)
    ensures Sorted(dir[k..]) && OffsetOk(dir[k..], o)
    ensures Oldest(dir) <= Oldest(dir[k..])
  {
  }

  lemma CleanupKeepsReader<E(!new)>(codec: Codec<E>, w: World<E>, now: int, stuck: set<nat>)
    requires ReaderOk(codec, w)
    ensures ReaderOk(codec, Next(codec, w, Cleanup(now, stuck)))
  {
    hide Cleaned, Prior, HandedOut, OlderThan, BreaksACap, Sorted, OffsetOk;
    var k := CleanupDropsOldest(w.dir, now, stuck);
    SuffixKeepsOffset(w.dir, k, w.offset);
    var older, newer := w.dir[..k], w.dir[k..];
    var lost := Prior(codec, older, w.offset);
    assert w.dir == older + newer;
    PriorAppend(codec, older, newer, w.offset);
    LostIsOlder(codec, w.dir, k, w.offset);
    DropFromOutputs(w.outputs, w.gone, lost, Prior(codec, newer, w.offset), Oldest(w.dir), Oldest(newer), w.offset);
  }

  lemma LostIsOlder<E(!new)>(codec: Codec<E>, dir: seq<Segment>, k: nat, o: Offset)
    requires Sorted(dir) && k <= |dir| && (dir != [] ==> k < |dir|)
    ensures forall r :: r in Prior(codec, dir[..k], o) ==> r.segment < Oldest(dir[k..])
    ensures Oldest(dir[k..]) == 0 ==> Oldest(dir) == 0 && Prior(codec, dir[..k], o) == []
  {
    hide PriorInSegment;
    PriorSegments(codec, dir[..k], o);
  }

  lemma {:induction false} PriorSegments<E(!new)>(codec: Codec<E>, dir: seq<Segment>, o: Offset)
    requires Sorted(dir)
    ensures dir == [] ==> Prior(codec, dir, o) == []
    ensures forall r :: r in Prior(codec, dir, o) ==> dir != [] && r.segment <= dir[|dir| - 1].day
  {
    if dir != [] {
      var s := dir[|dir| - 1];
      PriorSegments(codec, dir[..|dir| - 1], o);
      ReadLinesOrdered(codec, s.day, s.data, 0);
      ReadLinesOrdered(codec, s.day, s.data[..StartIn(s, o)], 0);
    }
  }

  lemma AddToOutputs<E(!new)>(out: seq<Record<E>>, gone: nat, prior: seq<Record<E>>, oldest: nat, o: Offset,
                              news: seq<Record<E>>, o': Offset)
    requires HandedOut(out, gone, prior, oldest, o) && Ordered(news)
    requires forall r :: r in news ==> NotBefore(r, o) && Before(r, o')
    requires o.segment < o'.segment || (o.segment == o'.segment && o.byte <= o'.byte)
    ensures HandedOut(out + news, gone, prior + news, oldest, o')
  {
    hide Ordered;
    OrderedConcat(out, news);
    assert (out + news)[gone..] == out[gone..] + news;
    assert (out + news)[..gone] == out[..gone];
  }

  lemma ReadKeepsReader<E(!new)>(codec: Codec<E>, w: World<E>)
    requires ReaderOk(codec, w)
    ensures ReaderOk(codec, Next(codec, w, Read))
    ensures Next(codec, w, Read).outputs[w.gone..] == ReadFrom(codec, w.dir, ZERO)
  {
    hide Prior, ReadFrom, NextOffset, Ordered, Boundary;
    var o, o', news := w.offset, NextOffset(w.dir, w.offset), ReadFrom(codec, w.dir, w.offset);
    ReadFromOrdered(codec, w.dir, o);
    SecondReadIsEmpty(codec, w.dir, o);
    PriorThenRest(codec, w.dir, o);
    PriorThenRest(codec, w.dir, o');
    OffsetAdvances(w.dir, o);
    AddToOutputs(w.outputs, w.gone, Prior(codec, w.dir, o), Oldest(w.dir), o, news, o');
  }

  lemma {:induction false} OffsetAdvances(dir: seq<Segment>, o: Offset)
    requires forall i :: 0 <= i < |dir| && dir[i].day == o.segment ==> Boundary(dir[i].data, o.byte)
    ensures var o' := NextOffset(dir, o);
      o.segment < o'.segment || (o.segment == o'.segment && o.byte <= o'.byte)
  {
    if dir != [] {
      OffsetAdvances(dir[..|dir| - 1], o);
    }
  }

  // ----- what every run of the reader keeps -----

  lemma {:induction false} RunKeepsReader<E(!new)>(codec: Codec<E>, w: World<E>, run: seq<Step<E>>)
    requires ReaderOk(codec, w) && Exec(codec, w, run).Some?
    ensures ReaderOk(codec, Exec(codec, w, run).value)
    decreases |run|
  {
    hide ReaderOk, Next, CanAppend;
    if run != [] {
      match run[0] {
        case Append(item) =>
          assert CanAppend(codec, w.dir, item);
          AppendKeepsReader(codec, w, item);
        case Cleanup(now, stuck) => CleanupKeepsReader(codec, w, now, stuck);
        case Read => ReadKeepsReader(codec, w);
      }
      RunKeepsReader(codec, Next(codec, w, run[0]), run[1..]);
    }
  }

  /** Resumable reading over a whole life of the journal: whatever appends, torn
      tails, rollovers, cleanups and reads came before, once the reader has read
      again, it has been handed entries of deleted segments followed by exactly
      the entries a read of everything that survives would return, and no entry
      twice. */
  lemma ResumedReadsAreExactlyOnce<E(!new)>(codec: Codec<E>, run: seq<Step<E>>)
    requires Exec(codec, Empty(), run).Some?
    ensures var w := Next(codec, Exec(codec, Empty(), run).value, Read);
      && Ordered(w.outputs)
      && w.gone <= |w.outputs|
      && w.outputs[w.gone..] == ReadFrom(codec, w.dir, ZERO)
      && (forall r :: r in w.outputs[..w.gone] ==> r.segment < Oldest(w.dir))
  {
    RunKeepsReader(codec, Empty(), run);
    ReadKeepsReader(codec, Exec(codec, Empty(), run).value);
  }

  // ----- what survives a torn write -----

  /** Appends the writer can have made, in order: days never go back. */
  ghost predicate Chain<E>(codec: Codec<E>, items: seq<Item<E>>) {
    && (forall i :: 0 <= i < |items| ==> items[i].day > 0 && items[i].cut <= |codec.marshal(items[i].entry)| + 1)
    && (forall i, j :: 0 <= i < j < |items| ==> items[i].day <= items[j].day)
  }

  /** The directory a chain of appends leaves when nothing is cleaned up. */
  function DirOf<E>(codec: Codec<E>, items: seq<Item<E>>): seq<Segment>
  {
    if items == [] then []
    else
      var last := items[|items| - 1];
      Appended(DirOf(codec, items[..|items| - 1]), last.day, Wire(codec, last))
  }

  predicate IsWhole<E>(codec: Codec<E>, item: Item<E>) {
    item.cut == |codec.marshal(item.entry)| + 1
  }

  /** Everything but the line feed arrived. */
  predicate LacksOnlyLF<E>(codec: Codec<E>, item: Item<E>) {
    item.cut == |codec.marshal(item.entry)|
  }

  /** What the reader gets of an append that the next append (day `nextDay`,
      0 when there is none) follows. */
  function Delivered<E>(codec: Codec<E>, item: Item<E>, nextDay: nat): seq<E> {
    if IsWhole(codec, item) || (LacksOnlyLF(codec, item) && item.day == nextDay) then [item.entry] else []
  }

  function DeliveredAll<E>(codec: Codec<E>, items: seq<Item<E>>, nextDay: nat): seq<E> {
    if items == [] then []
    else
      var last := items[|items| - 1];
      DeliveredAll(codec, items[..|items| - 1], last.day) + Delivered(codec, last, nextDay)
  }

  function Entries<E>(records: seq<Record<E>>): seq<E> {
    seq(|records|, i requires 0 <= i < |records| => records[i].entry)
  }

  lemma EntriesAppend<E>(a: seq<Record<E>>, b: seq<Record<E>>)
    ensures Entries(a + b) == Entries(a) + Entries(b)
  {
  }

  /** A whole line after closed ones is one more record. */
  lemma WholeRead<E(!new)>(codec: Codec<E>, day: nat, closed: Bytes, entry: E)
    requires IsLineCodec(codec) && Boundary(closed, |closed|)
    ensures Entries(ReadLines(codec, day, closed + (codec.marshal(entry) + [LF]), 0))
         == Entries(ReadLines(codec, day, closed, 0)) + [entry]
  {
    hide ReadLines, Consumed, IsLineCodec;
    var line, n := codec.marshal(entry), |closed|;
    var data, end := closed + (line + [LF]), n + |line|;
    assert data[..n] == closed && data[n..end] == line;
    ReadLinesSplit(codec, day, data, 0, n);
    LineHasNoLF(codec, entry);
    assert forall k :: n <= k < end ==> data[k] == line[k - n];
    ReadOneLine(codec, day, data, n, end);
    ReadNoLine(codec, day, data, end + 1);
    EntriesAppend(ReadLines(codec, day, closed, 0), ReadLines(codec, day, data, n));
  }

  /** The bytes of one append at the end of a segment whose lines are all closed. */
  lemma TailRead<E(!new)>(codec: Codec<E>, day: nat, closed: Bytes, item: Item<E>)
    requires IsLineCodec(codec) && item.cut <= |codec.marshal(item.entry)| + 1
    requires Boundary(closed, |closed|)
    ensures Entries(ReadLines(codec, day, closed + Wire(codec, item), 0))
         == Entries(ReadLines(codec, day, closed, 0)) + if IsWhole(codec, item) then [item.entry] else []
  {
    hide ReadLines, Consumed, IsLineCodec, Entries;
    var data, n, line := closed + Wire(codec, item), |closed|, codec.marshal(item.entry);
    if IsWhole(codec, item) {
      WholeRead(codec, day, closed, item.entry);
      assert Wire(codec, item) == line + [LF];
    } else {
      assert data[..n] == closed && data[n..] == line[..item.cut];
      LineHasNoLF(codec, item.entry);
      ReadLinesSplit(codec, day, data, 0, n);
      ReadNoLine(codec, day, data, n);
      assert ReadLines(codec, day, data, 0) == ReadLines(codec, day, closed, 0);
    }
  }

  lemma LineHasNoLF<E(!new)>(codec: Codec<E>, entry: E)
    requires IsLineCodec(codec)
    ensures var line := codec.marshal(entry);
      && LF !in line && line != []
      && EntryOf(codec, line) == Some(entry)
      && forall cut :: 0 <= cut < |line| ==> EntryOf(codec, line[..cut]) == None
  {
  }

  /** A torn line, once closed, yields its entry when only the line feed was lost. */
  lemma TornRead<E(!new)>(codec: Codec<E>, day: nat, closed: Bytes, entry: E, cut: nat)
    requires IsLineCodec(codec) && 0 < cut <= |codec.marshal(entry)|
    requires Boundary(closed, |closed|)
    ensures Entries(ReadLines(codec, day, closed + codec.marshal(entry)[..cut] + [LF], 0))
         == Entries(ReadLines(codec, day, closed, 0)) + if cut == |codec.marshal(entry)| then [entry] else []
  {
    hide ReadLines, Consumed, IsLineCodec;
    var line, n := codec.marshal(entry), |closed|;
    LineHasNoLF(codec, entry);
    var torn := line[..cut];
    var data, end := closed + torn + [LF], n + cut;
    assert data[..n] == closed && data[n..end] == torn;
    ReadLinesSplit(codec, day, data, 0, n);
    assert forall k :: n <= k < end ==> data[k] == line[k - n];
    ReadOneLine(codec, day, data, n, end);
    ReadNoLine(codec, day, data, end + 1);
    assert cut == |line| ==> torn == line;
    EntriesAppend(ReadLines(codec, day, closed, 0), ReadLines(codec, day, data, n));
  }

  /** The same after the repair that the next append of the day makes. */
  lemma RepairedTailRead<E(!new)>(codec: Codec<E>, day: nat, closed: Bytes, item: Item<E>)
    requires IsLineCodec(codec) && item.cut <= |codec.marshal(item.entry)| + 1
    requires Boundary(closed, |closed|)
    ensures var data := Repaired(closed + Wire(codec, item));
      && Boundary(data, |data|)
      && Entries(ReadLines(codec, day, data, 0))
      == Entries(ReadLines(codec, day, closed, 0)) + Delivered(codec, item, item.day)
  {
    hide ReadLines, IsLineCodec, Entries;
    var line := codec.marshal(item.entry);
    LineHasNoLF(codec, item.entry);
    if IsWhole(codec, item) || item.cut == 0 {
      TailRead(codec, day, closed, item);
      assert item.cut == 0 ==> closed + Wire(codec, item) == closed;
    } else {
      TornRead(codec, day, closed, item.entry, item.cut);
      var torn := line[..item.cut];
      assert Wire(codec, item) == torn && torn[|torn| - 1] in line;
      assert Repaired(closed + torn) == closed + torn + [LF];
    }
  }

  lemma ChainSlice<E>(codec: Codec<E>, items: seq<Item<E>>, from: nat, to: nat)
    requires Chain(codec, items) && from <= to <= |items|
    ensures Chain(codec, items[from..to])
  {
  }

  lemma ChainLast<E>(codec: Codec<E>, items: seq<Item<E>>)
    requires Chain(codec, items) && items != []
    ensures var n := |items| - 1;
      && Chain(codec, items[..n])
      && items[n].day > 0 && items[0].day <= items[n].day
      && (n > 0 ==> items[n - 1].day <= items[n].day)
  {
  }

  /** The last append either grows the newest segment or opens a newer one. */
  lemma DirOfStep<E>(codec: Codec<E>, items: seq<Item<E>>, dir: seq<Segment>)
    requires items != [] && dir == DirOf(codec, items[..|items| - 1]) && Sorted(dir)
    requires items[|items| - 1].day > 0 && (dir != [] ==> dir[|dir| - 1].day <= items[|items| - 1].day)
    ensures var last, n := items[|items| - 1], |dir|;
      && Sorted(DirOf(codec, items))
      && DirOf(codec, items)
      == if n > 0 && dir[n - 1].day == last.day
         then dir[..n - 1] + [Segment(last.day, Repaired(dir[n - 1].data) + Wire(codec, last))]
         else dir + [Segment(last.day, Wire(codec, last))]
  {
    hide Appended, Wire, Sorted;
    var last := items[|items| - 1];
    AppendedShape(dir, last.day, Wire(codec, last));
  }

  lemma {:induction false} DirOfShape<E>(codec: Codec<E>, items: seq<Item<E>>)
    requires Chain(codec, items)
    ensures Sorted(DirOf(codec, items))
    ensures items == [] <==> DirOf(codec, items) == []
    ensures items != [] ==> DirOf(codec, items)[|DirOf(codec, items)| - 1].day == items[|items| - 1].day
  {
    hide DirOf, Wire, Repaired, Chain, Sorted;
    if items == [] {
      NoAppends(codec);
    } else {
      ChainLast(codec, items);
      DirOfShape(codec, items[..|items| - 1]);
      DirOfStep(codec, items, DirOf(codec, items[..|items| - 1]));
    }
  }

  lemma NoAppends<E>(codec: Codec<E>)
    ensures DirOf(codec, []) == [] && Sorted([])
  {
  }

  /** The newest segment's torn tail closed, as the next append of that day does. */
  function Closed(dir: seq<Segment>): seq<Segment> {
    if dir == [] then []
    else dir[..|dir| - 1] + [Segment(dir[|dir| - 1].day, Repaired(dir[|dir| - 1].data))]
  }

  lemma ReadFromLast<E>(codec: Codec<E>, base: seq<Segment>, s: Segment)
    requires s.day > 0
    ensures Entries(ReadFrom(codec, base + [s], ZERO))
         == Entries(ReadFrom(codec, base, ZERO)) + Entries(ReadLines(codec, s.day, s.data, 0))
  {
    hide ReadLines;
    assert (base + [s])[..|base|] == base;
    EntriesAppend(ReadFrom(codec, base, ZERO), ReadLines(codec, s.day, s.data, 0));
  }

  lemma ClosedLast(base: seq<Segment>, s: Segment)
    ensures Closed(base + [s]) == base + [Segment(s.day, Repaired(s.data))]
  {
    hide Repaired;
    assert (base + [s])[..|base|] == base;
  }

  lemma UnfollowedIsWholeOrLost<E>(codec: Codec<E>, item: Item<E>)
    requires item.day > 0
    ensures Delivered(codec, item, 0) == if IsWhole(codec, item) then [item.entry] else []
  {
  }

  /** One append seen by a read from scratch, before and after it is closed. */
  lemma AppendRead<E(!new)>(codec: Codec<E>, base: seq<Segment>, closed: Bytes, item: Item<E>, before: seq<E>)
    requires IsLineCodec(codec) && item.day > 0 && item.cut <= |codec.marshal(item.entry)| + 1
    requires Boundary(closed, |closed|)
    requires Entries(ReadFrom(codec, base, ZERO)) + Entries(ReadLines(codec, item.day, closed, 0)) == before
    ensures var dir := base + [Segment(item.day, closed + Wire(codec, item))];
      && Entries(ReadFrom(codec, dir, ZERO)) == before + Delivered(codec, item, 0)
      && Entries(ReadFrom(codec, Closed(dir), ZERO)) == before + Delivered(codec, item, item.day)
      && Boundary(Closed(dir)[|base|].data, |Closed(dir)[|base|].data|)
  {
    hide ReadLines, ReadFrom, IsLineCodec, Repaired, Wire, Entries, Closed, Delivered, IsWhole, Boundary;
    var data := closed + Wire(codec, item);
    TailRead(codec, item.day, closed, item);
    UnfollowedIsWholeOrLost(codec, item);
    RepairedTailRead(codec, item.day, closed, item);
    ReadFromLast(codec, base, Segment(item.day, data));
    ReadFromLast(codec, base, Segment(item.day, Repaired(data)));
    ClosedLast(base, Segment(item.day, data));
  }

  lemma {:induction false} NextDayMatters<E>(codec: Codec<E>, items: seq<Item<E>>, a: nat, b: nat)
    requires items != [] ==> items[|items| - 1].day != a && items[|items| - 1].day != b
    ensures DeliveredAll(codec, items, a) == DeliveredAll(codec, items, b)
  {
  }

  /** Torn-write round trip: a read from scratch returns, in order, every entry
      that was appended whole, and besides those only entries of which nothing
      but the line feed was lost and which an append of the same day followed. */
  lemma {:induction false} TornWriteRoundTrip<E(!new)>(codec: Codec<E>, items: seq<Item<E>>)
    requires IsLineCodec(codec) && Chain(codec, items)
    ensures Entries(ReadFrom(codec, DirOf(codec, items), ZERO)) == DeliveredAll(codec, items, 0)
    ensures items != [] ==>
      var closed := Closed(DirOf(codec, items));
      && Entries(ReadFrom(codec, closed, ZERO)) == DeliveredAll(codec, items, items[|items| - 1].day)
      && closed != [] && Boundary(closed[|closed| - 1].data, |closed[|closed| - 1].data|)
  {
    hide ReadLines, ReadSegment, Appended, Repaired, Wire, IsLineCodec, Delivered, Sorted;
    DirOfShape(codec, items);
    if items != [] {
      var pre, last := items[..|items| - 1], items[|items| - 1];
      var dir := DirOf(codec, pre);
      TornWriteRoundTrip(codec, pre);
      DirOfShape(codec, pre);
      AppendedShape(dir, last.day, Wire(codec, last));
      var n := |dir|;
      if n > 0 && dir[n - 1].day == last.day {
        var closed := Repaired(dir[n - 1].data);
        ReadFromLast(codec, dir[..n - 1], Segment(last.day, closed));
        AppendRead(codec, dir[..n - 1], closed, last, DeliveredAll(codec, pre, last.day));
      } else {
        NextDayMatters(codec, pre, 0, last.day);
        NothingInEmpty(codec, last.day);
        assert [] + Wire(codec, last) == Wire(codec, last);
        AppendRead(codec, dir, [], last, DeliveredAll(codec, pre, last.day));
      }
    }
  }

  lemma NothingInEmpty<E>(codec: Codec<E>, day: nat)
    ensures ReadLines(codec, day, [], 0) == [] && Entries<E>([]) == []
  {
  }

  // ----- cleanup forgets whole days -----

  lemma {:induction false} DirOfDays<E>(codec: Codec<E>, items: seq<Item<E>>)
    requires Chain(codec, items)
    ensures forall i :: 0 <= i < |DirOf(codec, items)| ==>
      items != [] && items[0].day <= DirOf(codec, items)[i].day <= items[|items| - 1].day
  {
    hide DirOf, Wire, Repaired, Chain, Sorted;
    if items == [] {
      NoAppends(codec);
    } else {
      var pre := items[..|items| - 1];
      ChainLast(codec, items);
      DirOfDays(codec, pre);
      DirOfShape(codec, pre);
      DirOfStep(codec, items, DirOf(codec, pre));
    }
  }

  lemma AppendedOnTop(older: seq<Segment>, newer: seq<Segment>, day: nat, bytes: Bytes)
    requires Sorted(older + newer) && Sorted(newer) && day > 0
    requires newer != [] ==> newer[|newer| - 1].day <= day
    requires older != [] && newer == [] ==> older[|older| - 1].day < day
    ensures Appended(older + newer, day, bytes) == older + Appended(newer, day, bytes)
  {
    hide Appended, Repaired;
    AppendedShape(newer, day, bytes);
    AppendedShape(older + newer, day, bytes);
    if newer != [] {
      assert (older + newer)[..|older + newer| - 1] == older + newer[..|newer| - 1];
    }
  }

  /** The last append of the newer days lands above the older days' segments. */
  lemma SplitStep<E>(codec: Codec<E>, older: seq<Item<E>>, init: seq<Item<E>>, last: Item<E>)
    requires Chain(codec, older + init) && Chain(codec, older) && Chain(codec, init)
    requires DirOf(codec, older + init) == DirOf(codec, older) + DirOf(codec, init)
    requires last.day > 0 && (init != [] ==> init[|init| - 1].day <= last.day)
    requires older != [] && init == [] ==> older[|older| - 1].day < last.day
    ensures DirOf(codec, older + (init + [last])) == DirOf(codec, older) + DirOf(codec, init + [last])
  {
    hide DirOf, Appended, Wire, Sorted, Chain;
    DirOfShape(codec, older);
    DirOfShape(codec, init);
    DirOfShape(codec, older + init);
    AppendedOnTop(DirOf(codec, older), DirOf(codec, init), last.day, Wire(codec, last));
    DirOfLast(codec, init, last);
    DirOfLast(codec, older + init, last);
    assert older + (init + [last]) == older + init + [last];
  }

  /** Appends of older days and of newer days fill separate segments. */
  lemma {:induction false} DirOfSplit<E>(codec: Codec<E>, older: seq<Item<E>>, newer: seq<Item<E>>)
    requires Chain(codec, older + newer) && Chain(codec, older) && Chain(codec, newer)
    requires older != [] && newer != [] ==> older[|older| - 1].day < newer[0].day
    ensures DirOf(codec, older + newer) == DirOf(codec, older) + DirOf(codec, newer)
  {
    hide DirOf, Chain;
    if newer == [] {
      assert older + newer == older;
      NoAppends(codec);
    } else {
      var init, last := newer[..|newer| - 1], newer[|newer| - 1];
      ChainLast(codec, newer);
      ChainLast(codec, older + newer);
      assert (older + newer)[..|older + newer| - 1] == older + init;
      DirOfSplit(codec, older, init);
      SplitStep(codec, older, init, last);
      assert newer == init + [last];
    }
  }

  lemma {:induction false} OlderThanSplits<E>(log: seq<Item<E>>, day: nat)
    ensures forall i :: 0 <= i < OlderThan(log, day) ==> log[i].day < day
    ensures OlderThan(log, day) < |log| ==> log[OlderThan(log, day)].day >= day
  {
    if log != [] && log[0].day < day {
      OlderThanSplits(log[1..], day);
    }
  }

  lemma CutAtDay(older: seq<Segment>, newer: seq<Segment>, k: nat, day: nat)
    requires Sorted(older + newer) && k < |older + newer| && (older + newer)[k].day == day
    requires forall i :: 0 <= i < |older| ==> older[i].day < day
    requires forall i :: 0 <= i < |newer| ==> newer[i].day >= day
    ensures (older + newer)[k..] == newer
  {
    var all := older + newer;
    if |older| < |all| {
      assert all[|older|] == newer[0] && all[|older|].day >= day;
    }
    assert k == |older|;
  }

  /** The appends before and from a day, and the segments they fill. */
  lemma SplitAtDay<E>(codec: Codec<E>, items: seq<Item<E>>, day: nat)
    requires Chain(codec, items)
    ensures var m := OlderThan(items, day);
      && Chain(codec, items[..m]) && Chain(codec, items[m..])
      && DirOf(codec, items) == DirOf(codec, items[..m]) + DirOf(codec, items[m..])
      && (m > 0 ==> items[m - 1].day < day) && (m < |items| ==> items[m].day >= day)
      && (forall i :: 0 <= i < m ==> items[i].day < day)
  {
    hide DirOf, OlderThan, Chain;
    var m := OlderThan(items, day);
    OlderThanSplits(items, day);
    var older, newer := items[..m], items[m..];
    assert items == older + newer && items[0..m] == older && items[m..|items|] == newer;
    ChainSlice(codec, items, 0, m);
    ChainSlice(codec, items, m, |items|);
    DirOfSplit(codec, older, newer);
  }

  /** Deleting whole oldest segments leaves the directory that the appends of
      the remaining days alone would have made. */
  lemma DroppingForgetsDays<E>(codec: Codec<E>, items: seq<Item<E>>, k: nat)
    requires Chain(codec, items) && k < |DirOf(codec, items)|
    ensures var m := OlderThan(items, DirOf(codec, items)[k].day);
      && Chain(codec, items[m..])
      && DirOf(codec, items)[k..] == DirOf(codec, items[m..])
      && (forall i :: 0 <= i < m ==> items[i].day < DirOf(codec, items)[k].day)
  {
    hide DirOf, OlderThan, Sorted, Chain;
    var day := DirOf(codec, items)[k].day;
    var m := OlderThan(items, day);
    SplitAtDay(codec, items, day);
    DirOfShape(codec, items);
    DirOfDays(codec, items[..m]);
    DirOfDays(codec, items[m..]);
    CutAtDay(DirOf(codec, items[..m]), DirOf(codec, items[m..]), k, day);
  }

  /** What is on disk is what the appends not yet forgotten wrote. */
  ghost predicate LogOk<E>(codec: Codec<E>, w: World<E>) {
    && w.forgotten <= |w.log|
    && Chain(codec, w.log[w.forgotten..])
    && w.dir == DirOf(codec, w.log[w.forgotten..])
    && (forall i :: 0 <= i < w.forgotten ==> w.log[i].day < Oldest(w.dir))
  }

  lemma AppendKeepsOldest(dir: seq<Segment>, day: nat, bytes: Bytes)
    requires Sorted(dir) && day > 0 && (dir != [] ==> dir[|dir| - 1].day <= day)
    ensures Oldest(dir) <= Oldest(Appended(dir, day, bytes))
  {
    hide Appended, Repaired;
    AppendedShape(dir, day, bytes);
  }

  lemma AppendKeepsLog<E>(codec: Codec<E>, w: World<E>, item: Item<E>)
    requires LogOk(codec, w) && CanAppend(codec, w.dir, item)
    ensures LogOk(codec, Next(codec, w, Append(item)))
  {
    hide Appended, Wire, Chain, DirOf, Sorted, Oldest;
    var live := w.log[w.forgotten..];
    assert (w.log + [item])[w.forgotten..] == live + [item];
    DirOfShape(codec, live);
    ChainExtends(codec, live, item);
    DirOfLast(codec, live, item);
    AppendKeepsOldest(w.dir, item.day, Wire(codec, item));
  }

  lemma ChainExtends<E>(codec: Codec<E>, items: seq<Item<E>>, item: Item<E>)
    requires Chain(codec, items) && item.day > 0 && item.cut <= |codec.marshal(item.entry)| + 1
    requires items != [] ==> items[|items| - 1].day <= item.day
    ensures Chain(codec, items + [item])
  {
  }

  lemma DirOfLast<E>(codec: Codec<E>, items: seq<Item<E>>, item: Item<E>)
    ensures DirOf(codec, items + [item]) == Appended(DirOf(codec, items), item.day, Wire(codec, item))
  {
    hide Appended, Wire;
    assert (items + [item])[..|items|] == items;
  }

  lemma CleanupKeepsLog<E>(codec: Codec<E>, w: World<E>, now: int, stuck: set<nat>)
    requires LogOk(codec, w)
    ensures LogOk(codec, Next(codec, w, Cleanup(now, stuck)))
  {
    hide Cleaned, OlderThan, Prior, DirOf, BreaksACap, Chain;
    var k := CleanupDropsOldest(w.dir, now, stuck);
    var live := w.log[w.forgotten..];
    DirOfShape(codec, live);
    if w.dir != [] {
      DroppingForgetsDays(codec, live, k);
      var m := OlderThan(live, w.dir[k].day);
      assert w.log[w.forgotten + m..] == live[m..];
      assert forall i :: w.forgotten <= i < w.forgotten + m ==> w.log[i] == live[i - w.forgotten];
      assert w.dir[0].day <= w.dir[k].day;
    }
  }

  lemma {:induction false} RunKeepsLog<E(!new)>(codec: Codec<E>, w: World<E>, run: seq<Step<E>>)
    requires LogOk(codec, w) && Exec(codec, w, run).Some?
    ensures LogOk(codec, Exec(codec, w, run).value)
    decreases |run|
  {
    hide Appended, Wire, Cleaned, OlderThan, Prior, ReadFrom, NextOffset, DirOf;
    if run != [] {
      match run[0] {
        case Append(item) => AppendKeepsLog(codec, w, item);
        case Cleanup(now, stuck) => CleanupKeepsLog(codec, w, now, stuck);
        case Read =>
      }
      RunKeepsLog(codec, Next(codec, w, run[0]), run[1..]);
    }
  }

  /** The journal's promise end to end: after any life of the journal and one
      more read, the reader holds, beyond the entries of deleted days and in
      order, exactly the appends of the surviving days that arrived whole or
      lost only a line feed that a later append of that day restored. */
  lemma EveryDeliverableAppendIsRead<E(!new)>(codec: Codec<E>, run: seq<Step<E>>)
    requires IsLineCodec(codec) && Exec(codec, Empty(), run).Some?
    ensures var w := Next(codec, Exec(codec, Empty(), run).value, Read);
      && w.gone <= |w.outputs| && w.forgotten <= |w.log|
      && Entries(w.outputs[w.gone..]) == DeliveredAll(codec, w.log[w.forgotten..], 0)
      && (forall i :: 0 <= i < w.forgotten ==> w.log[i].day < Oldest(w.dir))
  {
    hide Ordered, ReadFrom, DirOf, DeliveredAll, NextOffset, IsLineCodec;
    assert LogOk(codec, Empty()) by {
      DirOfShape<E>(codec, []);
    }
    RunKeepsLog(codec, Empty(), run);
    ResumedReadsAreExactlyOnce(codec, run);
    var w := Exec(codec, Empty(), run).value;
    TornWriteRoundTrip(codec, w.log[w.forgotten..]);
  }

  // ----- the backward scan for recall families -----

  /** What splitting a whole segment at line feeds yields: unlike the reader, the
      scan also parses what follows the last line feed. */
  function ScanLines<E>(codec: Codec<E>, day: nat, data: Bytes, from: nat): seq<Record<E>>
    requires from <= |data|
    decreases |data| - from
  {
    var lf := FirstLF(data, from);
    RecordOf(codec, day, from, data[from..lf]) + if lf == |data| then [] else ScanLines(codec, day, data, lf + 1)
  }

  lemma {:induction false} ScanIsReadThenTail<E>(codec: Codec<E>, day: nat, data: Bytes, from: nat)
    requires from <= |data|
    ensures var end := Consumed(data, from);
      ScanLines(codec, day, data, from) == ReadLines(codec, day, data, from) + RecordOf(codec, day, end, data[end..])
    decreases |data| - from
  {
    hide RecordOf, EntryOf;
    var lf := FirstLF(data, from);
    if lf < |data| {
      ScanIsReadThenTail(codec, day, data, lf + 1);
    } else {
      assert data[from..lf] == data[from..];
    }
  }

  /** The scan sees what the reader sees, and one entry more exactly when the
      segment ends in a full record without its line feed; up to a stored offset,
      which is a line boundary, the two agree. */
  lemma ScanSeesUnterminatedTail<E>(codec: Codec<E>, day: nat, data: Bytes)
    ensures ScanLines(codec, day, data, 0) == ReadLines(codec, day, data, 0)
        <==> EntryOf(codec, data[Consumed(data, 0)..]) == None
    ensures Boundary(data, |data|) ==> ScanLines(codec, day, data, 0) == ReadLines(codec, day, data, 0)
  {
    hide ScanLines, ReadLines, FirstLF, Consumed;
    ScanIsReadThenTail(codec, day, data, 0);
    ConsumedIsBoundary(codec, day, data, 0);
    var tail := data[Consumed(data, 0)..];
    assert tail != [] ==> tail[|tail| - 1] == data[|data| - 1];
  }

  // ----- the assumption on the encoding can be met -----

  function Tally(n: nat): Bytes {
    [OPEN_BRACE] + seq(n, _ => 49) + [125]
  }

  function ReadTally(line: Bytes): Option<nat> {
    if |line| >= 2 && line == Tally(|line| - 2) then Some(|line| - 2) else None
  }

  lemma CutTallyIsUnreadable(n: nat, cut: nat)
    requires cut < |Tally(n)|
    ensures ReadTally(Tally(n)[..cut]) == None
  {
    if cut >= 2 {
      assert Tally(n)[cut - 1] == 49 && Tally(cut - 2)[cut - 1] == 125;
    }
  }

  lemma LineCodecExists()
    ensures exists codec: Codec<nat> :: IsLineCodec(codec)
  {
    hide ReadTally;
    var codec := Codec(Tally, ReadTally);
    forall n: nat ensures codec.parse(codec.marshal(n)) == Some(n) {
      TallyReadsBack(n);
    }
    forall n: nat, cut | 0 <= cut < |codec.marshal(n)| ensures codec.parse(codec.marshal(n)[..cut]) == None {
      CutTallyIsUnreadable(n, cut);
    }
    assert IsLineCodec(codec);
  }

  lemma TallyReadsBack(n: nat)
    ensures ReadTally(Tally(n)) == Some(n)
  {
  }
}
