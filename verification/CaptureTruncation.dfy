/**
 A capture may be read while it is still being written.  Cutting it off anywhere after its
 header must not change what was already found, only how much of it.
 */
module CaptureTruncation {
  import opened Bytes
  import opened TlsRecords
  import opened TcpReassembly
  import opened Capture

  lemma FieldOfPrefix(cut: Bytes, capture: Bytes, at: nat, e: Endian)
    requires cut <= capture && at + 4 <= |cut|
    ensures Field(cut, at, e) == Field(capture, at, e)
  {
  }

  lemma HeaderOfPrefix(cut: Bytes, capture: Bytes)
    requires cut <= capture && 24 <= |cut|
    ensures Order(cut) == Order(capture) && HeaderOk(cut) == HeaderOk(capture)
  {
    assert cut[..4] == capture[..4];
    if Order(capture).Some? {
      FieldOfPrefix(cut, capture, 20, Order(capture).value);
    }
  }

  lemma FrameOfPrefix(cut: Bytes, capture: Bytes, offset: nat, e: Endian)
    requires cut <= capture && HasFrame(cut, offset, e)
    ensures HasFrame(capture, offset, e) && FrameEnd(capture, offset, e) == FrameEnd(cut, offset, e)
    ensures cut[offset + 16..FrameEnd(cut, offset, e)] == capture[offset + 16..FrameEnd(cut, offset, e)]
  {
    FieldOfPrefix(cut, capture, offset + 8, e);
  }

  /** The frames of the shorter file are the first frames of the longer one. */
  lemma {:induction false} FramesOfPrefix(cut: Bytes, capture: Bytes, offset: nat, e: Endian)
    requires cut <= capture
    ensures Frames(cut, offset, e) <= Frames(capture, offset, e)
    decreases |cut| - offset
  {
    if HasFrame(cut, offset, e) {
      var end := FrameEnd(cut, offset, e);
      FrameOfPrefix(cut, capture, offset, e);
      FramesOfPrefix(cut, capture, end, e);
      ConsPrefix(cut[offset + 16..end], Frames(cut, end, e), Frames(capture, end, e));
    }
  }

  lemma ConsPrefix<T>(x: T, a: seq<T>, b: seq<T>)
    requires a <= b
    ensures [x] + a <= [x] + b
  {
  }

  // ---- one flow over the run of frames ----

  ghost predicate OnFlow(frame: Bytes, key: Key)
  {
    var p := ParsePacket(frame);
    p.Segment? && p.key == key
  }

  /** All segments of the flow are pieces of one byte stream, numbered from `isn`. */
  ghost predicate OneStream(frames: seq<Bytes>, key: Key, stream: Bytes, isn: U32)
  {
    && |stream| <= MODULUS - REACH
    && forall i :: 0 <= i < |frames| && OnFlow(frames[i], key) ==>
         var p := ParsePacket(frames[i]);
         exists at: nat :: SegmentOf(p.seqno, p.payload, stream, isn, at)
  }

  ghost predicate Present(frames: seq<Bytes>, key: Key)
  {
    Collect(frames).Flows? && key in Collect(frames).flows
  }

  ghost function FlowOf(frames: seq<Bytes>, key: Key): Flow
    requires Present(frames, key)
  {
    Collect(frames).flows[key]
  }

  /** How one more frame changes a flow. */
  lemma FlowStep(frames: seq<Bytes>, n: nat, key: Key)
    requires n < |frames| && Collect(frames[..n + 1]).Flows?
    ensures Collect(frames[..n]).Flows?
    ensures Present(frames[..n], key) ==> Present(frames[..n + 1], key)
    ensures !OnFlow(frames[n], key) && Present(frames[..n + 1], key) ==>
      Present(frames[..n], key) && FlowOf(frames[..n + 1], key) == FlowOf(frames[..n], key)
    ensures OnFlow(frames[n], key) ==> var p := ParsePacket(frames[n]);
      && Present(frames[..n + 1], key)
      && FlowOf(frames[..n + 1], key)
         == Deliver(if Present(frames[..n], key) then FlowOf(frames[..n], key) else Flow(p.seqno, map[]), p.seqno, p.payload)
  {
    assert frames[..n + 1] == frames[..n] + [frames[n]];
    CollectAppend(frames[..n], frames[n]);
  }

  ghost predicate StartsAt(flow: Flow, stream: Bytes, isn: U32, start: nat)
  {
    start < |stream| && flow.first == (isn + start) % MODULUS && Agrees(flow.chunks, stream, start)
  }

  lemma NewFlow(stream: Bytes, isn: U32, seqno: U32, payload: Bytes, at: nat)
    requires |stream| <= MODULUS - REACH && SegmentOf(seqno, payload, stream, isn, at)
    ensures StartsAt(Deliver(Flow(seqno, map[]), seqno, payload), stream, isn, at)
  {
    DeliverAgrees(Flow(seqno, map[]), stream, isn, at, seqno, payload, at);
  }

  lemma OldFlow(flow: Flow, stream: Bytes, isn: U32, start: nat, seqno: U32, payload: Bytes, at: nat)
    requires |stream| <= MODULUS - REACH && StartsAt(flow, stream, isn, start)
    requires SegmentOf(seqno, payload, stream, isn, at)
    ensures StartsAt(Deliver(flow, seqno, payload), stream, isn, start)
  {
    DeliverAgrees(flow, stream, isn, start, seqno, payload, at);
  }

  lemma NothingYet(frames: seq<Bytes>, key: Key)
    ensures !Present(frames[..0], key)
  {
  }

  /** At every moment the flow holds pieces of the stream, counted from where it was first seen. */
  lemma {:induction false} FlowAgrees(frames: seq<Bytes>, n: nat, key: Key, stream: Bytes, isn: U32) returns (start: nat)
    requires n <= |frames| && Collect(frames[..n]).Flows? && OneStream(frames, key, stream, isn)
    ensures Present(frames[..n], key) ==> StartsAt(FlowOf(frames[..n], key), stream, isn, start)
    ensures forall m :: 0 <= m <= n && Present(frames[..m], key) ==> StartsAt(FlowOf(frames[..m], key), stream, isn, start)
    decreases n
  {
    hide ParsePacket, Collect, Deliver, StartsAt, SegmentOf;
    if n == 0 {
      start := 0;
      NothingYet(frames, key);
    } else {
      FlowStep(frames, n - 1, key);
      start := FlowAgrees(frames, n - 1, key, stream, isn);
      if OnFlow(frames[n - 1], key) {
        var p := ParsePacket(frames[n - 1]);
        var at: nat :| SegmentOf(p.seqno, p.payload, stream, isn, at);
        if !Present(frames[..n - 1], key) {
          start := at;
          NeverSeen(frames, n - 1, key);
          NewFlow(stream, isn, p.seqno, p.payload, at);
        } else {
          OldFlow(FlowOf(frames[..n - 1], key), stream, isn, start, p.seqno, p.payload, at);
        }
      }
    }
  }

  lemma {:induction false} StaysPresent(frames: seq<Bytes>, m: nat, n: nat, key: Key)
    requires m <= n <= |frames| && Collect(frames[..n]).Flows? && Collect(frames[..m]).Flows? && Present(frames[..m], key)
    ensures Present(frames[..n], key)
    decreases n - m
  {
    hide ParsePacket, Collect, Deliver;
    if m < n {
      FlowStep(frames, n - 1, key);
      StaysPresent(frames, m, n - 1, key);
    }
  }

  lemma NeverSeen(frames: seq<Bytes>, n: nat, key: Key)
    requires n <= |frames| && Collect(frames[..n]).Flows? && !Present(frames[..n], key)
    ensures forall m :: 0 <= m <= n ==> !Present(frames[..m], key)
  {
    forall m | 0 <= m <= n
      ensures !Present(frames[..m], key)
    {
      if Present(frames[..m], key) {
        StaysPresent(frames, m, n, key);
      }
    }
  }

  /** From frame `from` on, no segment of the flow replaces a longer one at the same offset. */
  ghost predicate NeverShrinks(frames: seq<Bytes>, from: nat, key: Key)
  {
    forall i :: from <= i < |frames| && OnFlow(frames[i], key) && Present(frames[..i], key) ==>
      var p, flow := ParsePacket(frames[i]), FlowOf(frames[..i], key);
      var r := Relative(flow.first, p.seqno);
      r in flow.chunks ==> |flow.chunks[r]| <= |p.payload|
  }

  lemma {:induction false} FlowGrows(frames: seq<Bytes>, m: nat, n: nat, key: Key)
    requires m <= n <= |frames| && Collect(frames[..n]).Flows? && Collect(frames[..m]).Flows?
    requires Present(frames[..m], key) && NeverShrinks(frames, m, key)
    ensures Present(frames[..n], key) && Grew(FlowOf(frames[..m], key).chunks, FlowOf(frames[..n], key).chunks)
    decreases n - m
  {
    hide ParsePacket, Collect, Deliver;
    if m < n {
      FlowStep(frames, n - 1, key);
      FlowGrows(frames, m, n - 1, key);
      if OnFlow(frames[n - 1], key) {
        var p := ParsePacket(frames[n - 1]);
        DeliverGrows(FlowOf(frames[..m], key).chunks, FlowOf(frames[..n - 1], key), p.seqno, p.payload);
      }
    }
  }

  lemma WholeFlowAgrees(frames: seq<Bytes>, key: Key, stream: Bytes, isn: U32) returns (start: nat)
    requires Present(frames, key) && OneStream(frames, key, stream, isn)
    ensures StartsAt(FlowOf(frames, key), stream, isn, start)
  {
    assert frames[..|frames|] == frames;
    start := FlowAgrees(frames, |frames|, key, stream, isn);
  }

  /**
   The records reported for a flow are those of the stream itself, from the first position
   seen up to the first byte no kept segment holds, however the segments were cut, ordered,
   repeated and numbered.
   */
  lemma RecordsAreTheStreams(frames: seq<Bytes>, key: Key, stream: Bytes, isn: U32, result: map<Key, seq<Bytes>>)
    returns (start: nat, end: nat)
    requires Collect(frames).Flows? && IsResult(Collect(frames).flows, result) && key in result
    requires OneStream(frames, key, stream, isn)
    ensures start <= end <= |stream| && result[key] == Split(stream[start..end])
    ensures FlowOf(frames, key).first == (isn + start) % MODULUS
    ensures forall k :: 0 <= k < end - start ==> Covered(FlowOf(frames, key).chunks, k)
    ensures !Covered(FlowOf(frames, key).chunks, end - start)
  {
    start := WholeFlowAgrees(frames, key, stream, isn);
    var flow := FlowOf(frames, key);
    var joined :| IsJoin(flow.chunks, joined) && result[key] == Split(joined);
    JoinIsStream(flow.chunks, stream, start, joined);
    end := start + |joined|;
  }

  /** The flow as it grows keeps its records: the joined bytes are extended, so is their split. */
  lemma GrownFlowKeepsRecords(before: Chunks, after: Chunks, stream: Bytes, start: nat, a: Bytes, b: Bytes)
    requires Agrees(before, stream, start) && Agrees(after, stream, start) && start <= |stream|
    requires Grew(before, after) && IsJoin(before, a) && IsJoin(after, b)
    ensures Split(a) <= Split(b)
  {
    forall k | 0 <= k < |a|
      ensures Covered(after, k)
    {
      var p := Supplier(before, a, k);
      GrewCovers(before, after, k);
    }
    JoinGrowsExactlyWhen(before, after, stream, start, a, b);
    assert b == a + b[|a|..];
    SplitMonotone(a, b[|a|..]);
  }

  lemma CommonFront(front: Bytes, tail: Bytes, a: Bytes, b: Bytes)
    requires front + tail == a && (a <= b || b <= a) && |front| <= |b|
    ensures b == front + b[|front|..]
  {
    assert a[..|front|] == front && b[..|front|] == a[..|front|];
  }

  lemma {:induction false} FlattenPrefix(a: seq<Bytes>, b: seq<Bytes>)
    requires a <= b
    ensures |Flatten(a)| <= |Flatten(b)|
  {
    assert b == a + b[|a|..];
    FlattenConcat(a, b[|a|..]);
  }

  /** Of two joins of one stream, one has the records of the other in front exactly when it reaches that far. */
  lemma RecordsReach(a: Bytes, b: Bytes)
    requires a <= b || b <= a
    ensures Split(a) <= Split(b) <==> |Flatten(Split(a))| <= |b|
  {
    hide Split, Tail, Flatten, AllRecords;
    var records := Split(a);
    SplitSound(a);
    SplitSound(b);
    if |Flatten(records)| <= |b| {
      CommonFront(Flatten(records), Tail(a), a, b);
      SplitConcat(records, b[|Flatten(records)|..]);
    }
    if records <= Split(b) {
      FlattenPrefix(records, Split(b));
    }
  }

  /**
   Later segments keep the records already found if and only if every byte of those records is
   still covered; bytes of an unfinished record do not matter.
   */
  lemma RecordsKeptExactlyWhen(before: Chunks, after: Chunks, stream: Bytes, start: nat, a: Bytes, b: Bytes)
    requires Agrees(before, stream, start) && Agrees(after, stream, start) && start <= |stream|
    requires IsJoin(before, a) && IsJoin(after, b)
    ensures Split(a) <= Split(b) <==> forall k :: 0 <= k < |Flatten(Split(a))| ==> Covered(after, k)
  {
    hide Split, Agrees, IsJoin;
    JoinIsStream(before, stream, start, a);
    JoinIsStream(after, stream, start, b);
    assert a <= b || b <= a;
    RecordsReach(a, b);
  }

  /** Both files can be read, and `fewer` and `all` are the records found. */
  ghost predicate BothRead(cut: Bytes, capture: Bytes, fewer: map<Key, seq<Bytes>>, all: map<Key, seq<Bytes>>)
  {
    && HeaderOk(capture) && 24 <= |cut| && cut <= capture
    && var e := Order(capture).value;
       var m, n := Collect(Frames(cut, 24, e)), Collect(Frames(capture, 24, e));
       n.Flows? && IsResult(n.flows, all) && m.Flows? && IsResult(m.flows, fewer)
  }

  /** The packets of a readable capture. */
  ghost function PacketsOf(capture: Bytes): seq<Bytes>
    requires HeaderOk(capture)
  {
    Frames(capture, 24, Order(capture).value)
  }

  lemma CutFlow(cut: Bytes, capture: Bytes, key: Key, stream: Bytes, isn: U32,
                fewer: map<Key, seq<Bytes>>, all: map<Key, seq<Bytes>>)
    returns (m: nat, start: nat, a: Bytes, b: Bytes)
    requires BothRead(cut, capture, fewer, all) && key in fewer && OneStream(PacketsOf(capture), key, stream, isn)
    ensures m <= |PacketsOf(capture)| && m == |Frames(cut, 24, Order(capture).value)|
    ensures Present(PacketsOf(capture)[..m], key) && Present(PacketsOf(capture), key) && key in all
    ensures StartsAt(FlowOf(PacketsOf(capture)[..m], key), stream, isn, start)
    ensures StartsAt(FlowOf(PacketsOf(capture), key), stream, isn, start)
    ensures IsJoin(FlowOf(PacketsOf(capture)[..m], key).chunks, a) && fewer[key] == Split(a)
    ensures IsJoin(FlowOf(PacketsOf(capture), key).chunks, b) && all[key] == Split(b)
  {
    hide OneStream, Frames, Collect, StartsAt, IsJoin, Split;
    var e := Order(capture).value;
    var frames := PacketsOf(capture);
    m := |Frames(cut, 24, e)|;
    FramesOfPrefix(cut, capture, 24, e);
    assert Frames(cut, 24, e) == frames[..m] && frames == frames[..|frames|];
    StaysPresent(frames, m, |frames|, key);
    start := FlowAgrees(frames, |frames|, key, stream, isn);
    a := JoinOf(Collect(frames[..m]).flows, fewer, key);
    b := JoinOf(Collect(frames).flows, all, key);
  }

  lemma JoinOf(flows: map<Key, Flow>, result: map<Key, seq<Bytes>>, key: Key) returns (joined: Bytes)
    requires IsResult(flows, result) && key in flows
    ensures IsJoin(flows[key].chunks, joined) && result[key] == Split(joined)
  {
    hide IsJoin, Split;
    joined :| IsJoin(flows[key].chunks, joined) && result[key] == Split(joined);
  }

  /**
   A capture cut at any byte after its header gives, for a flow it still has, a prefix of the
   records the whole capture gives if and only if the segments kept in the end still cover
   every byte of those records.
   */
  lemma CutRecordsExactlyWhen(cut: Bytes, capture: Bytes, key: Key, stream: Bytes, isn: U32,
                              fewer: map<Key, seq<Bytes>>, all: map<Key, seq<Bytes>>)
    requires BothRead(cut, capture, fewer, all) && key in fewer && OneStream(PacketsOf(capture), key, stream, isn)
    ensures key in all && Present(PacketsOf(capture), key)
    ensures fewer[key] <= all[key] <==>
      forall k :: 0 <= k < |Flatten(fewer[key])| ==> Covered(FlowOf(PacketsOf(capture), key).chunks, k)
  {
    hide OneStream, Frames, Collect, Split, IsJoin, Covered;
    var m, start, a, b := CutFlow(cut, capture, key, stream, isn, fewer, all);
    RecordsKeptExactlyWhen(FlowOf(PacketsOf(capture)[..m], key).chunks, FlowOf(PacketsOf(capture), key).chunks,
                           stream, start, a, b);
  }

  /** In particular it does so when no segment after the cut replaces a longer one at the same offset. */
  lemma TruncatedCapture(cut: Bytes, capture: Bytes, key: Key, stream: Bytes, isn: U32,
                         fewer: map<Key, seq<Bytes>>, all: map<Key, seq<Bytes>>)
    requires BothRead(cut, capture, fewer, all) && key in fewer && OneStream(PacketsOf(capture), key, stream, isn)
    requires NeverShrinks(PacketsOf(capture), |Frames(cut, 24, Order(capture).value)|, key)
    ensures key in all && fewer[key] <= all[key]
  {
    hide OneStream, NeverShrinks, Frames, Collect, Present, Split, IsJoin;
    var m, start, a, b := CutFlow(cut, capture, key, stream, isn, fewer, all);
    var frames := PacketsOf(capture);
    assert frames == frames[..|frames|];
    GrowsAfter(frames, m, key);
    GrownFlowKeepsRecords(FlowOf(frames[..m], key).chunks, FlowOf(frames, key).chunks, stream, start, a, b);
  }

  lemma GrowsAfter(frames: seq<Bytes>, m: nat, key: Key)
    requires m <= |frames| && Present(frames[..m], key) && Present(frames, key) && NeverShrinks(frames, m, key)
    ensures Grew(FlowOf(frames[..m], key).chunks, FlowOf(frames, key).chunks)
  {
    hide NeverShrinks, Collect, Grew;
    assert frames == frames[..|frames|];
    FlowGrows(frames, m, |frames|, key);
  }

  /** A capture that can be read can be read at every earlier moment, with no more flows and packets. */
  lemma TruncationStillReads(cut: Bytes, capture: Bytes)
    requires HeaderOk(capture) && 24 <= |cut| && cut <= capture
    requires Collect(Frames(capture, 24, Order(capture).value)).Flows?
    ensures HeaderOk(cut) && Order(cut) == Order(capture)
    ensures var e := Order(capture).value;
            var c := Collect(Frames(cut, 24, e));
            && c.Flows? && c.flows.Keys <= Collect(Frames(capture, 24, e)).flows.Keys
            && |Frames(cut, 24, e)| <= |Frames(capture, 24, e)|
  {
    var e := Order(capture).value;
    HeaderOfPrefix(cut, capture);
    FramesOfPrefix(cut, capture, 24, e);
    PrefixCollects(Frames(cut, 24, e), Frames(capture, 24, e));
  }

  lemma PrefixCollects(fewer: seq<Bytes>, frames: seq<Bytes>)
    requires fewer <= frames && Collect(frames).Flows?
    ensures Collect(fewer).Flows? && Collect(fewer).flows.Keys <= Collect(frames).flows.Keys
  {
    assert fewer == frames[..|fewer|] && frames == frames[..|frames|];
    if Collect(fewer).Crashed? {
      CrashStays(frames, |fewer|);
    }
    forall key | key in Collect(fewer).flows
      ensures key in Collect(frames).flows
    {
      StaysPresent(frames, |fewer|, |frames|, key);
    }
  }
}
