/** A capture in which a later segment costs a record that was already found. */
module CaptureLoss {
  import opened Bytes
  import opened TlsRecords
  import opened TcpReassembly
  import opened Capture
  import opened CaptureFrames
  import opened CaptureTruncation

  lemma PartHasNoRecord(record: Bytes, part: Bytes)
    requires IsRecord(record) && part < record
    ensures Split(part) == []
  {
    if |part| >= TlsRecords.HEADER {
      assert Word(part, 3) == Word(record, 3);
    }
  }

  lemma RecordAlone(record: Bytes)
    requires IsRecord(record)
    ensures Split(record) == [record]
  {
    assert record + [] == record;
    SplitRecord(record, []);
  }

  lemma JoinOfOne(chunk: Bytes)
    ensures IsJoin(map[0 := chunk], chunk)
  {
    var chunks: Chunks := map[0 := chunk];
    forall k | 0 <= k < |chunk|
      ensures Supplied(chunks, chunk, k)
    {
      assert ByteFrom(chunks, 0, chunk, k);
    }
  }

  lemma OneSegment(key: Key, seqno: U32, payload: Bytes, n: Noise)
    requires Sendable(key, payload, n)
    ensures Collect([Frame(key, seqno, payload, n)]) == Flows(map[key := Flow(seqno, map[0 := payload])])
  {
    hide Frame, ParsePacket;
    var f := Frame(key, seqno, payload, n);
    BuiltFrameIsRead(key, seqno, payload, n);
    assert [f] == [] + [f];
    CollectAppend([], f);
  }

  /** The second segment starts where the first did and takes its place. */
  lemma TwoSegments(key: Key, seqno: U32, first: Bytes, second: Bytes, n: Noise)
    requires Sendable(key, first, n) && Sendable(key, second, n)
    ensures Collect([Frame(key, seqno, first, n), Frame(key, seqno, second, n)])
         == Flows(map[key := Flow(seqno, map[0 := second])])
  {
    hide Frame, ParsePacket;
    var f, g := Frame(key, seqno, first, n), Frame(key, seqno, second, n);
    OneSegment(key, seqno, first, n);
    BuiltFrameIsRead(key, seqno, second, n);
    assert [f, g] == [f] + [g];
    CollectAppend([f], g);
    Replaced(key, seqno, first, second);
  }

  lemma Replaced(key: Key, seqno: U32, first: Bytes, second: Bytes)
    ensures AddSegment(map[key := Flow(seqno, map[0 := first])], key, seqno, second)
         == map[key := Flow(seqno, map[0 := second])]
  {
    var was: Chunks := map[0 := first];
    assert was[0 := second] == map[0 := second];
  }

  /** The flow is audited, the payload is not empty and the packet has a legal length. */
  ghost predicate Sendable(key: Key, payload: Bytes, n: Noise)
  {
    && n.Sized() && Addressed(key) && (key.sourcePort == PORT || key.destPort == PORT)
    && payload != [] && 40 + |n.ipOptions| + |n.tcpOptions| + |payload| < 0x1_0000 && |n.padding| < 0x1_0000
  }

  /** What the audit reports for a flow that kept one chunk. */
  lemma ReportOfOne(key: Key, seqno: U32, chunk: Bytes, result: map<Key, seq<Bytes>>)
    requires IsResult(map[key := Flow(seqno, map[0 := chunk])], result)
    ensures result == map[key := Split(chunk)]
  {
    hide IsJoin, Split;
    var flows: map<Key, Flow> := map[key := Flow(seqno, map[0 := chunk])];
    var joined := JoinOf(flows, result, key);
    JoinOfOne(chunk);
    JoinUnique(map[0 := chunk], joined, chunk);
    assert result.Keys == {key};
  }

  lemma OneIsResult(key: Key, seqno: U32, chunk: Bytes)
    ensures IsResult(map[key := Flow(seqno, map[0 := chunk])], map[key := Split(chunk)])
  {
    hide IsJoin, Split;
    JoinOfOne(chunk);
  }

  lemma HeaderStays(header: Bytes, rest: Bytes)
    requires HeaderOk(header) && |header| == 24
    ensures HeaderOk(header + rest) && Order(header + rest) == Order(header)
  {
    var capture, e := header + rest, Order(header).value;
    assert capture[..4] == header[..4];
    FieldOfPrefix(header, capture, 20, e);
  }

  ghost function Written(header: Bytes, stamp: Stamp, frames: seq<Bytes>): Bytes
    requires HeaderOk(header) && stamp.Sized() && forall i :: 0 <= i < |frames| ==> |frames[i]| < 0x1_0000_0000
  {
    header + PutRecords(seq(|frames|, _ => stamp), frames, Order(header).value)
  }

  lemma WrittenLength(header: Bytes, stamp: Stamp, frames: seq<Bytes>)
    requires HeaderOk(header) && stamp.Sized() && forall i :: 0 <= i < |frames| ==> |frames[i]| < 0x1_0000_0000
    ensures |header| <= |Written(header, stamp, frames)|
  {
  }

  lemma WrittenReads(header: Bytes, stamp: Stamp, frames: seq<Bytes>)
    requires HeaderOk(header) && |header| == 24 && stamp.Sized()
    requires forall i :: 0 <= i < |frames| ==> |frames[i]| < 0x1_0000_0000
    ensures HeaderOk(Written(header, stamp, frames)) && PacketsOf(Written(header, stamp, frames)) == frames
    ensures Order(Written(header, stamp, frames)) == Order(header)
  {
    hide Frames, PutRecords, Order;
    var e, stamps := Order(header).value, seq(|frames|, _ => stamp);
    var body := PutRecords(stamps, frames, e);
    HeaderStays(header, body);
    assert header + body + [] == header + body;
    NoFrame(e);
    WrittenFramesAreRead(header, stamps, frames, [], e);
  }

  lemma NoFrame(e: Endian)
    ensures !HasFrame([], 0, e)
  {
  }

  lemma FrameShort(key: Key, seqno: U32, payload: Bytes, n: Noise)
    requires Sendable(key, payload, n)
    ensures |Frame(key, seqno, payload, n)| == 54 + |n.ipOptions| + |n.tcpOptions| + |payload| + |n.padding|
  {
  }

  ghost function First(key: Key, seqno: U32, record: Bytes, n: Noise): seq<Bytes>
    requires Sendable(key, record, n)
  {
    [Frame(key, seqno, record, n)]
  }

  ghost function Both(key: Key, seqno: U32, record: Bytes, part: Bytes, n: Noise): seq<Bytes>
    requires Sendable(key, record, n) && Sendable(key, part, n)
  {
    [Frame(key, seqno, record, n), Frame(key, seqno, part, n)]
  }

  lemma WrittenMore(header: Bytes, stamp: Stamp, f: Bytes, g: Bytes)
    requires HeaderOk(header) && stamp.Sized() && |f| < 0x1_0000_0000 && |g| < 0x1_0000_0000
    ensures Written(header, stamp, [f]) <= Written(header, stamp, [f, g])
  {
    hide PutRecord;
    var e := Order(header).value;
    var one, two := seq(1, _ => stamp), seq(2, _ => stamp);
    assert one[1..] == [] && [f][1..] == [];
    assert PutRecords(one, [f], e) == PutRecord(stamp, f, e) + [];
    assert two[1..] == one && [f, g][1..] == [g];
    assert PutRecords(two, [f, g], e) == PutRecord(stamp, f, e) + PutRecords(one, [g], e);
  }

  lemma SameStream(key: Key, seqno: U32, record: Bytes, part: Bytes, n: Noise)
    requires Sendable(key, record, n) && Sendable(key, part, n) && part < record
    ensures OneStream(Both(key, seqno, record, part, n), key, record, seqno)
  {
    hide Frame, ParsePacket;
    BuiltFrameIsRead(key, seqno, record, n);
    BuiltFrameIsRead(key, seqno, part, n);
    assert SegmentOf(seqno, record, record, seqno, 0);
    assert SegmentOf(seqno, part, record, seqno, 0);
  }

  /**
   A record arrives in one segment, and a part of it arrives again under the same number, as a
   retransmission may.  The capture cut after the first packet reports the record, and the whole
   capture reports none, although both packets carry bytes of one stream.
   */
  lemma ShorterCopyLosesRecord(header: Bytes, stamp: Stamp, key: Key, seqno: U32, record: Bytes, part: Bytes, n: Noise)
    requires HeaderOk(header) && |header| == 24 && stamp.Sized() && IsRecord(record) && part < record
    requires Sendable(key, record, n) && Sendable(key, part, n)
    ensures |Frame(key, seqno, record, n)| < 0x1_0000_0000 && |Frame(key, seqno, part, n)| < 0x1_0000_0000
    ensures HeaderOk(Written(header, stamp, Both(key, seqno, record, part, n)))
    ensures OneStream(PacketsOf(Written(header, stamp, Both(key, seqno, record, part, n))), key, record, seqno)
    ensures Written(header, stamp, First(key, seqno, record, n)) <= Written(header, stamp, Both(key, seqno, record, part, n))
    ensures BothRead(Written(header, stamp, First(key, seqno, record, n)),
                     Written(header, stamp, Both(key, seqno, record, part, n)), map[key := [record]], map[key := []])
    ensures forall fewer, all ::
      BothRead(Written(header, stamp, First(key, seqno, record, n)),
               Written(header, stamp, Both(key, seqno, record, part, n)), fewer, all)
      ==> fewer == map[key := [record]] && all == map[key := []]
  {
    FrameShort(key, seqno, record, n);
    FrameShort(key, seqno, part, n);
    hide Frame, Frames, ParsePacket, Written, HeaderOk, Collect, IsResult, OneStream, Split;
    var fs, gs := First(key, seqno, record, n), Both(key, seqno, record, part, n);
    WrittenReads(header, stamp, fs);
    WrittenReads(header, stamp, gs);
    WrittenMore(header, stamp, fs[0], gs[1]);
    SameStream(key, seqno, record, part, n);
    OneSegment(key, seqno, record, n);
    TwoSegments(key, seqno, record, part, n);
    RecordAlone(record);
    PartHasNoRecord(record, part);
    OneIsResult(key, seqno, record);
    OneIsResult(key, seqno, part);
    WrittenLength(header, stamp, fs);
    forall fewer, all | BothRead(Written(header, stamp, fs), Written(header, stamp, gs), fewer, all)
      ensures fewer == map[key := [record]] && all == map[key := []]
    {
      ReportOfOne(key, seqno, record, fewer);
      ReportOfOne(key, seqno, part, all);
    }
  }
}
