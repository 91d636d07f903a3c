/**
 From a packet capture file, possibly still being written, to the TLS records of every TCP
 flow on port 4443.
 */
module Capture {
  import opened Bytes
  import opened TlsRecords
  import opened TcpReassembly

  const PORT := 4443

  datatype Endian = Little | Big

  datatype Key = Key(source: Bytes, sourcePort: U16, dest: Bytes, destPort: U16)

  // ---- the capture file ----

  /** The byte order, from the four magic numbers the audit knows. */
  function Order(capture: Bytes): Option<Endian>
  {
    if |capture| < 4 then None
    else
      var magic := capture[..4];
      if magic == [0xd4, 0xc3, 0xb2, 0xa1] || magic == [0x4d, 0x3c, 0xb2, 0xa1] then Some(Little)
      else if magic == [0xa1, 0xb2, 0xc3, 0xd4] || magic == [0xa1, 0xb2, 0x3c, 0x4d] then Some(Big)
      else None
  }

  function Field(capture: Bytes, at: nat, e: Endian): (n: U32)
    requires at + 4 <= |capture|
  {
    if e.Big? then Long(capture, at)
    else Long([capture[at + 3], capture[at + 2], capture[at + 1], capture[at]], 0)
  }

  predicate HeaderOk(capture: Bytes)
  {
    Order(capture).Some? && |capture| >= 24 && Field(capture, 20, Order(capture).value) == 1
  }

  /** A whole packet record, header and body, stands at `offset`. */
  predicate HasFrame(capture: Bytes, offset: nat, e: Endian)
  {
    offset + 16 <= |capture| && Field(capture, offset + 8, e) <= |capture| - offset - 16
  }

  function FrameEnd(capture: Bytes, offset: nat, e: Endian): (end: nat)
    requires HasFrame(capture, offset, e)
    ensures offset + 16 <= end <= |capture|
  {
    offset + 16 + Field(capture, offset + 8, e)
  }

  /** The frames from `offset` on, up to the first record that is not all there. */
  function Frames(capture: Bytes, offset: nat, e: Endian): seq<Bytes>
    decreases |capture| - offset
  {
    if !HasFrame(capture, offset, e) then []
    else
      var end := FrameEnd(capture, offset, e);
      [capture[offset + 16..end]] + Frames(capture, end, e)
  }

  // ---- one frame ----

  datatype Packet = Skip | Broken | Segment(key: Key, seqno: U32, payload: Bytes)

  function Slice(data: Bytes, from: nat, end: nat): Bytes
    requires from <= |data|
  {
    var stop := if end < |data| then end else |data|;
    if stop < from then [] else data[from..stop]
  }

  /**
   What the audit takes from a frame.  A TCP packet whose IP total length leaves fewer than
   13 bytes of TCP header stops the whole audit with an index error: `Broken`.
   */
  function ParsePacket(frame: Bytes): (p: Packet)
    ensures p.Segment? ==> p.payload != []
  {
    if |frame| < 54 || frame[12..14] != [8, 0] then Skip else ParseIp(frame[14..])
  }

  function ParseIp(ip: Bytes): (p: Packet)
    requires |ip| >= 40
    ensures p.Segment? ==> p.payload != []
  {
    var ihl := ip[0] % 16 * 4;
    if ip[0] / 16 != 4 || ip[9] != 6 || |ip| < ihl + 20 then Skip
    else ParseTcp(ip[12..16], ip[16..20], Slice(ip, ihl, Word(ip, 2)))
  }

  function ParseTcp(from: Bytes, target: Bytes, tcp: Bytes): (p: Packet)
    ensures p.Segment? ==> p.payload != []
  {
    if |tcp| <= 12 then Broken
    else
      var thl := tcp[12] / 16 * 4;
      if |tcp| <= thl then Skip
      else
        var source, dest := Word(tcp, 0), Word(tcp, 2);
        if source != PORT && dest != PORT then Skip
        else Segment(Key(from, source, target, dest), Long(tcp, 4), tcp[thl..])
  }

  // ---- all frames ----

  datatype Collected = Flows(flows: map<Key, Flow>) | Crashed

  function AddSegment(flows: map<Key, Flow>, key: Key, seqno: U32, payload: Bytes): map<Key, Flow>
  {
    var flow := if key in flows then flows[key] else Flow(seqno, map[]);
    flows[key := Deliver(flow, seqno, payload)]
  }

  function Add(c: Collected, p: Packet): Collected
  {
    if c.Crashed? || p.Broken? then Crashed
    else if p.Skip? then c
    else Flows(AddSegment(c.flows, p.key, p.seqno, p.payload))
  }

  function Collect(frames: seq<Bytes>): Collected
  {
    if frames == [] then Flows(map[])
    else Add(Collect(frames[..|frames| - 1]), ParsePacket(frames[|frames| - 1]))
  }

  lemma CollectAppend(frames: seq<Bytes>, frame: Bytes)
    ensures Collect(frames + [frame]) == Add(Collect(frames), ParsePacket(frame))
  {
    assert (frames + [frame])[..|frames|] == frames;
  }

  lemma {:induction false} CrashStays(frames: seq<Bytes>, m: nat)
    requires m <= |frames| && Collect(frames[..m]).Crashed?
    ensures Collect(frames).Crashed?
    decreases |frames| - m
  {
    if m == |frames| {
      assert frames[..m] == frames;
    } else {
      assert frames[..m + 1][..m] == frames[..m];
      CrashStays(frames, m + 1);
    }
  }

  /** The record list of each flow is the split of the bytes its chunks join to. */
  ghost predicate IsResult(flows: map<Key, Flow>, result: map<Key, seq<Bytes>>)
  {
    && result.Keys == flows.Keys
    && forall key :: key in flows ==> exists joined :: IsJoin(flows[key].chunks, joined) && result[key] == Split(joined)
  }

  datatype Outcome = Streams(streams: map<Key, seq<Bytes>>, packets: nat) | UnknownMagic | BadHeader | ShortSegment

  method ReadStreams(capture: Bytes) returns (r: Outcome)
    ensures r.UnknownMagic? <==> Order(capture).None?
    ensures r.BadHeader? <==> Order(capture).Some? && !HeaderOk(capture)
    ensures r.ShortSegment? <==> HeaderOk(capture) && Collect(Frames(capture, 24, Order(capture).value)).Crashed?
    ensures r.Streams? ==> r.packets == |Frames(capture, 24, Order(capture).value)|
                           && IsResult(Collect(Frames(capture, 24, Order(capture).value)).flows, r.streams)
  {
    var order := Order(capture);
    if order.None? {
      return UnknownMagic;
    }
    var e := order.value;
    if |capture| < 24 || Field(capture, 20, e) != 1 {
      return BadHeader;
    }
    var frames := ReadFrames(capture, e);
    var c := CollectFlows(frames);
    if c.Crashed? {
      return ShortSegment;
    }
    var streams := SplitFlows(c.flows);
    return Streams(streams, |frames|);
  }

  /** The walk over the file. */
  method ReadFrames(capture: Bytes, e: Endian) returns (frames: seq<Bytes>)
    requires |capture| >= 24
    ensures frames == Frames(capture, 24, e)
  {
    hide Frames, Field;
    var offset := 24;
    frames := [];
    while offset + 16 <= |capture|
      invariant 24 <= offset <= |capture|
      invariant frames + Frames(capture, offset, e) == Frames(capture, 24, e)
    {
      NextFrame(capture, offset, e);
      var size := Field(capture, offset + 8, e);
      if size > |capture| - offset - 16 {
        break;
      }
      var end := offset + 16 + size;
      ConcatAssoc(frames, [capture[offset + 16..end]], Frames(capture, end, e));
      frames := frames + [capture[offset + 16..end]];
      offset := end;
    }
    NextFrame(capture, offset, e);
    assert frames + [] == frames;
  }

  lemma NextFrame(capture: Bytes, offset: nat, e: Endian)
    ensures Frames(capture, offset, e) ==
      if HasFrame(capture, offset, e) then
        [capture[offset + 16..FrameEnd(capture, offset, e)]] + Frames(capture, FrameEnd(capture, offset, e), e)
      else []
  {
    hide Field;
  }

  /** The flows of the frames seen; the source does this in the same pass. */
  method CollectFlows(frames: seq<Bytes>) returns (c: Collected)
    ensures c == Collect(frames)
  {
    var flows: map<Key, Flow> := map[];
    for i := 0 to |frames|
      invariant Collect(frames[..i]) == Flows(flows)
    {
      assert frames[..i + 1] == frames[..i] + [frames[i]];
      CollectAppend(frames[..i], frames[i]);
      var p := ParsePacket(frames[i]);
      if p.Broken? {
        CrashStays(frames, i + 1);
        return Crashed;
      }
      if p.Segment? {
        flows := Record(flows, p.key, p.seqno, p.payload);
      }
    }
    assert frames[..|frames|] == frames;
    return Flows(flows);
  }

  /**
   Keeps a payload by its distance from the first sequence number seen on its flow: no other flow
   is touched, the flow's first number stays, and at most the chunk at that distance changes.
   */
  method Record(flows: map<Key, Flow>, key: Key, seqno: U32, payload: Bytes) returns (flows': map<Key, Flow>)
    ensures flows'.Keys == flows.Keys + {key} && forall k :: k in flows && k != key ==> flows'[k] == flows[k]
    ensures flows'[key].first == if key in flows then flows[key].first else seqno
    ensures forall r: nat :: r in flows'[key].chunks <==>
      (key in flows && r in flows[key].chunks) || r == Relative(flows'[key].first, seqno) <= REACH
    ensures forall r: nat :: r in flows'[key].chunks ==>
      flows'[key].chunks[r] == if r == Relative(flows'[key].first, seqno) <= REACH then payload else flows[key].chunks[r]
    ensures flows' == AddSegment(flows, key, seqno, payload)
  {
    var flow := if key in flows then flows[key] else Flow(seqno, map[]);
    var relative := (seqno - flow.first) % MODULUS;
    if relative <= REACH {
      flow := flow.(chunks := flow.chunks[relative := payload]);
    }
    flows' := flows[key := flow];
  }

  method SplitFlows(flows: map<Key, Flow>) returns (streams: map<Key, seq<Bytes>>)
    ensures IsResult(flows, streams)
  {
    streams := map[];
    var rest := flows.Keys;
    while rest != {}
      invariant rest <= flows.Keys && streams.Keys == flows.Keys - rest
      invariant forall key :: key in streams ==>
        exists joined :: IsJoin(flows[key].chunks, joined) && streams[key] == Split(joined)
      decreases |rest|
    {
      var key :| key in rest;
      var joined := Join(flows[key].chunks);
      var records := SplitLenient(joined);
      assert IsJoin(flows[key].chunks, joined) && records == Split(joined);
      streams := streams[key := records];
      rest := rest - {key};
    }
  }
}
