/**
 Ethernet frames as a sender of TCP over IPv4 builds them (section 3.1 of RFC 791, section 3.1 of
 RFC 9293), and what the capture audit takes from them.
 */
module CaptureFrames {
  import opened Bytes
  import opened Capture

  /** Everything in a frame that the audit does not look at. */
  datatype Noise = Noise(macs: Bytes, service: Byte, ident: Bytes, ttl: Byte, ipCheck: Bytes, ipOptions: Bytes,
                         ack: Bytes, reserved: nat, control: Bytes, tcpOptions: Bytes, padding: Bytes) {
    ghost predicate Sized()
    {
      && |macs| == 12 && |ident| == 4 && |ipCheck| == 2 && |ack| == 4 && |control| == 7 && reserved < 16
      && |ipOptions| % 4 == 0 && |ipOptions| <= 40 && |tcpOptions| % 4 == 0 && |tcpOptions| <= 40
    }
  }

  function Address(key: Key): Bytes
  {
    key.source + key.dest
  }

  ghost predicate Addressed(key: Key)
  {
    |key.source| == 4 && |key.dest| == 4
  }

  function IpHeader(key: Key, total: U16, n: Noise): (h: Bytes)
    requires n.Sized() && Addressed(key)
    ensures |h| == 20 + |n.ipOptions|
  {
    [0x45 + |n.ipOptions| / 4, n.service] + Put16(total) + n.ident + [n.ttl, 6] + n.ipCheck + Address(key) + n.ipOptions
  }

  function TcpHeader(key: Key, seqno: U32, n: Noise): (h: Bytes)
    requires n.Sized()
    ensures |h| == 20 + |n.tcpOptions|
  {
    var offset: Byte := (5 + |n.tcpOptions| / 4) * 16 + n.reserved;
    Put16(key.sourcePort) + Put16(key.destPort) + Put32(seqno) + n.ack + [offset] + n.control + n.tcpOptions
  }

  function Frame(key: Key, seqno: U32, payload: Bytes, n: Noise): Bytes
    requires n.Sized() && Addressed(key) && 40 + |n.ipOptions| + |n.tcpOptions| + |payload| < 0x1_0000
  {
    n.macs + [8, 0]
    + (IpHeader(key, 40 + |n.ipOptions| + |n.tcpOptions| + |payload|, n)
       + (TcpHeader(key, seqno, n) + payload) + n.padding)
  }

  lemma SixParts(a: Bytes, b: Bytes, c: Bytes, d: Bytes, e: Bytes, f: Bytes, g: Bytes)
    requires |a| == |b| == |d| == |e| == 2 && |c| == 4 && |f| == 8
    ensures (a + b + c + d + e + f + g)[0..2] == a && (a + b + c + d + e + f + g)[2..4] == b
    ensures (a + b + c + d + e + f + g)[8..10] == d && (a + b + c + d + e + f + g)[12..20] == f
  {
  }

  lemma IpFields(key: Key, total: U16, n: Noise)
    requires n.Sized() && Addressed(key)
    ensures IpHeader(key, total, n)[0] == 0x45 + |n.ipOptions| / 4 && IpHeader(key, total, n)[9] == 6
    ensures Word(IpHeader(key, total, n), 2) == total
    ensures IpHeader(key, total, n)[12..16] == key.source && IpHeader(key, total, n)[16..20] == key.dest
  {
    var a: Bytes, d: Bytes := [0x45 + |n.ipOptions| / 4, n.service], [n.ttl, 6];
    var h := IpHeader(key, total, n);
    SixParts(a, Put16(total), n.ident, d, n.ipCheck, Address(key), n.ipOptions);
    assert h[0] == h[0..2][0] && h[9] == h[8..10][1];
    WordOfSlice(h, 2, 4, 0);
    assert h[12..16] == h[12..20][..4] && h[16..20] == h[12..20][4..];
  }

  lemma TcpParts(a: Bytes, b: Bytes, c: Bytes, d: Bytes, e: Bytes, f: Bytes)
    requires |a| == |b| == 2 && |c| == |d| == 4 && |e| == 1
    ensures (a + b + c + d + e + f)[0..2] == a && (a + b + c + d + e + f)[2..4] == b
    ensures (a + b + c + d + e + f)[4..8] == c && (a + b + c + d + e + f)[12] == e[0]
  {
  }

  lemma TcpRegroup(fixed: Bytes, control: Bytes, options: Bytes, payload: Bytes)
    ensures fixed + control + options + payload == fixed + (control + options + payload)
  {
  }

  lemma TcpFields(key: Key, seqno: U32, payload: Bytes, n: Noise)
    requires n.Sized()
    ensures Word(TcpHeader(key, seqno, n) + payload, 0) == key.sourcePort
    ensures Word(TcpHeader(key, seqno, n) + payload, 2) == key.destPort
    ensures Long(TcpHeader(key, seqno, n) + payload, 4) == seqno
    ensures (TcpHeader(key, seqno, n) + payload)[12] / 16 * 4 == |TcpHeader(key, seqno, n)|
  {
    hide Put16, Put32, Word, Long;
    var offset: Byte := (5 + |n.tcpOptions| / 4) * 16 + n.reserved;
    var tcp, behind := TcpHeader(key, seqno, n) + payload, n.control + n.tcpOptions + payload;
    TcpRegroup(Put16(key.sourcePort) + Put16(key.destPort) + Put32(seqno) + n.ack + [offset], n.control, n.tcpOptions, payload);
    TcpParts(Put16(key.sourcePort), Put16(key.destPort), Put32(seqno), n.ack, [offset], behind);
    WordOfSlice(tcp, 0, 2, 0);
    WordOfSlice(tcp, 2, 4, 0);
    LongOfSlice(tcp, 4, 8, 0);
  }

  /** The parts of a packet behind the Ethernet header, wherever the frame is padded. */
  lemma Behind(header: Bytes, tcp: Bytes, padding: Bytes)
    requires |header| >= 20
    ensures Slice(header + tcp + padding, |header|, |header| + |tcp|) == tcp
    ensures Word(header + tcp + padding, 2) == Word(header, 2)
    ensures (header + tcp + padding)[0] == header[0] && (header + tcp + padding)[9] == header[9]
    ensures (header + tcp + padding)[12..16] == header[12..16] && (header + tcp + padding)[16..20] == header[16..20]
  {
  }

  /**
   A frame built around a payload is taken for exactly that: its flow, its sequence number and
   its payload, without the options before it or the padding after it. Without a payload, or away
   from the audited port, it is skipped.
   */
  lemma BuiltFrameIsRead(key: Key, seqno: U32, payload: Bytes, n: Noise)
    requires n.Sized() && Addressed(key) && 40 + |n.ipOptions| + |n.tcpOptions| + |payload| < 0x1_0000
    ensures ParsePacket(Frame(key, seqno, payload, n)) ==
      if payload != [] && (key.sourcePort == PORT || key.destPort == PORT) then Segment(key, seqno, payload) else Skip
  {
    hide ParsePacket, ParseIp, ParseTcp, IpHeader, TcpHeader;
    var total := 40 + |n.ipOptions| + |n.tcpOptions| + |payload|;
    var header, tcp := IpHeader(key, total, n), TcpHeader(key, seqno, n) + payload;
    EthernetPayload(n.macs, header + tcp + n.padding);
    IpPayload(key, total, n, tcp);
    TcpPayload(key, seqno, payload, n);
  }

  lemma EthernetPayload(macs: Bytes, ip: Bytes)
    requires |macs| == 12 && |ip| >= 40
    ensures ParsePacket(macs + [8, 0] + ip) == ParseIp(ip)
  {
    var frame := macs + [8, 0] + ip;
    assert frame[12..14] == [8, 0] && frame[14..] == ip;
  }

  lemma IpPayload(key: Key, total: U16, n: Noise, tcp: Bytes)
    requires n.Sized() && Addressed(key) && total == 20 + |n.ipOptions| + |tcp| && |tcp| >= 20
    ensures ParseIp(IpHeader(key, total, n) + tcp + n.padding) == ParseTcp(key.source, key.dest, tcp)
  {
    hide IpHeader, ParseTcp, Slice, Word;
    IpFields(key, total, n);
    Behind(IpHeader(key, total, n), tcp, n.padding);
  }

  lemma TcpPayload(key: Key, seqno: U32, payload: Bytes, n: Noise)
    requires n.Sized()
    ensures ParseTcp(key.source, key.dest, TcpHeader(key, seqno, n) + payload) ==
      if payload != [] && (key.sourcePort == PORT || key.destPort == PORT) then Segment(key, seqno, payload) else Skip
  {
    hide TcpHeader, Word, Long;
    var header := TcpHeader(key, seqno, n);
    TcpFields(key, seqno, payload, n);
    assert (header + payload)[|header|..] == payload;
  }

  // ---- the capture file ----

  /** Time and original length of a captured packet. */
  datatype Stamp = Stamp(time: Bytes, original: Bytes) {
    ghost predicate Sized()
    {
      |time| == 8 && |original| == 4
    }
  }

  function PutField(n: U32, e: Endian): (out: Bytes)
    ensures |out| == 4 && Field(out, 0, e) == n
  {
    var b := Put32(n);
    if e.Big? then b
    else
      assert [b[0], b[1], b[2], b[3]] == b;
      [b[3], b[2], b[1], b[0]]
  }

  function PutRecord(stamp: Stamp, frame: Bytes, e: Endian): (out: Bytes)
    requires stamp.Sized() && |frame| < 0x1_0000_0000
    ensures |out| == 16 + |frame|
  {
    stamp.time + PutField(|frame|, e) + stamp.original + frame
  }

  ghost predicate Writable(stamps: seq<Stamp>, frames: seq<Bytes>)
  {
    |stamps| == |frames| && forall i :: 0 <= i < |frames| ==> stamps[i].Sized() && |frames[i]| < 0x1_0000_0000
  }

  ghost function PutRecords(stamps: seq<Stamp>, frames: seq<Bytes>, e: Endian): Bytes
    requires Writable(stamps, frames)
  {
    if frames == [] then [] else PutRecord(stamps[0], frames[0], e) + PutRecords(stamps[1..], frames[1..], e)
  }

  lemma FieldInside(before: Bytes, field: Bytes, after: Bytes, e: Endian)
    requires |field| == 4
    ensures Field(before + field + after, |before|, e) == Field(field, 0, e)
  {
    var data := before + field + after;
    assert data[|before|..|before| + 4] == field;
    LongOfSlice(data, |before|, |before| + 4, 0);
  }

  lemma RecordInside(before: Bytes, stamp: Stamp, frame: Bytes, after: Bytes, e: Endian)
    requires stamp.Sized() && |frame| < 0x1_0000_0000
    ensures var file := before + PutRecord(stamp, frame, e) + after;
            && HasFrame(file, |before|, e) && FrameEnd(file, |before|, e) == |before| + 16 + |frame|
            && file[|before| + 16..|before| + 16 + |frame|] == frame
  {
    var field := PutField(|frame|, e);
    var file := before + PutRecord(stamp, frame, e) + after;
    assert file == before + stamp.time + field + (stamp.original + frame + after);
    FieldInside(before + stamp.time, field, stamp.original + frame + after, e);
  }

  lemma FirstFrame(file: Bytes, offset: nat, frame: Bytes, e: Endian)
    requires HasFrame(file, offset, e) && file[offset + 16..FrameEnd(file, offset, e)] == frame
    ensures Frames(file, offset, e) == [frame] + Frames(file, offset + 16 + |frame|, e)
  {
    hide Frames, Field;
    NextFrame(file, offset, e);
  }

  lemma TailAlone(before: Bytes, tail: Bytes, e: Endian)
    ensures HasFrame(before + tail, |before|, e) == HasFrame(tail, 0, e)
  {
    if |tail| >= 16 {
      assert before + tail == before + tail[..8] + tail[8..12] + tail[12..];
      FieldInside(before + tail[..8], tail[8..12], tail[12..], e);
      assert tail == tail[..8] + tail[8..12] + tail[12..];
      FieldInside(tail[..8], tail[8..12], tail[12..], e);
    }
  }

  lemma Regroup(a: Bytes, b: Bytes, c: Bytes, d: Bytes)
    ensures a + (b + c) + d == a + b + (c + d) == (a + b) + c + d
  {
  }

  /** The packets written to a capture are the packets read, whatever incomplete record follows. */
  lemma {:induction false} WrittenFramesAreRead(before: Bytes, stamps: seq<Stamp>, frames: seq<Bytes>, tail: Bytes, e: Endian)
    requires Writable(stamps, frames) && !HasFrame(tail, 0, e)
    ensures Frames(before + PutRecords(stamps, frames, e) + tail, |before|, e) == frames
    decreases |frames|
  {
    hide PutRecord, HasFrame, FrameEnd;
    if frames == [] {
      assert before + [] + tail == before + tail;
      TailAlone(before, tail, e);
    } else {
      var first, rest := PutRecord(stamps[0], frames[0], e), PutRecords(stamps[1..], frames[1..], e);
      Regroup(before, first, rest, tail);
      RecordInside(before, stamps[0], frames[0], rest + tail, e);
      FirstFrame(before + first + (rest + tail), |before|, frames[0], e);
      WrittenFramesAreRead(before + first, stamps[1..], frames[1..], tail, e);
    }
  }
}
