/**
 The sending half: inner packets are copied into the pending envelope, several packets to a
 record or one packet over several records, with record sizes picked at random.
 */
module Recordizer {
  import opened Bytes
  import opened RecordizerWire
  import Reassembler
  import opened RecordizerDelivery

  datatype Config = Config(opportunistic: bool, noDelay: bool, maxPackets: nat, maxPayload: nat,
                           fragment: bool, maxFragments: nat, maxPacket: nat) {
    /** What configuration validation guarantees. */
    predicate Checked()
    {
      maxPackets > 0 && maxPayload >= MIN_RECORD && maxFragments > 0
    }

    /** The most packet bytes one record can carry. */
    function Capacity(): nat
      requires Checked()
      ensures Capacity() > 0
    {
      maxPayload - |MAGIC| - HEADER
    }

    /** The most slices a packet is cut into. */
    function SliceLimit(): nat
    {
      if fragment then maxFragments else 1
    }
  }

  datatype PushResult = Ready(records: seq<Bytes>) | PacketSize

  function Ceil(a: nat, b: nat): nat
    requires b > 0
  {
    (a + b - 1) / b
  }

  lemma CeilAtMost(a: nat, b: nat, n: nat)
    requires b > 0
    ensures Ceil(a, b) <= n <==> a <= n * b
  {
    var q := (a + b - 1) / b;
    assert q * b <= a + b - 1 < q * b + b;
    if q <= n {
      assert q * b <= n * b;
    } else {
      assert (n + 1) * b <= q * b;
    }
  }

  /** The packets the sender takes: it refuses any other and nothing but those. */
  predicate Admissible(c: Config, packet: Bytes)
    requires c.Checked()
  {
    && 0 < |packet| <= c.maxPacket && |packet| < 0x1_0000
    && if c.fragment then |packet| <= c.maxFragments * c.Capacity() else |packet| <= c.Capacity()
  }

  // ---- slices cut one after another ----

  function Slice(id: U32, packet: Bytes, offset: nat, take: nat): (f: Frame)
    requires 0 < take && offset + take <= |packet| < 0x1_0000
    ensures SliceOf(f, id, packet)
  {
    Frame(id, |packet|, offset, packet[offset..offset + take])
  }

  ghost predicate InOrder(fs: seq<Frame>, id: U32, packet: Bytes, end: nat)
  {
    if fs == [] then end == 0
    else
      var last := fs[|fs| - 1];
      SliceOf(last, id, packet) && last.End() == end && InOrder(fs[..|fs| - 1], id, packet, last.offset)
  }

  lemma InOrderAppend(fs: seq<Frame>, id: U32, packet: Bytes, f: Frame)
    requires InOrder(fs, id, packet, f.offset) && SliceOf(f, id, packet)
    ensures InOrder(fs + [f], id, packet, f.End())
  {
    assert (fs + [f])[..|fs|] == fs;
  }

  lemma {:induction false} InOrderParts(fs: seq<Frame>, id: U32, packet: Bytes, end: nat)
    requires InOrder(fs, id, packet, end)
    ensures forall i :: 0 <= i < |fs| ==> SliceOf(fs[i], id, packet) && fs[i].End() <= end
    ensures Reassembler.Disjoint(ChunksOf(fs)) && Reassembler.SumLen(ChunksOf(fs)) == end
  {
    hide Reassembler.SumLen, Reassembler.Disjoint, SliceOf;
    if fs == [] {
      NoChunks();
      assert ChunksOf(fs) == [];
    } else {
      var front, last := fs[..|fs| - 1], fs[|fs| - 1];
      var chunk := Reassembler.Chunk(last.offset, |last.payload|);
      InOrderParts(front, id, packet, last.offset);
      assert forall i :: 0 <= i < |front| ==> fs[i] == front[i];
      assert ChunksOf(fs) == ChunksOf(front) + [chunk];
      Reassembler.SumLenAppend(ChunksOf(front), chunk);
      DisjointAppend(ChunksOf(front), chunk);
    }
  }

  lemma NoChunks()
    ensures Reassembler.Disjoint([]) && Reassembler.SumLen([]) == 0
  {
  }

  lemma DisjointAppend(cs: seq<Reassembler.Chunk>, c: Reassembler.Chunk)
    requires Reassembler.Disjoint(cs) && forall i :: 0 <= i < |cs| ==> cs[i].offset + cs[i].len <= c.offset
    ensures Reassembler.Disjoint(cs + [c])
  {
  }

  lemma InOrderIsCut(fs: seq<Frame>, id: U32, packet: Bytes)
    requires packet != [] && InOrder(fs, id, packet, |packet|)
    ensures Cut(fs, id, packet)
  {
    InOrderParts(fs, id, packet, |packet|);
  }

  lemma {:induction false} SlicesAppend(log: seq<Sent>, s: Sent)
    ensures Slices(log + [s]) == Slices(log) + s.slices
  {
    if log == [] {
      assert log + [s] == [s];
      assert Slices([s]) == s.slices + Slices([]);
    } else {
      SlicesAppend(log[1..], s);
      assert (log + [s])[1..] == log[1..] + [s];
      ConcatAssoc(log[0].slices, Slices(log[1..]), s.slices);
    }
  }

  lemma FlattenAppend<T>(groups: seq<seq<T>>, g: seq<T>)
    ensures Flatten(groups + [g]) == Flatten(groups) + g
  {
    FlattenConcat(groups, [g]);
    assert Flatten([g]) == g + Flatten<T>([]);
  }

  lemma FlattenFlushed<T>(groups: seq<seq<T>>, g: seq<T>)
    ensures Flatten(groups + [g]) + [] == Flatten(groups) + g
  {
    FlattenAppend(groups, g);
    assert Flatten(groups + [g]) + [] == Flatten(groups + [g]);
  }

  /** A packet taken, with the slices it was cut into. */
  type Taken = s: Sent | Cut(s.slices, s.id, s.packet) ghost witness Sent(0, [0], [Frame(0, 1, 0, [0])])

  function Max(a: nat, b: nat): nat
  {
    if a < b then b else a
  }

  ghost predicate Within(log: seq<Sent>, packetCap: nat, sliceCap: nat)
  {
    forall i :: 0 <= i < |log| ==> |log[i].packet| <= packetCap && |log[i].slices| <= sliceCap
  }

  ghost predicate AllWithin(records: seq<Bytes>, limit: nat)
  {
    forall i :: 0 <= i < |records| ==> |records[i]| <= limit
  }

  lemma OneMoreEnvelope(wire: seq<Bytes>, groups: seq<seq<Frame>>, fs: seq<Frame>, limit: nat)
    requires Envelopes(wire, groups) && AllWithin(wire, limit)
    requires fs != [] && |MAGIC + PutFrames(fs)| <= limit
    ensures Envelopes(wire + [MAGIC + PutFrames(fs)], groups + [fs])
    ensures AllWithin(wire + [MAGIC + PutFrames(fs)], limit)
  {
  }

  class Sender {
    var config: Config
    var current: Bytes
    var target: nat
    var packets: nat
    var nextId: U32
    /** The frames inside `current`, the records handed out, and the packets taken so far. */
    ghost var frames: seq<Frame>
    ghost var wire: seq<Bytes>
    ghost var groups: seq<seq<Frame>>
    ghost var log: seq<Taken>
    /** The largest packet size and slice count that any configuration so far allowed. */
    ghost var packetCap: nat
    ghost var sliceCap: nat

    /** The pending envelope and the records already out are what the history says. */
    ghost predicate Consistent()
      reads this
    {
      && config.Checked()
      && packets == |frames|
      && (current == [] ==> frames == [])
      && (current != [] ==> current == MAGIC + PutFrames(frames) && |current| <= target <= config.maxPayload)
      && Envelopes(wire, groups) && AllWithin(wire, config.maxPayload)
    }

    /** Every frame sent or pending, in order. */
    ghost function Stream(): seq<Frame>
      reads this
    {
      Flatten(groups) + frames
    }

    /** Between calls: no pending envelope is without frames. */
    ghost predicate Settled()
      reads this
    {
      Consistent() && (current != [] ==> frames != [])
    }

    ghost predicate Valid()
      reads this
    {
      Settled() && Stream() == Slices(log) && Capped()
    }

    /** The caps cover the configuration in use and every packet taken under this or an earlier one. */
    ghost predicate Capped()
      reads this
    {
      config.maxPacket <= packetCap && config.SliceLimit() <= sliceCap && Within(log, packetCap, sliceCap)
    }

    ghost predicate Kept(config: Config, nextId: U32, log: seq<Taken>, packetCap: nat, sliceCap: nat)
      reads this
    {
      && this.config == config && this.nextId == nextId && this.log == log
      && this.packetCap == packetCap && this.sliceCap == sliceCap
    }

    constructor (config: Config, firstId: U32)
      requires config.Checked()
      ensures Valid() && this.config == config && log == [] && wire == []
      ensures packetCap == config.maxPacket && sliceCap == config.SliceLimit()
    {
      this.config := config;
      current, target, packets, nextId := [], 0, 0, firstId;
      frames, wire, groups, log := [], [], [], [];
      packetCap, sliceCap := config.maxPacket, config.SliceLimit();
    }

    /** Replaces the configuration unless the payload ceiling would shrink; a pending record keeps its own target. */
    method RaiseRuntime(next: Config) returns (ok: bool)
      requires Valid() && next.Checked()
      modifies `config, `packetCap, `sliceCap
      ensures Valid() && ok == (next.maxPayload >= old(config.maxPayload))
      ensures config == if ok then next else old(config)
      ensures packetCap == if ok then Max(old(packetCap), next.maxPacket) else old(packetCap)
      ensures sliceCap == if ok then Max(old(sliceCap), next.SliceLimit()) else old(sliceCap)
    {
      hide Flatten, PutFrames, Envelopes, Slices;
      if next.maxPayload < config.maxPayload {
        return false;
      }
      config := next;
      packetCap, sliceCap := Max(packetCap, next.maxPacket), Max(sliceCap, next.SliceLimit());
      return true;
    }

    method Flush() returns (record: Option<Bytes>)
      requires Settled()
      modifies this
      ensures Consistent() && current == [] && frames == []
      ensures Kept(old(config), old(nextId), old(log), old(packetCap), old(sliceCap))
      ensures Stream() == old(Stream())
      ensures record.Some? <==> old(current) != []
      ensures wire == if record.Some? then old(wire) + [record.value] else old(wire)
    {
      hide Flatten, PutFrames, Envelopes, AllWithin;
      if current == [] {
        return None;
      }
      record := Some(current);
      OneMoreEnvelope(wire, groups, frames, config.maxPayload);
      FlattenFlushed(groups, frames);
      wire, groups := wire + [current], groups + [frames];
      current, target, packets, frames := [], 0, 0, [];
    }

    /** Sends the pending envelope out if `now` says so. */
    method FlushIf(now: bool) returns (ready: seq<Bytes>)
      requires Settled()
      modifies this
      ensures Settled() && Kept(old(config), old(nextId), old(log), old(packetCap), old(sliceCap))
      ensures now ==> current == []
      ensures Stream() == old(Stream()) && wire == old(wire) + ready
      ensures !now ==> current == old(current) && frames == old(frames)
    {
      ready := [];
      if now {
        var record := Flush();
        if record.Some? {
          ready := [record.value];
        }
      }
    }

    /** Starts an envelope if none is pending; its size is any the configuration may draw. */
    method EnsureRecord()
      requires Consistent()
      modifies `current, `target
      ensures Consistent() && current != []
      ensures old(current) != [] ==> current == old(current) && target == old(target)
      ensures old(current) == [] ==> current == MAGIC && target >= MIN_RECORD
    {
      if current == [] {
        current := MAGIC;
        var drawn: nat :| MIN_RECORD <= drawn <= config.maxPayload;
        target := drawn;
        assert PutFrames(frames) == [] && MAGIC + [] == MAGIC;
      }
    }

    method AppendFrame(f: Frame)
      requires Consistent() && current != []
      requires packets < config.maxPackets && |current| + HEADER + |f.payload| <= target
      modifies `current, `packets, `frames
      ensures Consistent() && current != [] && frames == old(frames) + [f]
      ensures Stream() == old(Stream()) + [f]
    {
      hide Flatten, PutFrames, PutFrame, Envelopes, AllWithin;
      PutFramesAppend(frames, f);
      ConcatAssoc(MAGIC, PutFrames(frames), PutFrame(f));
      ConcatAssoc(Flatten(groups), frames, [f]);
      current := current + PutFrame(f);
      packets := packets + 1;
      frames := frames + [f];
    }

    method AppendAndFlush(f: Frame) returns (ready: seq<Bytes>)
      requires Consistent() && current != []
      requires packets < config.maxPackets && |current| + HEADER + |f.payload| <= target
      modifies this
      ensures Settled() && Kept(old(config), old(nextId), old(log), old(packetCap), old(sliceCap))
      ensures Stream() == old(Stream()) + [f] && wire == old(wire) + ready
    {
      hide Flatten, PutFrames, Envelopes, AllWithin;
      AppendFrame(f);
      ready := FlushIf(|current| >= target || packets >= config.maxPackets);
    }

    /** Room for a whole packet: the random size gives way, then the pending envelope does. */
    method MakeRoom(size: nat) returns (ready: seq<Bytes>)
      requires Settled() && size <= config.Capacity()
      modifies this
      ensures Consistent() && current != [] && Kept(old(config), old(nextId), old(log), old(packetCap), old(sliceCap))
      ensures packets < config.maxPackets && |current| + HEADER + size <= target
      ensures Stream() == old(Stream()) && wire == old(wire) + ready
    {
      hide Flatten, Envelopes, AllWithin;
      ready := [];
      EnsureRecord();
      var tooBig := |current| + HEADER + size > target;
      if packets == 0 && tooBig {
        assert PutFrames(frames) == [];
        target := config.maxPayload;
      } else if tooBig || packets >= config.maxPackets {
        ready := FlushIf(true);
        EnsureRecord();
        target := config.maxPayload;
      }
    }

    /** Fragmentation off: the packet goes into one record. */
    method PushWhole(id: U32, packet: Bytes) returns (ready: seq<Bytes>, ghost slices: seq<Frame>)
      requires Settled()
      requires 0 < |packet| < 0x1_0000 && |packet| <= config.Capacity()
      modifies this
      ensures Settled() && Kept(old(config), old(nextId), old(log), old(packetCap), old(sliceCap))
      ensures InOrder(slices, id, packet, |packet|) && |slices| == 1
      ensures Stream() == old(Stream()) + slices && wire == old(wire) + ready
    {
      hide Flatten, PutFrames, Envelopes, AllWithin;
      ready := MakeRoom(|packet|);
      var f := Slice(id, packet, 0, |packet|);
      AppendFrame(f);
      InOrderAppend([], id, packet, f);
      slices := [] + [f];
    }

    /** Gets an envelope ready for the next slice, of the full size once no slack is left. */
    method Prepare(noSlack: bool) returns (ready: seq<Bytes>)
      requires Settled()
      modifies this
      ensures Consistent() && current != [] && Kept(old(config), old(nextId), old(log), old(packetCap), old(sliceCap))
      ensures Stream() == old(Stream()) && wire == old(wire) + ready
      ensures || (current == old(current) && frames == old(frames))
              || (frames == [] && |current| == |MAGIC| && target >= MIN_RECORD)
      ensures noSlack ==> frames == [] && |current| == |MAGIC| && target == config.maxPayload
    {
      hide Flatten, PutFrames, Envelopes, AllWithin;
      ready := FlushIf(noSlack);
      EnsureRecord();
      if noSlack {
        target := config.maxPayload;
      }
    }

    /**
     One turn of the slicing loop: either a slice goes in, or a full envelope goes out
     (`take` is 0) and the next turn has a fresh one.
     */
    method PlaceSlice(id: U32, packet: Bytes, offset: nat, left: nat, capacity: nat)
      returns (take: nat, ready: seq<Bytes>)
      requires Settled() && offset < |packet| < 0x1_0000
      requires capacity == config.Capacity() && left > 0 && |packet| - offset <= left * capacity
      modifies this
      ensures Settled() && Kept(old(config), old(nextId), old(log), old(packetCap), old(sliceCap)) && wire == old(wire) + ready
      ensures take == 0 ==> Stream() == old(Stream()) && old(current) != [] && current == []
      ensures take > 0 ==> offset + take <= |packet| && Stream() == old(Stream()) + [Slice(id, packet, offset, take)]
      ensures take > 0 ==> |packet| - offset - take <= (left - 1) * capacity
    {
      hide Flatten, PutFrames, Envelopes, AllWithin, Ceil;
      var remaining := |packet| - offset;
      var minimum := Ceil(remaining, capacity);
      CeilAtMost(remaining, capacity, left);
      CeilAtMost(remaining, capacity, left - 1);
      ready := Prepare(minimum == left);
      if packets >= config.maxPackets || target - |current| <= HEADER {
        assert frames != [];
        var more := FlushIf(true);
        ConcatAssoc(old(wire), ready, more);
        return 0, ready + more;
      }
      var available := target - |current| - HEADER;
      take := if available < remaining then available else remaining;
      FragmentsLeft(remaining, take, left, capacity);
      var more := AppendAndFlush(Slice(id, packet, offset, take));
      ConcatAssoc(old(wire), ready, more);
      ready := ready + more;
    }

    /**
     Fragmentation on.  The random record sizes may waste fragments, but never so many that
     the packet could not be finished within the receiver's cap: once no slack is left, only
     full records are used, and so the refusal the source keeps inside this loop never happens.
     */
    method PushSlices(id: U32, packet: Bytes) returns (ready: seq<Bytes>, ghost slices: seq<Frame>)
      requires Settled()
      requires 0 < |packet| < 0x1_0000 && |packet| <= config.maxFragments * config.Capacity()
      modifies this
      ensures Settled() && Kept(old(config), old(nextId), old(log), old(packetCap), old(sliceCap))
      ensures InOrder(slices, id, packet, |packet|) && |slices| <= config.maxFragments
      ensures Stream() == old(Stream()) + slices && wire == old(wire) + ready
    {
      hide Flatten, PutFrames, Envelopes, AllWithin;
      var offset, left: nat, capacity := 0, config.maxFragments, config.Capacity();
      ready, slices := [], [];
      assert old(Stream()) + [] == old(Stream());
      while offset < |packet|
        invariant Settled() && Kept(old(config), old(nextId), old(log), old(packetCap), old(sliceCap))
        invariant offset <= |packet| && InOrder(slices, id, packet, offset)
        invariant left + |slices| == config.maxFragments && |packet| - offset <= left * capacity
        invariant Stream() == old(Stream()) + slices && wire == old(wire) + ready
        decreases |packet| - offset, if current == [] then 0 else 1
      {
        SomeLeft(|packet| - offset, left, capacity);
        var take, more := PlaceSlice(id, packet, offset, left, capacity);
        ConcatAssoc(old(wire), ready, more);
        ready := ready + more;
        if take > 0 {
          ghost var f := Slice(id, packet, offset, take);
          InOrderAppend(slices, id, packet, f);
          ConcatAssoc(old(Stream()), slices, [f]);
          slices := slices + [f];
          left := left - 1;
          offset := offset + take;
        }
      }
    }

    /** Takes an admissible packet; the records that became full on the way are returned. */
    method Take(id: U32, packet: Bytes) returns (ready: seq<Bytes>, ghost slices: seq<Frame>)
      requires Valid() && Admissible(config, packet)
      modifies this
      ensures Valid() && config == old(config) && packetCap == old(packetCap) && sliceCap == old(sliceCap)
      ensures log == old(log) + [Sent(id, packet, slices)] && wire == old(wire) + ready
      ensures |slices| <= config.SliceLimit()
    {
      hide Flatten, PutFrames, Envelopes, AllWithin, Slices, InOrder;
      if config.fragment {
        ready, slices := PushSlices(id, packet);
      } else {
        ready, slices := PushWhole(id, packet);
      }
      InOrderIsCut(slices, id, packet);
      SlicesAppend(log, Sent(id, packet, slices));
      log := log + [Sent(id, packet, slices)];
      var more := FlushIf(!config.opportunistic && config.noDelay);
      ConcatAssoc(old(wire), ready, more);
      ready := ready + more;
    }

    method Push(packet: Bytes) returns (r: PushResult, ghost slices: seq<Frame>)
      requires Valid()
      modifies this
      ensures Valid() && config == old(config) && packetCap == old(packetCap) && sliceCap == old(sliceCap)
      ensures r.Ready? <==> Admissible(config, packet)
      ensures r.PacketSize? ==> log == old(log) && wire == old(wire) && current == old(current)
      ensures r.Ready? ==> wire == old(wire) + r.records && log == old(log) + [Sent(old(nextId), packet, slices)]
      ensures r.Ready? ==> |slices| <= config.SliceLimit()
    {
      slices := [];
      if packet == [] || |packet| > config.maxPacket || |packet| > 0xffff {
        return PacketSize, [];
      }
      var id := nextId;
      CeilAtMost(|packet|, config.Capacity(), config.maxFragments);
      if config.fragment && Ceil(|packet|, config.Capacity()) > config.maxFragments {
        return PacketSize, [];
      }
      nextId := (nextId + 1) % 0x1_0000_0000;
      if !config.fragment && |MAGIC| + HEADER + |packet| > config.maxPayload {
        return PacketSize, [];
      }
      var ready;
      ready, slices := Take(id, packet);
      r := Ready(ready);
    }

    method FinishReadyBatch() returns (record: Option<Bytes>)
      requires Valid()
      modifies this
      ensures Valid() && config == old(config) && log == old(log)
      ensures record.Some? <==> config.opportunistic && old(current) != []
      ensures wire == if record.Some? then old(wire) + [record.value] else old(wire)
    {
      if config.opportunistic {
        record := Flush();
      } else {
        record := None;
      }
    }
  }

  lemma SomeLeft(remaining: nat, left: nat, capacity: nat)
    requires 0 < remaining <= left * capacity
    ensures left > 0
  {
  }

  lemma FragmentsLeft(remaining: nat, take: nat, left: nat, capacity: nat)
    requires capacity > 0 && left > 0 && 0 < take <= remaining <= left * capacity
    requires remaining <= (left - 1) * capacity || take == remaining || take == capacity
    ensures remaining - take <= (left - 1) * capacity
  {
    assert left * capacity == (left - 1) * capacity + capacity;
    assert (left - 1) * capacity >= 0;
  }

  /** A receiver that takes whatever fits the caps. */
  ghost predicate Matches(lim: Reassembler.Limits, packetCap: nat, sliceCap: nat)
  {
    && packetCap <= lim.maxPacket
    && (sliceCap > 1 ==> sliceCap <= lim.maxFragments && 0 < lim.maxInflight && packetCap <= lim.maxBuffered)
  }

  /**
   End to end over an ordered carrier: take any reachable sender state with nothing pending and
   a receiver whose limits cover the sender's; deliver the records in order, any `sliceCap` of
   them in a row within the timeout, and the receiver hands out exactly the packets pushed.
   */
  lemma EndToEnd(tx: Sender, lim: Reassembler.Limits, times: seq<int>)
    requires tx.Valid() && tx.current == []
    requires Matches(lim, tx.packetCap, tx.sliceCap)
    requires |times| == |tx.wire| && Steady(lim, tx.sliceCap, times)
    ensures DecodeAll(lim, EMPTY, tx.wire, times).outcome == Reassembler.Ok(Packets(tx.log))
  {
    var log := tx.log;
    assert AllDeliverable(lim, log);
    if log != [] {
      assert log[0].slices[0..] == log[0].slices;
    }
    assert Rest(log, 0) == Slices(log);
    StreamDelivered(lim, log, 0, 0, 0, tx.sliceCap, tx.groups, [], tx.wire, times);
  }
}
