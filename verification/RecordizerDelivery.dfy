/**
 What the receiver delivers.  Whatever order, loss or repetition the network adds, only
 packets that were sent come out; and the slices of one packet, in any order, give it back.
 Over an ordered carrier the whole stream of packets comes out unchanged.
 */
module RecordizerDelivery {
  import opened Bytes
  import opened RecordizerWire
  import opened Reassembler

  ghost predicate SliceOf(f: Frame, id: U32, packet: Bytes)
  {
    f.id == id && f.total == |packet| && f.payload == packet[f.offset..f.End()]
  }

  /** The bytes filled in so far are the packet's bytes. */
  ghost predicate Holds(p: Pending, packet: Bytes)
  {
    && |p.bytes| == |packet| && Inside(p.chunks, |packet|)
    && forall c :: c in p.chunks ==> p.bytes[c.offset..c.offset + c.len] == packet[c.offset..c.offset + c.len]
  }

  ghost predicate Faithful(st: State, sent: map<U32, Bytes>)
  {
    forall id :: id in st.pending ==> id in sent && Holds(st.pending[id], sent[id])
  }

  lemma ExtendHolds(lim: Limits, p: Pending, f: Frame, packet: Bytes)
    requires Holds(p, packet) && SliceOf(f, f.id, packet) && Extendable(lim, p, f)
    ensures Holds(Extend(p, f), packet)
  {
    var p' := Extend(p, f);
    var chunk := Chunk(f.offset, |f.payload|);
    forall c | c in p'.chunks
      ensures p'.bytes[c.offset..c.offset + c.len] == packet[c.offset..c.offset + c.len]
    {
      if c in p.chunks {
        assert !chunk.Overlaps(c);
        assert p'.bytes[c.offset..c.offset + c.len] == p.bytes[c.offset..c.offset + c.len];
      } else {
        assert c == chunk;
        assert p'.bytes[f.offset..f.End()] == f.payload;
      }
    }
  }

  /** A packet whose disjoint slices add up to its length is complete and right. */
  lemma CompleteIsThePacket(p: Pending, packet: Bytes)
    requires Holds(p, packet) && Disjoint(p.chunks) && SumLen(p.chunks) == |packet|
    ensures p.bytes == packet
  {
    hide SumLen, Disjoint;
    forall i | 0 <= i < |packet|
      ensures p.bytes[i] == packet[i]
    {
      FullCoverage(p.chunks, |packet|, i);
      var c :| c in p.chunks && c.offset <= i < c.offset + c.len;
      assert p.bytes[c.offset..c.offset + c.len][i - c.offset] == packet[c.offset..c.offset + c.len][i - c.offset];
    }
  }

  lemma StoreFaithful(lim: Limits, st: State, f: Frame, sent: map<U32, Bytes>)
    requires f.id in st.pending && f.id in sent && Faithful(st, sent) && SliceOf(f, f.id, sent[f.id])
    requires |st.pending[f.id].chunks| < lim.maxFragments ==> Extendable(lim, st.pending[f.id], f)
    ensures Faithful(Store(lim, st, f).state, sent)
    ensures forall out :: Store(lim, st, f).outcome == Ok(Some(out)) ==> out == sent[f.id]
  {
    if |st.pending[f.id].chunks| < lim.maxFragments {
      var p := Extend(st.pending[f.id], f);
      ExtendHolds(lim, st.pending[f.id], f, sent[f.id]);
      ExtendKeeps(lim, st.pending[f.id], f);
      if p.received == |p.bytes| {
        CompleteIsThePacket(p, sent[f.id]);
      }
    }
  }

  lemma OpenFaithful(lim: Limits, st: State, f: Frame, now: int, sent: map<U32, Bytes>)
    requires Faithful(st, sent) && f.id !in st.pending && f.total <= lim.maxPacket
    requires f.id in sent && SliceOf(f, f.id, sent[f.id]) && !(f.offset == 0 && |f.payload| == f.total)
    ensures Faithful(Open(st, f, now), sent)
    ensures 0 < lim.maxFragments ==> Extendable(lim, OpenPacket(f, now), f)
  {
  }

  /** No corruption, at any moment and in any order: what a frame completes is the packet sent. */
  lemma StepFaithful(lim: Limits, st: State, f: Frame, now: int, sent: map<U32, Bytes>)
    requires StateOk(lim, st) && Faithful(st, sent)
    requires f.id in sent && SliceOf(f, f.id, sent[f.id])
    ensures Faithful(StepFrame(lim, st, f, now).state, sent)
    ensures forall out :: StepFrame(lim, st, f, now).outcome == Ok(Some(out)) ==> out == sent[f.id]
  {
    hide StateOk, Store, StepKnown, Extendable, Holds;
    if f.total > lim.maxPacket || (f.offset == 0 && |f.payload| == f.total) {
    } else if f.id in st.pending {
      KnownFaithful(lim, st, f, sent);
    } else if |st.pending| < lim.maxInflight && st.buffered + f.total <= lim.maxBuffered {
      OpenFaithful(lim, st, f, now, sent);
      StoreFaithful(lim, Open(st, f, now), f, sent);
    }
  }

  lemma KnownFaithful(lim: Limits, st: State, f: Frame, sent: map<U32, Bytes>)
    requires StateOk(lim, st) && Faithful(st, sent) && f.id in st.pending && f.total <= lim.maxPacket
    requires f.id in sent && SliceOf(f, f.id, sent[f.id])
    ensures Faithful(StepKnown(lim, st, f).state, sent)
    ensures forall out :: StepKnown(lim, st, f).outcome == Ok(Some(out)) ==> out == sent[f.id]
  {
    hide SumLen, TotalBytes, Store;
    var p, chunk := st.pending[f.id], Chunk(f.offset, |f.payload|);
    if chunk !in p.chunks && !(exists c :: c in p.chunks && chunk.Overlaps(c)) {
      StoreFaithful(lim, st, f, sent);
    }
  }

  ghost predicate AllHonest(fs: seq<Frame>, sent: map<U32, Bytes>)
  {
    forall i :: 0 <= i < |fs| ==> fs[i].id in sent && SliceOf(fs[i], fs[i].id, sent[fs[i].id])
  }

  // ---- records that hold well-formed frames ----

  ghost function RunFrames(lim: Limits, st: State, fs: seq<Frame>, now: int): Run
    decreases |fs|
  {
    if fs == [] then Run(st, Ok([]))
    else
      var s := StepFrame(lim, st, fs[0], now);
      Then(s, RunFrames(lim, s.state, fs[1..], now))
  }

  lemma WalkParsed(lim: Limits, st: State, record: Bytes, cursor: nat, now: int, f: Frame, next: nat)
    requires cursor < |record| && ParseFrame(record, cursor) == Parsed(f, next)
    ensures var s := StepFrame(lim, st, f, now);
            Walk(lim, st, record, cursor, now) == Then(s, Walk(lim, s.state, record, next, now))
  {
  }

  lemma WalkPut(lim: Limits, st: State, before: Bytes, f: Frame, after: Bytes, now: int)
    ensures var record := before + PutFrame(f) + after;
            var s := StepFrame(lim, st, f, now);
            Walk(lim, st, record, |before|, now) == Then(s, Walk(lim, s.state, record, |before + PutFrame(f)|, now))
  {
    ParsePut(before, f, after);
    WalkParsed(lim, st, before + PutFrame(f) + after, |before|, now, f, |before + PutFrame(f)|);
  }

  /** Walking the bytes of a record is running its frames. */
  lemma {:induction false} WalkIsRun(lim: Limits, st: State, before: Bytes, fs: seq<Frame>, now: int)
    ensures Walk(lim, st, before + PutFrames(fs), |before|, now) == RunFrames(lim, st, fs, now)
    decreases |fs|
  {
    if fs == [] {
      assert before + PutFrames(fs) == before;
    } else {
      var f, rest := fs[0], fs[1..];
      var record, past := before + PutFrames(fs), before + PutFrame(f);
      assert record == past + PutFrames(rest) by {
        assert fs == [f] + rest;
        PutFramesCons(f, rest);
        ConcatAssoc(before, PutFrame(f), PutFrames(rest));
      }
      WalkPut(lim, st, before, f, PutFrames(rest), now);
      WalkIsRun(lim, StepFrame(lim, st, f, now).state, past, rest, now);
    }
  }

  /** Any run on honest records, in any order and with any repetition, delivers sent packets only. */
  lemma {:induction false} RunFaithful(lim: Limits, st: State, fs: seq<Frame>, now: int, sent: map<U32, Bytes>)
    requires StateOk(lim, st) && Faithful(st, sent) && AllHonest(fs, sent)
    ensures var r := RunFrames(lim, st, fs, now);
            Faithful(r.state, sent)
            && (r.outcome.Ok? ==> forall out :: out in r.outcome.value ==> out in sent.Values)
    decreases |fs|
  {
    hide StepFrame, StateOk, Faithful, SliceOf;
    if fs != [] {
      StepFaithful(lim, st, fs[0], now, sent);
      StepKeeps(lim, st, fs[0], now);
      var s := StepFrame(lim, st, fs[0], now);
      RunFaithful(lim, s.state, fs[1..], now, sent);
      assert s.outcome.Ok? ==> forall out :: out in Emitted(s.outcome.value) ==> out == sent[fs[0].id];
    }
  }

  // ---- the slices of one packet ----

  ghost function ChunksOf(fs: seq<Frame>): (cs: seq<Chunk>)
    ensures |cs| == |fs|
  {
    seq(|fs|, i requires 0 <= i < |fs| => Chunk(fs[i].offset, |fs[i].payload|))
  }

  /** `fs` cuts `packet` into disjoint slices, one or more, in whatever order. */
  ghost predicate Cut(fs: seq<Frame>, id: U32, packet: Bytes)
  {
    && |fs| > 0
    && (forall i :: 0 <= i < |fs| ==> SliceOf(fs[i], id, packet))
    && Disjoint(ChunksOf(fs)) && SumLen(ChunksOf(fs)) == |packet|
  }

  /** The pending packet after the first `n` slices. */
  ghost function Grown(fs: seq<Frame>, n: nat, id: U32, packet: Bytes, now: int): (p: Pending)
    requires n <= |fs| && Cut(fs, id, packet)
    ensures p.chunks == ChunksOf(fs[..n]) && p.createdAt == now && |p.bytes| == |packet|
    decreases n
  {
    if n == 0 then
      assert ChunksOf(fs[..0]) == [];
      OpenPacket(fs[0], now)
    else
      assert ChunksOf(fs[..n]) == ChunksOf(fs[..n - 1]) + [Chunk(fs[n - 1].offset, |fs[n - 1].payload|)];
      Extend(Grown(fs, n - 1, id, packet, now), fs[n - 1])
  }

  /** What the receiver must have room for before the first slice arrives. */
  ghost predicate Room(lim: Limits, base: State, fs: seq<Frame>, id: U32, packet: Bytes)
  {
    && id !in base.pending && |packet| <= lim.maxPacket
    && (|fs| > 1 ==> |fs| <= lim.maxFragments && |base.pending| < lim.maxInflight && base.buffered + |packet| <= lim.maxBuffered)
  }

  /** The receiver after the first `n` slices, started at time `t` on top of `base`. */
  ghost function Mid(base: State, fs: seq<Frame>, n: nat, id: U32, packet: Bytes, t: int): State
    requires n <= |fs| && Cut(fs, id, packet)
  {
    if n == 0 then base
    else State(base.pending[id := Grown(fs, n, id, packet, t)], base.buffered + |packet|)
  }

  lemma {:induction false} PrefixSum(cs: seq<Chunk>, n: nat)
    requires n <= |cs| && forall i :: 0 <= i < |cs| ==> 0 < cs[i].len
    ensures SumLen(cs[..n]) <= SumLen(cs)
    ensures n < |cs| ==> SumLen(cs[..n]) + cs[n].len <= SumLen(cs)
    ensures 0 < n < |cs| ==> cs[n].len < SumLen(cs)
    decreases |cs| - n
  {
    if n == |cs| {
      assert cs[..n] == cs;
    } else {
      PrefixSum(cs, n + 1);
      assert cs[..n + 1][..n] == cs[..n];
      if n > 0 {
        assert cs[..n][..n - 1] == cs[..n - 1];
      }
    }
  }

  lemma CutParts(fs: seq<Frame>, id: U32, packet: Bytes, n: nat)
    requires Cut(fs, id, packet) && n < |fs|
    ensures SumLen(ChunksOf(fs[..n])) + |fs[n].payload| == SumLen(ChunksOf(fs[..n + 1])) <= |packet|
    ensures SumLen(ChunksOf(fs[..n + 1])) == |packet| <==> n + 1 == |fs|
    ensures |fs| > 1 ==> |fs[n].payload| < |packet|
  {
    hide SumLen, Disjoint;
    var cs := ChunksOf(fs);
    assert ChunksOf(fs[..n]) == cs[..n] && ChunksOf(fs[..n + 1]) == cs[..n + 1];
    assert cs[..n + 1] == cs[..n] + [cs[n]];
    SumLenAppend(cs[..n], cs[n]);
    PrefixSum(cs, n);
    PrefixSum(cs, n + 1);
    assert n + 1 == |fs| ==> cs[..n + 1] == cs;
  }

  lemma CutExtendable(lim: Limits, fs: seq<Frame>, n: nat, id: U32, packet: Bytes, p: Pending)
    requires Cut(fs, id, packet) && n < |fs| <= lim.maxFragments && |packet| <= lim.maxPacket
    requires p.chunks == ChunksOf(fs[..n]) && |p.bytes| == |packet| && p.received == SumLen(p.chunks)
    ensures Extendable(lim, p, fs[n])
    ensures Chunk(fs[n].offset, |fs[n].payload|) !in p.chunks
  {
    var cs := ChunksOf(fs);
    forall c | c in p.chunks
      ensures !Chunk(fs[n].offset, |fs[n].payload|).Overlaps(c)
    {
      var i :| 0 <= i < n && p.chunks[i] == c;
      assert c == cs[i] && !cs[i].Overlaps(cs[n]);
    }
    assert Disjoint(p.chunks) by {
      assert p.chunks == cs[..n];
    }
  }

  lemma {:induction false} GrownHolds(lim: Limits, fs: seq<Frame>, n: nat, id: U32, packet: Bytes, t: int)
    requires Cut(fs, id, packet) && n <= |fs| <= lim.maxFragments && |packet| <= lim.maxPacket
    ensures var p := Grown(fs, n, id, packet, t);
            Holds(p, packet) && p.received == SumLen(p.chunks)
    decreases n
  {
    if n > 0 {
      var p := Grown(fs, n - 1, id, packet, t);
      GrownHolds(lim, fs, n - 1, id, packet, t);
      CutExtendable(lim, fs, n - 1, id, packet, p);
      ExtendHolds(lim, p, fs[n - 1], packet);
      ExtendKeeps(lim, p, fs[n - 1]);
    }
  }

  /** The next slice either moves the packet on or, being the last, delivers it and leaves no trace. */
  lemma SliceStep(lim: Limits, base: State, fs: seq<Frame>, n: nat, id: U32, packet: Bytes, t: int, now: int)
    requires Cut(fs, id, packet) && n < |fs| && Room(lim, base, fs, id, packet)
    ensures StepFrame(lim, Mid(base, fs, n, id, packet, t), fs[n], now)
         == if n + 1 == |fs| then Step(base, Ok(Some(packet)))
            else Step(Mid(base, fs, n + 1, id, packet, if n == 0 then now else t), Ok(None))
  {
    CutParts(fs, id, packet, n);
    if |fs| == 1 {
      assert ChunksOf(fs[..0]) == [];
      assert fs[0].payload == packet;
    } else if n == 0 {
      StoreSlice(lim, base, Open(base, fs[0], now), fs, 0, id, packet, now);
    } else {
      var st := Mid(base, fs, n, id, packet, t);
      assert StepFrame(lim, st, fs[n], now) == Store(lim, st, fs[n]) by {
        GrownHolds(lim, fs, n, id, packet, t);
        CutExtendable(lim, fs, n, id, packet, Grown(fs, n, id, packet, t));
      }
      StoreSlice(lim, base, st, fs, n, id, packet, t);
    }
  }

  lemma PutPut<K, V>(m: map<K, V>, k: K, a: V, b: V)
    ensures m[k := a][k := b] == m[k := b]
  {
  }

  lemma PutRemove<K, V>(m: map<K, V>, k: K, a: V)
    requires k !in m
    ensures m[k := a] - {k} == m
  {
  }

  lemma StoreOnTop(lim: Limits, base: State, was: Pending, f: Frame)
    requires f.id !in base.pending && Fits(was, f) && |was.chunks| < lim.maxFragments
    ensures Store(lim, State(base.pending[f.id := was], base.buffered + |was.bytes|), f)
         == if Extend(was, f).received == |Extend(was, f).bytes| then Step(base, Ok(Some(Extend(was, f).bytes)))
            else Step(State(base.pending[f.id := Extend(was, f)], base.buffered + |was.bytes|), Ok(None))
  {
    PutPut(base.pending, f.id, was, Extend(was, f));
    PutRemove(base.pending, f.id, Extend(was, f));
  }

  lemma StoreSlice(lim: Limits, base: State, st: State, fs: seq<Frame>, n: nat, id: U32, packet: Bytes, t: int)
    requires Cut(fs, id, packet) && n < |fs| && 1 < |fs| && Room(lim, base, fs, id, packet)
    requires st == State(base.pending[id := Grown(fs, n, id, packet, t)], base.buffered + |packet|)
    ensures Store(lim, st, fs[n])
         == if n + 1 == |fs| then Step(base, Ok(Some(packet)))
            else Step(Mid(base, fs, n + 1, id, packet, t), Ok(None))
  {
    hide Store, Extend, SumLen, Disjoint, Holds;
    var was, p := Grown(fs, n, id, packet, t), Grown(fs, n + 1, id, packet, t);
    assert p == Extend(was, fs[n]);
    assert p.received == |packet| <==> n + 1 == |fs| by {
      CutParts(fs, id, packet, n);
      GrownHolds(lim, fs, n + 1, id, packet, t);
    }
    StoreOnTop(lim, base, was, fs[n]);
    if n + 1 == |fs| {
      GrownComplete(lim, fs, id, packet, t);
    }
  }

  lemma GrownComplete(lim: Limits, fs: seq<Frame>, id: U32, packet: Bytes, t: int)
    requires Cut(fs, id, packet) && |fs| <= lim.maxFragments && |packet| <= lim.maxPacket
    ensures Grown(fs, |fs|, id, packet, t).bytes == packet
  {
    GrownHolds(lim, fs, |fs|, id, packet, t);
    assert fs[..|fs|] == fs;
    CompleteIsThePacket(Grown(fs, |fs|, id, packet, t), packet);
  }

  // ---- an ordered carrier: the stream of packets ----

  datatype Sent = Sent(id: U32, packet: Bytes, slices: seq<Frame>)

  /** The receiver's limits admit this packet as the sender cut it. */
  ghost predicate Deliverable(lim: Limits, s: Sent)
  {
    Cut(s.slices, s.id, s.packet) && Room(lim, EMPTY, s.slices, s.id, s.packet)
  }

  ghost predicate AllDeliverable(lim: Limits, log: seq<Sent>)
  {
    forall i :: 0 <= i < |log| ==> Deliverable(lim, log[i])
  }

  const EMPTY := State(map[], 0)

  ghost function Slices(log: seq<Sent>): seq<Frame>
  {
    if log == [] then [] else log[0].slices + Slices(log[1..])
  }

  function Packets(log: seq<Sent>): seq<Bytes>
  {
    if log == [] then [] else [log[0].packet] + Packets(log[1..])
  }

  lemma {:induction false} PacketsConcat(a: seq<Sent>, b: seq<Sent>)
    ensures Packets(a + b) == Packets(a) + Packets(b)
  {
    if a == [] {
      assert a + b == b;
    } else {
      PacketsConcat(a[1..], b);
      assert (a + b)[1..] == a[1..] + b;
      ConcatAssoc([a[0].packet], Packets(a[1..]), Packets(b));
    }
  }

  lemma PacketsSplit(log: seq<Sent>, i: nat)
    requires i <= |log|
    ensures Packets(log) == Packets(log[..i]) + Packets(log[i..])
  {
    assert log == log[..i] + log[i..];
    PacketsConcat(log[..i], log[i..]);
  }

  /** A position in the stream: `n` slices of the first packet of `log` are already in. */
  ghost predicate At(lim: Limits, log: seq<Sent>, n: nat)
  {
    AllDeliverable(lim, log) && if log == [] then n == 0 else n < |log[0].slices|
  }

  ghost function Rest(log: seq<Sent>, n: nat): seq<Frame>
    requires log != [] ==> n < |log[0].slices|
  {
    if log == [] then [] else log[0].slices[n..] + Slices(log[1..])
  }

  ghost function StateAt(lim: Limits, log: seq<Sent>, n: nat, t: int): State
    requires At(lim, log, n)
  {
    if log == [] then EMPTY else Mid(EMPTY, log[0].slices, n, log[0].id, log[0].packet, t)
  }

  ghost predicate LastSlice(log: seq<Sent>, n: nat)
    requires log != []
  {
    n + 1 == |log[0].slices|
  }

  /** The position after one more slice. */
  ghost function NextLog(log: seq<Sent>, n: nat): seq<Sent>
    requires log != []
  {
    if LastSlice(log, n) then log[1..] else log
  }

  ghost function NextIndex(log: seq<Sent>, n: nat): nat
    requires log != []
  {
    if LastSlice(log, n) then 0 else n + 1
  }

  lemma NextPosition(lim: Limits, log: seq<Sent>, n: nat)
    requires log != [] && At(lim, log, n)
    ensures At(lim, NextLog(log, n), NextIndex(log, n))
    ensures Rest(log, n) == [log[0].slices[n]] + Rest(NextLog(log, n), NextIndex(log, n))
  {
    if LastSlice(log, n) {
      var tail := log[1..];
      if tail != [] {
        assert tail[0].slices[0..] == tail[0].slices;
      }
      assert log[0].slices[n..] == [log[0].slices[n]];
    } else {
      assert log[0].slices[n..] == [log[0].slices[n]] + log[0].slices[n + 1..];
      ConcatAssoc([log[0].slices[n]], log[0].slices[n + 1..], Slices(log[1..]));
    }
  }

  lemma StreamStep(lim: Limits, log: seq<Sent>, n: nat, t: int, now: int)
    requires log != [] && At(lim, log, n)
    ensures At(lim, NextLog(log, n), NextIndex(log, n))
    ensures StepFrame(lim, StateAt(lim, log, n, t), log[0].slices[n], now)
         == Step(StateAt(lim, NextLog(log, n), NextIndex(log, n), if n == 0 then now else t),
                 Ok(if LastSlice(log, n) then Some(log[0].packet) else None))
  {
    var s := log[0];
    NextPosition(lim, log, n);
    SliceStep(lim, EMPTY, s.slices, n, s.id, s.packet, t, now);
  }

  lemma PacketsAdvance(log: seq<Sent>, n: nat, k: nat)
    requires log != [] && k <= |NextLog(log, n)|
    ensures var k' := if LastSlice(log, n) then k + 1 else k;
            && NextLog(log, n)[k..] == log[k'..]
            && Packets(log[..k']) == Emitted(if LastSlice(log, n) then Some(log[0].packet) else None) + Packets(NextLog(log, n)[..k])
  {
    if LastSlice(log, n) {
      assert log[..k + 1][1..] == log[1..][..k];
    }
  }

  lemma NoPackets(log: seq<Sent>)
    ensures Packets(log[..0]) == []
  {
  }

  lemma SomeRest(log: seq<Sent>, n: nat)
    requires log != [] ==> n < |log[0].slices|
    ensures Rest(log, n) != [] ==> log != []
  {
  }

  lemma Uncons<T>(x: T, rest: seq<T>, first: seq<T>, second: seq<T>)
    requires first != [] && [x] + rest == first + second
    ensures first[0] == x && rest == first[1..] + second
  {
    assert (first + second)[0] == first[0] && (first + second)[1..] == first[1..] + second;
    assert ([x] + rest)[1..] == rest;
  }

  /** The next frames of the stream, whatever their number, only move the position on. */
  lemma {:induction false} RunStream(lim: Limits, log: seq<Sent>, n: nat, t: int, fs: seq<Frame>, after: seq<Frame>, now: int)
    returns (k: nat, n': nat, t': int)
    requires At(lim, log, n) && Rest(log, n) == fs + after
    ensures k <= |log| && At(lim, log[k..], n') && Rest(log[k..], n') == after
    ensures RunFrames(lim, StateAt(lim, log, n, t), fs, now) == Run(StateAt(lim, log[k..], n', t'), Ok(Packets(log[..k])))
    ensures k == 0 ==> n' == n + |fs|
    ensures n' > 0 ==> t' == if k == 0 && n > 0 then t else now
    decreases |fs|
  {
    hide StepFrame, StateAt, Rest, Packets;
    if fs == [] {
      k, n', t' := 0, n, t;
      assert log[0..] == log && fs + after == after;
      NoPackets(log);
    } else {
      SomeRest(log, n);
      var later, n1, t1 := NextLog(log, n), NextIndex(log, n), if n == 0 then now else t;
      NextPosition(lim, log, n);
      Uncons(log[0].slices[n], Rest(later, n1), fs, after);
      StreamStep(lim, log, n, t, now);
      var k1;
      k1, n', t' := RunStream(lim, later, n1, t1, fs[1..], after, now);
      k := if LastSlice(log, n) then k1 + 1 else k1;
      PacketsAdvance(log, n, k1);
    }
  }

  // ---- which packets a receiver can take ----

  /** Below both caps, the fragment cap plays no part. */
  lemma CapNotReached(lim: Limits, cap: nat, st: State, f: Frame, now: int)
    requires 0 < lim.maxFragments && 0 < cap
    requires f.id in st.pending ==> |st.pending[f.id].chunks| < lim.maxFragments && |st.pending[f.id].chunks| < cap
    ensures StepFrame(lim, st, f, now) == StepFrame(lim.(maxFragments := cap), st, f, now)
  {
  }

  /** One slice more than the cap allows is refused, however the earlier ones were ordered. */
  lemma {:induction false} TooManySlices(lim: Limits, fs: seq<Frame>, n: nat, id: U32, packet: Bytes, t: int, now: int)
    requires Cut(fs, id, packet) && n <= lim.maxFragments < |fs| && 1 < |fs|
    requires Room(lim.(maxFragments := |fs|), EMPTY, fs, id, packet)
    ensures RunFrames(lim, Mid(EMPTY, fs, n, id, packet, t), fs[n..], now).outcome == Err(ResourceLimit)
    decreases |fs| - n
  {
    hide StepFrame, Mid, Cut;
    var st, wide := Mid(EMPTY, fs, n, id, packet, t), lim.(maxFragments := |fs|);
    assert fs[n..][0] == fs[n] && fs[n..][1..] == fs[n + 1..];
    if n < lim.maxFragments {
      MidCap(EMPTY, fs, n, id, packet, t, lim.maxFragments);
      CapNotReached(lim, |fs|, st, fs[n], now);
      SliceStep(wide, EMPTY, fs, n, id, packet, t, now);
      TooManySlices(lim, fs, n + 1, id, packet, if n == 0 then now else t, now);
    } else {
      CapReached(lim, EMPTY, fs, n, id, packet, t, now);
    }
  }

  lemma MidCap(base: State, fs: seq<Frame>, n: nat, id: U32, packet: Bytes, t: int, cap: nat)
    requires Cut(fs, id, packet) && n < |fs| && n < cap && id !in base.pending
    ensures fs[n].id in Mid(base, fs, n, id, packet, t).pending ==>
      |Mid(base, fs, n, id, packet, t).pending[fs[n].id].chunks| < cap
  {
  }

  /** Once the fragment cap is reached the next slice is refused, and the packet is dropped. */
  lemma CapReached(lim: Limits, base: State, fs: seq<Frame>, n: nat, id: U32, packet: Bytes, t: int, now: int)
    requires Cut(fs, id, packet) && lim.maxFragments <= n < |fs| && 1 < |fs|
    requires id !in base.pending && |packet| <= lim.maxPacket
    ensures StepFrame(lim, Mid(base, fs, n, id, packet, t), fs[n], now) == Step(base, Err(ResourceLimit))
  {
    hide Mid, StepFrame, Cut;
    if n == 0 {
      NoFirst(lim, base, fs, id, packet, t, now);
    } else {
      NoFurther(lim, base, fs, n, id, packet, t, now);
    }
  }

  lemma NoFirst(lim: Limits, base: State, fs: seq<Frame>, id: U32, packet: Bytes, t: int, now: int)
    requires Cut(fs, id, packet) && lim.maxFragments == 0 && 1 < |fs|
    requires id !in base.pending && |packet| <= lim.maxPacket
    ensures StepFrame(lim, Mid(base, fs, 0, id, packet, t), fs[0], now) == Step(base, Err(ResourceLimit))
  {
    hide Disjoint, Inside, SumLen, Grown, Extend;
    CutParts(fs, id, packet, 0);
    PutRemove(base.pending, id, OpenPacket(fs[0], now));
  }

  lemma NoFurther(lim: Limits, base: State, fs: seq<Frame>, n: nat, id: U32, packet: Bytes, t: int, now: int)
    requires Cut(fs, id, packet) && lim.maxFragments <= n < |fs| && 0 < n
    requires id !in base.pending && |packet| <= lim.maxPacket
    ensures StepFrame(lim, Mid(base, fs, n, id, packet, t), fs[n], now) == Step(base, Err(ResourceLimit))
  {
    hide Disjoint, SumLen, Grown, StepKnown, Store;
    var p := Grown(fs, n, id, packet, t);
    var wide := lim.(maxFragments := |fs|);
    CutParts(fs, id, packet, n);
    GrownHolds(wide, fs, n, id, packet, t);
    CutExtendable(wide, fs, n, id, packet, p);
    PutRemove(base.pending, id, p);
    CapDrops(lim, State(base.pending[id := p], base.buffered + |packet|), fs[n]);
  }

  lemma CapDrops(lim: Limits, st: State, f: Frame)
    requires f.id in st.pending && Fits(st.pending[f.id], f) && lim.maxFragments <= |st.pending[f.id].chunks|
    requires forall c :: c in st.pending[f.id].chunks ==> !Chunk(f.offset, |f.payload|).Overlaps(c)
    requires forall c :: c in st.pending[f.id].chunks ==> 0 < c.len
    ensures StepKnown(lim, st, f) == Step(Remove(st, f.id), Err(ResourceLimit))
  {
    hide Extend;
  }

  /**
   A packet, cut in whatever way, gets through an idle receiver exactly when it is no longer
   than the packet limit and, unless it came whole, has no more slices than the fragment cap
   and fits the reassembly budget.
   */
  lemma DeliveredExactlyWhen(lim: Limits, s: Sent, now: int)
    requires Cut(s.slices, s.id, s.packet)
    ensures RunFrames(lim, EMPTY, s.slices, now).outcome == Ok([s.packet]) <==> Room(lim, EMPTY, s.slices, s.id, s.packet)
  {
    if Room(lim, EMPTY, s.slices, s.id, s.packet) {
      assert Rest([s], 0) == s.slices + [];
      var k, n, t := RunStream(lim, [s], 0, now, s.slices, [], now);
      assert k == 1 && [s][..1] == [s];
      assert Packets([s]) == [s.packet] + [] == [s.packet];
    } else {
      RefusedOtherwise(lim, s, now);
    }
  }

  lemma RefusedOtherwise(lim: Limits, s: Sent, now: int)
    requires Cut(s.slices, s.id, s.packet) && !Room(lim, EMPTY, s.slices, s.id, s.packet)
    ensures RunFrames(lim, EMPTY, s.slices, now).outcome.Err?
  {
    var fs := s.slices;
    CutParts(fs, s.id, s.packet, 0);
    if |fs| > 1 && Room(lim.(maxFragments := |fs|), EMPTY, fs, s.id, s.packet) {
      assert fs[0..] == fs;
      TooManySlices(lim, fs, 0, s.id, s.packet, now, now);
    } else {
      assert StepFrame(lim, EMPTY, fs[0], now).outcome.Err?;
    }
  }

  // ---- records over time ----

  /** Decodes records until the first error. */
  ghost function DecodeAll(lim: Limits, st: State, records: seq<Bytes>, times: seq<int>): Run
    requires |records| == |times|
    decreases |records|
  {
    if records == [] then Run(st, Ok([]))
    else
      var r := DecodeRecord(lim, st, records[0], times[0]);
      if r.outcome.Err? then r else Prepend(r.outcome.value, DecodeAll(lim, r.state, records[1..], times[1..]))
  }

  /** Any `width` records in a row arrive within the reassembly timeout. */
  ghost predicate Steady(lim: Limits, width: nat, times: seq<int>)
  {
    forall i, j :: 0 <= i <= j < |times| && j - i < width ==> times[j] - times[i] <= lim.timeout
  }

  /** A packet begun at `t`, `age` records ago, is in time while it can still be incomplete. */
  ghost predicate InTime(lim: Limits, width: nat, times: seq<int>, t: int, age: nat)
  {
    forall j :: 0 <= j < |times| && age + j < width ==> times[j] - t <= lim.timeout
  }

  lemma LaterTimes(lim: Limits, width: nat, times: seq<int>, t: int, age: nat)
    requires times != [] && Steady(lim, width, times)
    ensures Steady(lim, width, times[1..]) && InTime(lim, width, times[1..], times[0], 1)
    ensures InTime(lim, width, times, t, age) ==> InTime(lim, width, times[1..], t, age + 1)
  {
    var later := times[1..];
    assert forall j :: 0 <= j < |later| ==> later[j] == times[j + 1];
  }

  lemma FirstInTime(lim: Limits, width: nat, times: seq<int>, t: int, age: nat)
    requires times != [] && age < width && InTime(lim, width, times, t, age)
    ensures times[0] - t <= lim.timeout
  {
  }

  ghost predicate SlicedWithin(log: seq<Sent>, width: nat)
  {
    forall i :: 0 <= i < |log| ==> |log[i].slices| <= width
  }

  /** `records` are envelopes holding the given groups of frames. */
  ghost predicate Envelopes(records: seq<Bytes>, groups: seq<seq<Frame>>)
  {
    && |records| == |groups|
    && forall i :: 0 <= i < |groups| ==> groups[i] != [] && records[i] == MAGIC + PutFrames(groups[i])
  }

  lemma NothingExpires(lim: Limits, log: seq<Sent>, n: nat, t: int, now: int)
    requires At(lim, log, n) && (n > 0 ==> now - t <= lim.timeout)
    ensures Expire(lim, StateAt(lim, log, n, t), now) == StateAt(lim, log, n, t)
  {
    var st := StateAt(lim, log, n, t);
    if n > 0 {
      TotalBytesInsert(map[], log[0].id, Grown(log[0].slices, n, log[0].id, log[0].packet, t));
    }
    ExpireNothing(lim, st, now);
  }

  lemma DecodeEnvelope(lim: Limits, st: State, fs: seq<Frame>, now: int)
    requires fs != []
    ensures DecodeRecord(lim, st, MAGIC + PutFrames(fs), now) == RunFrames(lim, Expire(lim, st, now), fs, now)
  {
    var record := MAGIC + PutFrames(fs);
    assert record[..|MAGIC|] == MAGIC;
    assert |PutFrames(fs)| > 0;
    WalkIsRun(lim, Expire(lim, st, now), MAGIC, fs, now);
  }

  /**
   An ordered carrier gives back the stream of packets: in order, each once, unchanged, with
   no error, however the sender sliced, grouped and delayed them.  `held` is what the sender
   has not flushed yet; when it is empty every packet is out.  A packet in the middle of its
   slices was begun at `t`, `age` records ago: every record since then brought a slice of it,
   so no more than `width` records ever share a packet.
   */
  lemma {:induction false} StreamDelivered(lim: Limits, log: seq<Sent>, n: nat, t: int, age: nat, width: nat,
                                           groups: seq<seq<Frame>>, held: seq<Frame>,
                                           records: seq<Bytes>, times: seq<int>)
    requires At(lim, log, n) && Rest(log, n) == Flatten(groups) + held && SlicedWithin(log, width)
    requires Envelopes(records, groups) && |times| == |records| && Steady(lim, width, times)
    requires n > 0 ==> age <= n && InTime(lim, width, times, t, age)
    ensures Delivers(DecodeAll(lim, StateAt(lim, log, n, t), records, times), Packets(log), held == [])
    decreases |records|
  {
    hide DecodeRecord, StateAt, Steady, InTime, Deliverable;
    if records == [] {
      assert Flatten(groups) + held == held;
      assert log != [] ==> |Rest(log, n)| > 0;
    } else {
      var now := times[0];
      if n > 0 {
        FirstInTime(lim, width, times, t, age);
      }
      var i, n', t' := FirstRecord(lim, log, n, t, groups, held, records[0], now);
      LaterTimes(lim, width, times, t, age);
      StreamDelivered(lim, log[i..], n', t', if i == 0 && n > 0 then age + 1 else 1, width,
                      groups[1..], held, records[1..], times[1..]);
      PacketsSplit(log, i);
      DeliversMore(DecodeAll(lim, StateAt(lim, log[i..], n', t'), records[1..], times[1..]),
                   Packets(log[..i]), Packets(log[i..]), held == []);
    }
  }

  /** The run ends well with some of the packets, in order, or with all of them. */
  ghost predicate Delivers(r: Run, packets: seq<Bytes>, all: bool)
  {
    r.outcome.Ok? && r.outcome.value <= packets && (all ==> r.outcome.value == packets)
  }

  lemma DeliversMore(r: Run, first: seq<Bytes>, packets: seq<Bytes>, all: bool)
    requires Delivers(r, packets, all)
    ensures Delivers(Prepend(first, r), first + packets, all)
  {
  }

  lemma FirstRecord(lim: Limits, log: seq<Sent>, n: nat, t: int,
                    groups: seq<seq<Frame>>, held: seq<Frame>, record: Bytes, now: int)
    returns (k: nat, n': nat, t': int)
    requires At(lim, log, n) && (n > 0 ==> now - t <= lim.timeout)
    requires groups != [] && Rest(log, n) == Flatten(groups) + held
    requires groups[0] != [] && record == MAGIC + PutFrames(groups[0])
    ensures k <= |log| && At(lim, log[k..], n') && Rest(log[k..], n') == Flatten(groups[1..]) + held
    ensures DecodeRecord(lim, StateAt(lim, log, n, t), record, now)
         == Run(StateAt(lim, log[k..], n', t'), Ok(Packets(log[..k])))
    ensures k == 0 ==> n' > n
    ensures n' > 0 ==> t' == if k == 0 && n > 0 then t else now
  {
    NothingExpires(lim, log, n, t, now);
    DecodeEnvelope(lim, StateAt(lim, log, n, t), groups[0], now);
    ConcatAssoc(groups[0], Flatten(groups[1..]), held);
    k, n', t' := RunStream(lim, log, n, t, groups[0], Flatten(groups[1..]) + held, now);
  }

  // ---- a session: records in any order, with errors and expiry ----

  /** An envelope made of slices of packets that were sent. */
  ghost predicate HonestRecord(record: Bytes, sent: map<U32, Bytes>)
  {
    exists fs: seq<Frame> :: fs != [] && AllHonest(fs, sent) && record == MAGIC + PutFrames(fs)
  }

  datatype Session = Session(state: State, handed: seq<Bytes>)

  /** What the reader does with record after record: an empty or rejected one is dropped and the next is read. */
  ghost function ReadAll(lim: Limits, st: State, records: seq<Bytes>, times: seq<int>): Session
    requires |records| == |times|
    decreases |records|
  {
    if records == [] then Session(st, [])
    else
      var last := |records| - 1;
      var before := ReadAll(lim, st, records[..last], times[..last]);
      if records[last] == [] then before
      else
        var r := DecodeRecord(lim, before.state, records[last], times[last]);
        Session(r.state, before.handed + if r.outcome.Ok? then r.outcome.value else [])
  }

  lemma ExpireFaithful(lim: Limits, st: State, now: int, sent: map<U32, Bytes>)
    requires Faithful(st, sent)
    ensures Faithful(Expire(lim, st, now), sent)
  {
  }

  lemma RecordFaithful(lim: Limits, st: State, record: Bytes, now: int, sent: map<U32, Bytes>)
    requires StateOk(lim, st) && Faithful(st, sent) && HonestRecord(record, sent)
    ensures var r := DecodeRecord(lim, st, record, now);
            && StateOk(lim, r.state) && Faithful(r.state, sent)
            && (r.outcome.Ok? ==> forall out :: out in r.outcome.value ==> out in sent.Values)
  {
    hide StateOk, Faithful, DecodeRecord, RunFrames, Expire, AllHonest, PutFrames;
    DecodeKeeps(lim, st, record, now);
    ExpireKeeps(lim, st, now);
    ExpireFaithful(lim, st, now, sent);
    var fs: seq<Frame> :| fs != [] && AllHonest(fs, sent) && record == MAGIC + PutFrames(fs);
    DecodeEnvelope(lim, st, fs, now);
    RunFaithful(lim, Expire(lim, st, now), fs, now, sent);
  }

  /**
   Safety of a whole session: records of honest slices, in any order and any number of times, at
   any moments, with packets expiring and records being rejected in between.  Whatever is handed
   out was sent, and the limits hold throughout.
   */
  lemma {:induction false} SessionFaithful(lim: Limits, st: State, records: seq<Bytes>, times: seq<int>, sent: map<U32, Bytes>)
    requires |records| == |times| && StateOk(lim, st) && Faithful(st, sent)
    requires forall i :: 0 <= i < |records| ==> HonestRecord(records[i], sent)
    ensures StateOk(lim, ReadAll(lim, st, records, times).state)
    ensures Faithful(ReadAll(lim, st, records, times).state, sent)
    ensures forall out :: out in ReadAll(lim, st, records, times).handed ==> out in sent.Values
    decreases |records|
  {
    hide StateOk, Faithful, HonestRecord, DecodeRecord;
    if records != [] {
      var last := |records| - 1;
      SessionFaithful(lim, st, records[..last], times[..last], sent);
      RecordFaithful(lim, ReadAll(lim, st, records[..last], times[..last]).state, records[last], times[last], sent);
    }
  }

  /** The reader's loop over the receiver object. */
  method ReadSession(rx: Receiver, records: seq<Bytes>, times: seq<int>) returns (handed: seq<Bytes>)
    requires rx.Valid() && |records| == |times|
    modifies rx
    ensures rx.Valid()
    ensures Session(rx.Snapshot(), handed) == ReadAll(rx.lim, old(rx.Snapshot()), records, times)
  {
    hide DecodeRecord, StateOk;
    handed := [];
    for i := 0 to |records|
      invariant rx.Valid()
      invariant Session(rx.Snapshot(), handed) == ReadAll(rx.lim, old(rx.Snapshot()), records[..i], times[..i])
    {
      assert records[..i + 1][..i] == records[..i] && times[..i + 1][..i] == times[..i];
      if records[i] != [] {
        var packets := rx.Decode(records[i], times[i]);
        if packets.Ok? {
          handed := handed + packets.value;
        } else {
          assert handed + [] == handed;
        }
      }
    }
    assert records[..|records|] == records && times[..|times|] == times;
  }
}
