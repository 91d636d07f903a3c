/**
 Packets whose slices arrive mixed with each other, as they do when records overtake one another
 or several senders share a carrier: each packet comes out once, with its own last slice, exactly
 as long as each is within its own limits and those open at the same time fit the receiver's.
 */
module RecordizerInterleaving {
  import opened Bytes
  import opened RecordizerWire
  import opened Reassembler
  import opened RecordizerDelivery
  import opened RecordizerAccounting

  /** Every packet is cut into slices, in whatever order, under its own number. */
  ghost predicate Cuts(sends: map<U32, Sent>)
  {
    forall id :: id in sends ==> sends[id].id == id && Cut(sends[id].slices, id, sends[id].packet)
  }

  type Sends = sends: map<U32, Sent> | Cuts(sends) witness map[]

  /** How many slices of each packet are in, and when the first of them came. */
  datatype Progress = Progress(done: map<U32, nat>, begun: map<U32, int>)

  ghost predicate Tracks(sends: Sends, g: Progress)
  {
    && sends.Keys == g.done.Keys == g.begun.Keys
    && forall id :: id in sends ==> g.done[id] <= |sends[id].slices|
  }

  ghost predicate IsOpen(sends: Sends, g: Progress, id: U32)
    requires Tracks(sends, g)
  {
    id in sends && 0 < g.done[id] < |sends[id].slices|
  }

  ghost function OpenIds(sends: Sends, g: Progress): set<U32>
    requires Tracks(sends, g)
  {
    set id | id in sends && IsOpen(sends, g, id)
  }

  ghost function PendingOf(sends: Sends, g: Progress, ids: set<U32>): map<U32, Pending>
    requires Tracks(sends, g) && ids <= sends.Keys
  {
    map id | id in ids :: Grown(sends[id].slices, g.done[id], id, sends[id].packet, g.begun[id])
  }

  /** The bytes of the packets in `ids`. */
  ghost function SumOf(sends: Sends, ids: set<U32>): nat
    requires ids <= sends.Keys
    decreases |ids|
  {
    if ids == {} then 0
    else
      var id :| id in ids;
      |sends[id].packet| + SumOf(sends, ids - {id})
  }

  lemma {:induction false} SumWithout(sends: Sends, ids: set<U32>, id: U32)
    requires ids <= sends.Keys && id in ids
    ensures SumOf(sends, ids) == |sends[id].packet| + SumOf(sends, ids - {id})
    decreases |ids|
  {
    var pick :| pick in ids && SumOf(sends, ids) == |sends[pick].packet| + SumOf(sends, ids - {pick});
    if pick != id {
      SumWithout(sends, ids - {pick}, id);
      SumWithout(sends, ids - {id}, pick);
      assert ids - {pick} - {id} == ids - {id} - {pick};
    }
  }

  /** The receiver that has taken in so much of each packet. */
  ghost function StateOf(sends: Sends, g: Progress): State
    requires Tracks(sends, g)
  {
    State(PendingOf(sends, g, OpenIds(sends, g)), SumOf(sends, OpenIds(sends, g)))
  }

  lemma {:induction false} PendingBytes(sends: Sends, g: Progress, ids: set<U32>)
    requires Tracks(sends, g) && ids <= sends.Keys
    ensures TotalBytes(PendingOf(sends, g, ids)) == SumOf(sends, ids)
    decreases |ids|
  {
    hide Cut, Grown;
    if ids == {} {
      assert PendingOf(sends, g, ids) == map[];
    } else {
      var id :| id in ids;
      SumWithout(sends, ids, id);
      PendingBytes(sends, g, ids - {id});
      var rest := PendingOf(sends, g, ids - {id});
      var p := Grown(sends[id].slices, g.done[id], id, sends[id].packet, g.begun[id]);
      assert PendingOf(sends, g, ids) == rest[id := p];
      TotalBytesInsert(rest, id, p);
    }
  }

  // ---- one more slice ----

  ghost function Advance(sends: Sends, g: Progress, id: U32, now: int): (h: Progress)
    requires Tracks(sends, g) && id in sends && g.done[id] < |sends[id].slices|
    ensures Tracks(sends, h)
  {
    Progress(g.done[id := g.done[id] + 1], if g.done[id] == 0 then g.begun[id := now] else g.begun)
  }

  ghost predicate IsLast(sends: Sends, g: Progress, id: U32)
    requires Tracks(sends, g) && id in sends
  {
    g.done[id] + 1 == |sends[id].slices|
  }

  /** The receiver without the packet `id`. */
  ghost function Others(sends: Sends, g: Progress, id: U32): State
    requires Tracks(sends, g)
  {
    State(PendingOf(sends, g, OpenIds(sends, g) - {id}), SumOf(sends, OpenIds(sends, g) - {id}))
  }

  /** Any packet can be singled out: the rest of the receiver does not depend on it. */
  lemma Focus(sends: Sends, g: Progress, id: U32)
    requires Tracks(sends, g) && id in sends
    ensures StateOf(sends, g) ==
      if g.done[id] == |sends[id].slices| then Others(sends, g, id)
      else Mid(Others(sends, g, id), sends[id].slices, g.done[id], id, sends[id].packet, g.begun[id])
    ensures id !in Others(sends, g, id).pending
  {
    hide Cut, Grown, SumOf;
    var ids := OpenIds(sends, g);
    if id in ids {
      SumWithout(sends, ids, id);
      var p := Grown(sends[id].slices, g.done[id], id, sends[id].packet, g.begun[id]);
      assert PendingOf(sends, g, ids) == PendingOf(sends, g, ids - {id})[id := p];
    } else {
      assert ids - {id} == ids;
    }
  }

  lemma OthersStay(sends: Sends, g: Progress, id: U32, now: int)
    requires Tracks(sends, g) && id in sends && g.done[id] < |sends[id].slices|
    ensures Others(sends, Advance(sends, g, id, now), id) == Others(sends, g, id)
  {
    hide Cut, Grown, SumOf;
    var h := Advance(sends, g, id, now);
    assert OpenIds(sends, h) - {id} == OpenIds(sends, g) - {id};
    assert PendingOf(sends, h, OpenIds(sends, h) - {id}) == PendingOf(sends, g, OpenIds(sends, g) - {id});
  }

  /** The packets open at one moment fit the receiver. */
  ghost predicate FitsAt(lim: Limits, sends: Sends, g: Progress)
    requires Tracks(sends, g)
  {
    |OpenIds(sends, g)| <= lim.maxInflight && SumOf(sends, OpenIds(sends, g)) <= lim.maxBuffered
  }

  /** The packet itself allows one slice more after `n`: it is not too long, and the fragment cap is not reached. */
  ghost predicate Takes(lim: Limits, s: Sent, n: nat)
  {
    |s.packet| <= lim.maxPacket && (|s.slices| > 1 ==> n < lim.maxFragments)
  }

  lemma OpenCount(sends: Sends, g: Progress, id: U32)
    requires Tracks(sends, g) && id in sends
    ensures |Others(sends, g, id).pending| == |OpenIds(sends, g) - {id}|
    ensures |OpenIds(sends, g)| == |OpenIds(sends, g) - {id}| + if IsOpen(sends, g, id) then 1 else 0
    ensures SumOf(sends, OpenIds(sends, g)) ==
      SumOf(sends, OpenIds(sends, g) - {id}) + if IsOpen(sends, g, id) then |sends[id].packet| else 0
  {
    hide Cut, Grown, SumOf;
    var ids := OpenIds(sends, g);
    assert Others(sends, g, id).pending.Keys == ids - {id};
    if id in ids {
      SumWithout(sends, ids, id);
    } else {
      assert ids - {id} == ids;
    }
  }

  lemma RoomForNext(lim: Limits, sends: Sends, g: Progress, id: U32, now: int)
    requires Tracks(sends, g) && id in sends && g.done[id] < |sends[id].slices| && |sends[id].packet| <= lim.maxPacket
    requires FitsAt(lim, sends, g) && FitsAt(lim, sends, Advance(sends, g, id, now))
    ensures Room(lim.(maxFragments := |sends[id].slices|), Others(sends, g, id), sends[id].slices, id, sends[id].packet)
  {
    hide Cut, Grown, SumOf;
    var h := Advance(sends, g, id, now);
    OpenCount(sends, g, id);
    OpenCount(sends, h, id);
    OthersStay(sends, g, id, now);
    Focus(sends, g, id);
  }

  lemma NoRoomForNext(lim: Limits, sends: Sends, g: Progress, id: U32, now: int)
    requires Tracks(sends, g) && id in sends && g.done[id] < |sends[id].slices|
    requires FitsAt(lim, sends, g) && !FitsAt(lim, sends, Advance(sends, g, id, now))
    ensures g.done[id] == 0 && |sends[id].slices| > 1 && id !in StateOf(sends, g).pending
    ensures |StateOf(sends, g).pending| >= lim.maxInflight
         || StateOf(sends, g).buffered + |sends[id].packet| > lim.maxBuffered
  {
    hide Cut, Grown, SumOf;
    var h := Advance(sends, g, id, now);
    OpenCount(sends, g, id);
    OpenCount(sends, h, id);
    OthersStay(sends, g, id, now);
    Focus(sends, g, id);
  }

  /** With a cap that the packet cannot reach. */
  lemma TakenWide(lim: Limits, sends: Sends, g: Progress, id: U32, now: int)
    requires Tracks(sends, g) && id in sends && g.done[id] < |sends[id].slices| && |sends[id].packet| <= lim.maxPacket
    requires FitsAt(lim, sends, g) && FitsAt(lim, sends, Advance(sends, g, id, now))
    ensures StepFrame(lim.(maxFragments := |sends[id].slices|), StateOf(sends, g), sends[id].slices[g.done[id]], now)
         == Step(StateOf(sends, Advance(sends, g, id, now)), Ok(if IsLast(sends, g, id) then Some(sends[id].packet) else None))
  {
    hide Grown, SumOf, FitsAt, Mid, Others, StateOf, StepFrame, Room, Cut;
    var s, n, h := sends[id], g.done[id], Advance(sends, g, id, now);
    RoomForNext(lim, sends, g, id, now);
    Focus(sends, g, id);
    Focus(sends, h, id);
    OthersStay(sends, g, id, now);
    SliceStep(lim.(maxFragments := |s.slices|), Others(sends, g, id), s.slices, n, id, s.packet, g.begun[id], now);
  }

  /** The fragment cap plays no part while it is not reached. */
  lemma CapApart(lim: Limits, sends: Sends, g: Progress, id: U32, now: int)
    requires Tracks(sends, g) && id in sends && g.done[id] < |sends[id].slices| && Takes(lim, sends[id], g.done[id])
    ensures StepFrame(lim, StateOf(sends, g), sends[id].slices[g.done[id]], now)
         == StepFrame(lim.(maxFragments := |sends[id].slices|), StateOf(sends, g), sends[id].slices[g.done[id]], now)
  {
    var s, n := sends[id], g.done[id];
    hide Grown, SumOf, Mid, Others, StateOf, StepFrame, Cut;
    Focus(sends, g, id);
    if |s.slices| == 1 {
      WholeSlice(sends, id);
      WholeIgnoresCap(lim, |s.slices|, StateOf(sends, g), s.slices[n], now);
    } else {
      MidCap(Others(sends, g, id), s.slices, n, id, s.packet, g.begun[id], lim.maxFragments);
      MidCap(Others(sends, g, id), s.slices, n, id, s.packet, g.begun[id], |s.slices|);
      CapNotReached(lim, |s.slices|, StateOf(sends, g), s.slices[n], now);
    }
  }

  lemma TakenStep(lim: Limits, sends: Sends, g: Progress, id: U32, now: int)
    requires Tracks(sends, g) && id in sends && g.done[id] < |sends[id].slices| && Takes(lim, sends[id], g.done[id])
    requires FitsAt(lim, sends, g) && FitsAt(lim, sends, Advance(sends, g, id, now))
    ensures StepFrame(lim, StateOf(sends, g), sends[id].slices[g.done[id]], now)
         == Step(StateOf(sends, Advance(sends, g, id, now)), Ok(if IsLast(sends, g, id) then Some(sends[id].packet) else None))
  {
    hide Cuts, FitsAt, StateOf, StepFrame, Advance, IsLast;
    CapApart(lim, sends, g, id, now);
    TakenWide(lim, sends, g, id, now);
  }

  lemma WholeSlice(sends: Sends, id: U32)
    requires id in sends && |sends[id].slices| == 1
    ensures sends[id].slices[0].offset == 0 && |sends[id].slices[0].payload| == sends[id].slices[0].total
  {
    var s := sends[id];
    CutParts(s.slices, id, s.packet, 0);
    assert ChunksOf(s.slices[..0]) == [];
  }

  lemma WholeIgnoresCap(lim: Limits, cap: nat, st: State, f: Frame, now: int)
    requires f.offset == 0 && |f.payload| == f.total
    ensures StepFrame(lim, st, f, now) == StepFrame(lim.(maxFragments := cap), st, f, now)
  {
  }

  lemma RefusedStep(lim: Limits, sends: Sends, g: Progress, id: U32, now: int)
    requires Tracks(sends, g) && id in sends && g.done[id] < |sends[id].slices| && FitsAt(lim, sends, g)
    requires !Takes(lim, sends[id], g.done[id]) || !FitsAt(lim, sends, Advance(sends, g, id, now))
    ensures StepFrame(lim, StateOf(sends, g), sends[id].slices[g.done[id]], now)
         == if |sends[id].packet| > lim.maxPacket then Step(StateOf(sends, g), Err(InvalidMetadata))
            else Step(Others(sends, g, id), Err(ResourceLimit))
  {
    hide Grown, SumOf, FitsAt, Mid, Others, StateOf, Store, StepKnown, Disjoint, SumLen;
    var s, n := sends[id], g.done[id];
    if |s.packet| <= lim.maxPacket {
      Focus(sends, g, id);
      if !Takes(lim, s, n) {
        CapReached(lim, Others(sends, g, id), s.slices, n, id, s.packet, g.begun[id], now);
      } else {
        NoRoomForNext(lim, sends, g, id, now);
        CutParts(s.slices, id, s.packet, 0);
        FirstOthers(sends, g, id);
      }
    }
  }

  lemma FirstOthers(sends: Sends, g: Progress, id: U32)
    requires Tracks(sends, g) && id in sends && g.done[id] == 0
    ensures Others(sends, g, id) == StateOf(sends, g)
  {
    hide Cuts, Grown, SumOf;
    assert OpenIds(sends, g) - {id} == OpenIds(sends, g);
  }

  /**
   The next slice of any packet moves just that packet on.  It is refused exactly when the packet
   is too long, its fragment cap is reached, or it would open one packet or one byte too many;
   then nothing of that packet stays behind, and the others are as they were.
   */
  lemma InterleavedStep(lim: Limits, sends: Sends, g: Progress, id: U32, now: int)
    requires Tracks(sends, g) && id in sends && g.done[id] < |sends[id].slices| && FitsAt(lim, sends, g)
    ensures StepFrame(lim, StateOf(sends, g), sends[id].slices[g.done[id]], now) ==
      if Takes(lim, sends[id], g.done[id]) && FitsAt(lim, sends, Advance(sends, g, id, now)) then
        Step(StateOf(sends, Advance(sends, g, id, now)), Ok(if IsLast(sends, g, id) then Some(sends[id].packet) else None))
      else if |sends[id].packet| > lim.maxPacket then Step(StateOf(sends, g), Err(InvalidMetadata))
      else Step(Others(sends, g, id), Err(ResourceLimit))
  {
    hide StepFrame, StateOf, Others, FitsAt;
    if Takes(lim, sends[id], g.done[id]) && FitsAt(lim, sends, Advance(sends, g, id, now)) {
      TakenStep(lim, sends, g, id, now);
    } else {
      RefusedStep(lim, sends, g, id, now);
    }
  }

  // ---- a whole schedule ----

  /** `order` names the packet of each slice in turn, and no packet more often than it has slices left. */
  ghost predicate Legal(sends: Sends, g: Progress, order: seq<U32>)
    requires Tracks(sends, g)
  {
    forall id :: id in order ==> id in sends && g.done[id] + multiset(order)[id] <= |sends[id].slices|
  }

  lemma LegalFirst(sends: Sends, g: Progress, order: seq<U32>, now: int)
    requires Tracks(sends, g) && Legal(sends, g, order) && order != []
    ensures order[0] in sends && g.done[order[0]] < |sends[order[0]].slices|
    ensures Legal(sends, Advance(sends, g, order[0], now), order[1..])
    ensures multiset(order) == multiset{order[0]} + multiset(order[1..])
  {
    hide Cuts;
    assert order == [order[0]] + order[1..];
    assert order[0] in order;
    forall id | id in order[1..]
      ensures id in sends
      ensures Advance(sends, g, order[0], now).done[id] + multiset(order[1..])[id] <= |sends[id].slices|
    {
      assert id in order;
    }
  }

  ghost function After(sends: Sends, g: Progress, order: seq<U32>, now: int): (h: Progress)
    requires Tracks(sends, g) && Legal(sends, g, order)
    ensures Tracks(sends, h)
    decreases |order|
  {
    if order == [] then g
    else
      LegalFirst(sends, g, order, now);
      After(sends, Advance(sends, g, order[0], now), order[1..], now)
  }

  /** The frames that arrive. */
  ghost function FramesOf(sends: Sends, g: Progress, order: seq<U32>, now: int): seq<Frame>
    requires Tracks(sends, g) && Legal(sends, g, order)
    decreases |order|
  {
    if order == [] then []
    else
      LegalFirst(sends, g, order, now);
      [sends[order[0]].slices[g.done[order[0]]]]
      + FramesOf(sends, Advance(sends, g, order[0], now), order[1..], now)
  }

  /** The packets whose last slice arrives, in that order. */
  ghost function Finished(sends: Sends, g: Progress, order: seq<U32>, now: int): seq<U32>
    requires Tracks(sends, g) && Legal(sends, g, order)
    decreases |order|
  {
    if order == [] then []
    else
      LegalFirst(sends, g, order, now);
      (if IsLast(sends, g, order[0]) then [order[0]] else [])
      + Finished(sends, Advance(sends, g, order[0], now), order[1..], now)
  }

  ghost function PacketsOf(sends: map<U32, Sent>, ids: seq<U32>): seq<Bytes>
  {
    if ids == [] then []
    else (if ids[0] in sends then [sends[ids[0]].packet] else []) + PacketsOf(sends, ids[1..])
  }

  /** How far each packet has come, and that one is finished exactly when, and where, its last slice is in. */
  lemma {:induction false} FinishedOnce(sends: Sends, g: Progress, order: seq<U32>, now: int, id: U32)
    requires Tracks(sends, g) && Legal(sends, g, order) && id in sends
    ensures After(sends, g, order, now).done[id] == g.done[id] + multiset(order)[id]
    ensures multiset(Finished(sends, g, order, now))[id] ==
      if g.done[id] < |sends[id].slices| == After(sends, g, order, now).done[id] then 1 else 0
    decreases |order|
  {
    hide Cuts, Legal;
    if order != [] {
      LegalFirst(sends, g, order, now);
      FinishedOnce(sends, Advance(sends, g, order[0], now), order[1..], now, id);
    }
  }

  lemma {:induction false} FinishedSent(sends: Sends, g: Progress, order: seq<U32>, now: int)
    requires Tracks(sends, g) && Legal(sends, g, order)
    ensures forall i :: 0 <= i < |Finished(sends, g, order, now)| ==> Finished(sends, g, order, now)[i] in sends
    decreases |order|
  {
    hide Cuts, Legal, Advance;
    if order != [] {
      LegalFirst(sends, g, order, now);
      FinishedSent(sends, Advance(sends, g, order[0], now), order[1..], now);
    }
  }

  lemma PrefixLegal(sends: Sends, g: Progress, order: seq<U32>, p: nat)
    requires Tracks(sends, g) && Legal(sends, g, order) && p <= |order|
    ensures Legal(sends, g, order[..p])
  {
    hide Cuts;
    assert order == order[..p] + order[p..];
    forall id | id in order[..p]
      ensures id in sends && g.done[id] + multiset(order[..p])[id] <= |sends[id].slices|
    {
      assert id in order;
    }
  }

  /** At every moment the packets then open fit the receiver. */
  ghost predicate FitsThroughout(lim: Limits, sends: Sends, g: Progress, order: seq<U32>, now: int)
    requires Tracks(sends, g) && Legal(sends, g, order)
  {
    forall p :: 0 <= p <= |order| ==> FitsAfter(lim, sends, g, order, now, p)
  }

  ghost predicate FitsAfter(lim: Limits, sends: Sends, g: Progress, order: seq<U32>, now: int, p: nat)
    requires Tracks(sends, g) && Legal(sends, g, order) && p <= |order|
  {
    PrefixLegal(sends, g, order, p);
    FitsAt(lim, sends, After(sends, g, order[..p], now))
  }

  lemma FitsMore(lim: Limits, sends: Sends, g: Progress, order: seq<U32>, now: int, p: nat)
    requires Tracks(sends, g) && Legal(sends, g, order) && order != [] && p < |order|
    requires order[0] in sends && g.done[order[0]] < |sends[order[0]].slices|
    requires Legal(sends, Advance(sends, g, order[0], now), order[1..])
    ensures FitsAfter(lim, sends, g, order, now, p + 1)
       <==> FitsAfter(lim, sends, Advance(sends, g, order[0], now), order[1..], now, p)
  {
    hide Cuts, Legal, FitsAt, Advance;
    PrefixLegal(sends, g, order, p + 1);
    PrefixLegal(sends, Advance(sends, g, order[0], now), order[1..], p);
    assert order[..p + 1][0] == order[0] && order[..p + 1][1..] == order[1..][..p];
  }

  lemma FitsFirst(lim: Limits, sends: Sends, g: Progress, order: seq<U32>, now: int)
    requires Tracks(sends, g) && Legal(sends, g, order) && order != []
    requires order[0] in sends && g.done[order[0]] < |sends[order[0]].slices|
    requires Legal(sends, Advance(sends, g, order[0], now), order[1..])
    ensures FitsThroughout(lim, sends, g, order, now) <==>
      FitsAt(lim, sends, g) && FitsThroughout(lim, sends, Advance(sends, g, order[0], now), order[1..], now)
  {
    hide Cuts, Legal, FitsAt, Advance, FitsAfter;
    var h, rest := Advance(sends, g, order[0], now), order[1..];
    FitsNow(lim, sends, g, order, now);
    forall p: nat | p < |order|
      ensures FitsAfter(lim, sends, g, order, now, p + 1) <==> FitsAfter(lim, sends, h, rest, now, p)
    {
      FitsMore(lim, sends, g, order, now, p);
    }
    if FitsAt(lim, sends, g) && FitsThroughout(lim, sends, h, rest, now) {
      forall p: nat | p <= |order|
        ensures FitsAfter(lim, sends, g, order, now, p)
      {
        assert p > 0 ==> FitsAfter(lim, sends, h, rest, now, p - 1);
      }
    }
    if FitsThroughout(lim, sends, g, order, now) {
      assert FitsAfter(lim, sends, g, order, now, 0);
      forall p: nat | p <= |rest|
        ensures FitsAfter(lim, sends, h, rest, now, p)
      {
        assert FitsAfter(lim, sends, g, order, now, p + 1);
      }
    }
  }

  lemma FitsNow(lim: Limits, sends: Sends, g: Progress, order: seq<U32>, now: int)
    requires Tracks(sends, g) && Legal(sends, g, order)
    ensures FitsAfter(lim, sends, g, order, now, 0) <==> FitsAt(lim, sends, g)
  {
    PrefixLegal(sends, g, order, 0);
    assert order[..0] == [];
  }

  /** No packet is longer than allowed, and none that is cut has more slices in than its fragment cap. */
  ghost predicate AllTaken(lim: Limits, sends: Sends, g: Progress, order: seq<U32>)
    requires Tracks(sends, g) && Legal(sends, g, order)
  {
    forall id :: id in order ==> TakenUpTo(lim, sends[id], g.done[id] + multiset(order)[id])
  }

  ghost predicate TakenUpTo(lim: Limits, s: Sent, n: nat)
  {
    |s.packet| <= lim.maxPacket && (|s.slices| > 1 ==> n <= lim.maxFragments)
  }

  /** A slice that is in no longer counts among those to come. */
  lemma CountStays(sends: Sends, g: Progress, order: seq<U32>, now: int, id: U32)
    requires Tracks(sends, g) && order != [] && id in sends
    requires order[0] in sends && g.done[order[0]] < |sends[order[0]].slices|
    requires multiset(order) == multiset{order[0]} + multiset(order[1..])
    ensures Advance(sends, g, order[0], now).done[id] + multiset(order[1..])[id] == g.done[id] + multiset(order)[id]
  {
    hide Cuts;
  }

  lemma TakenFirst(lim: Limits, sends: Sends, g: Progress, order: seq<U32>, now: int)
    requires Tracks(sends, g) && Legal(sends, g, order) && order != []
    requires order[0] in sends && g.done[order[0]] < |sends[order[0]].slices|
    requires Legal(sends, Advance(sends, g, order[0], now), order[1..])
    requires multiset(order) == multiset{order[0]} + multiset(order[1..])
    ensures AllTaken(lim, sends, g, order) <==>
      Takes(lim, sends[order[0]], g.done[order[0]]) && AllTaken(lim, sends, Advance(sends, g, order[0], now), order[1..])
  {
    hide Cuts, Legal, Advance, AllTaken, Takes;
    var h := Advance(sends, g, order[0], now);
    if AllTaken(lim, sends, g, order) {
      TakenRest(lim, sends, g, order, now);
    }
    if Takes(lim, sends[order[0]], g.done[order[0]]) && AllTaken(lim, sends, h, order[1..]) {
      TakenAll(lim, sends, g, order, now);
    }
  }

  lemma TakenRest(lim: Limits, sends: Sends, g: Progress, order: seq<U32>, now: int)
    requires Tracks(sends, g) && Legal(sends, g, order) && order != [] && AllTaken(lim, sends, g, order)
    requires order[0] in sends && g.done[order[0]] < |sends[order[0]].slices|
    requires Legal(sends, Advance(sends, g, order[0], now), order[1..])
    requires multiset(order) == multiset{order[0]} + multiset(order[1..])
    ensures Takes(lim, sends[order[0]], g.done[order[0]])
    ensures AllTaken(lim, sends, Advance(sends, g, order[0], now), order[1..])
  {
    hide Cuts, Advance;
    assert order[0] in order && TakenUpTo(lim, sends[order[0]], g.done[order[0]] + multiset(order)[order[0]]);
    forall id | id in order[1..]
      ensures TakenUpTo(lim, sends[id], Advance(sends, g, order[0], now).done[id] + multiset(order[1..])[id])
    {
      assert id in order && TakenUpTo(lim, sends[id], g.done[id] + multiset(order)[id]);
      CountStays(sends, g, order, now, id);
    }
  }

  lemma TakenAll(lim: Limits, sends: Sends, g: Progress, order: seq<U32>, now: int)
    requires Tracks(sends, g) && Legal(sends, g, order) && order != []
    requires order[0] in sends && g.done[order[0]] < |sends[order[0]].slices|
    requires Legal(sends, Advance(sends, g, order[0], now), order[1..])
    requires multiset(order) == multiset{order[0]} + multiset(order[1..])
    requires Takes(lim, sends[order[0]], g.done[order[0]])
    requires AllTaken(lim, sends, Advance(sends, g, order[0], now), order[1..])
    ensures AllTaken(lim, sends, g, order)
  {
    hide Cuts, Advance;
    forall id | id in order
      ensures TakenUpTo(lim, sends[id], g.done[id] + multiset(order)[id])
    {
      CountStays(sends, g, order, now, id);
      if id in order[1..] {
        assert TakenUpTo(lim, sends[id], Advance(sends, g, order[0], now).done[id] + multiset(order[1..])[id]);
      } else {
        assert multiset(order)[id] == 1;
      }
    }
  }

  /**
   Slices mixed in any way: the run succeeds if and only if each packet for itself is within the
   limits and the packets open together fit them at every moment.  Then it hands out each packet
   with its last slice.
   */
  lemma {:induction false} InterleavedRun(lim: Limits, sends: Sends, g: Progress, order: seq<U32>, now: int)
    requires Tracks(sends, g) && Legal(sends, g, order) && FitsAt(lim, sends, g)
    ensures RunFrames(lim, StateOf(sends, g), FramesOf(sends, g, order, now), now).outcome.Ok?
       <==> FitsThroughout(lim, sends, g, order, now) && AllTaken(lim, sends, g, order)
    ensures FitsThroughout(lim, sends, g, order, now) && AllTaken(lim, sends, g, order) ==>
      RunFrames(lim, StateOf(sends, g), FramesOf(sends, g, order, now), now)
      == Run(StateOf(sends, After(sends, g, order, now)), Ok(PacketsOf(sends, Finished(sends, g, order, now))))
    decreases |order|
  {
    hide Cuts, Legal, Takes, AllTaken, FitsAt, StepFrame, StateOf, FitsThroughout, Advance;
    if order == [] {
      NothingFits(lim, sends, g, now);
    } else {
      var id := order[0];
      LegalFirst(sends, g, order, now);
      var h, rest := Advance(sends, g, id, now), order[1..];
      FitsFirst(lim, sends, g, order, now);
      TakenFirst(lim, sends, g, order, now);
      InterleavedStep(lim, sends, g, id, now);
      var fs := FramesOf(sends, g, order, now);
      assert fs[0] == sends[id].slices[g.done[id]] && fs[1..] == FramesOf(sends, h, rest, now);
      if FitsAt(lim, sends, h) && Takes(lim, sends[id], g.done[id]) {
        InterleavedRun(lim, sends, h, rest, now);
        FinishedFirst(sends, g, order, now);
      } else if !FitsAt(lim, sends, h) {
        NotLater(lim, sends, h, rest, now);
      }
    }
  }

  lemma NothingFits(lim: Limits, sends: Sends, g: Progress, now: int)
    requires Tracks(sends, g) && FitsAt(lim, sends, g)
    ensures Legal(sends, g, []) && FitsThroughout(lim, sends, g, [], now) && AllTaken(lim, sends, g, [])
  {
    FitsNow(lim, sends, g, [], now);
  }

  lemma NotLater(lim: Limits, sends: Sends, g: Progress, order: seq<U32>, now: int)
    requires Tracks(sends, g) && Legal(sends, g, order) && !FitsAt(lim, sends, g)
    ensures !FitsThroughout(lim, sends, g, order, now)
  {
    FitsNow(lim, sends, g, order, now);
  }

  lemma FinishedFirst(sends: Sends, g: Progress, order: seq<U32>, now: int)
    requires Tracks(sends, g) && Legal(sends, g, order) && order != []
    requires order[0] in sends && g.done[order[0]] < |sends[order[0]].slices|
    requires Legal(sends, Advance(sends, g, order[0], now), order[1..])
    ensures PacketsOf(sends, Finished(sends, g, order, now))
         == Emitted(if IsLast(sends, g, order[0]) then Some(sends[order[0]].packet) else None)
            + PacketsOf(sends, Finished(sends, Advance(sends, g, order[0], now), order[1..], now))
  {
    hide Cuts, Legal, Advance, Tracks;
    var rest := Finished(sends, Advance(sends, g, order[0], now), order[1..], now);
    assert ([order[0]] + rest)[1..] == rest && [] + rest == rest;
  }

  // ---- records over time ----

  lemma LegalRecord(sends: Sends, g: Progress, orders: seq<seq<U32>>, now: int)
    requires Tracks(sends, g) && Legal(sends, g, Flatten<U32>(orders)) && orders != []
    ensures Legal(sends, g, orders[0])
    ensures Legal(sends, After(sends, g, orders[0], now), Flatten<U32>(orders[1..]))
    ensures multiset(Flatten<U32>(orders)) == multiset(orders[0]) + multiset(Flatten<U32>(orders[1..]))
  {
    hide Cuts, After;
    var all, first, rest := Flatten<U32>(orders), orders[0], Flatten<U32>(orders[1..]);
    assert all == first + rest;
    forall id | id in first
      ensures id in sends && g.done[id] + multiset(first)[id] <= |sends[id].slices|
    {
      assert id in all;
    }
    forall id | id in rest
      ensures id in sends && After(sends, g, first, now).done[id] + multiset(rest)[id] <= |sends[id].slices|
    {
      assert id in all;
      FinishedOnce(sends, g, first, now, id);
    }
  }

  /** The frames of each record. */
  ghost function GroupsOf(sends: Sends, g: Progress, orders: seq<seq<U32>>, times: seq<int>): (groups: seq<seq<Frame>>)
    requires Tracks(sends, g) && Legal(sends, g, Flatten<U32>(orders)) && |times| == |orders|
    ensures |groups| == |orders|
    decreases |orders|
  {
    if orders == [] then []
    else
      LegalRecord(sends, g, orders, times[0]);
      [FramesOf(sends, g, orders[0], times[0])]
      + GroupsOf(sends, After(sends, g, orders[0], times[0]), orders[1..], times[1..])
  }

  ghost predicate NoneEmpty(orders: seq<seq<U32>>)
  {
    forall i :: 0 <= i < |orders| ==> orders[i] != []
  }

  ghost function FinishedIn(sends: Sends, g: Progress, orders: seq<seq<U32>>, times: seq<int>): seq<U32>
    requires Tracks(sends, g) && Legal(sends, g, Flatten<U32>(orders)) && |times| == |orders|
    decreases |orders|
  {
    if orders == [] then []
    else
      LegalRecord(sends, g, orders, times[0]);
      Finished(sends, g, orders[0], times[0])
      + FinishedIn(sends, After(sends, g, orders[0], times[0]), orders[1..], times[1..])
  }

  ghost function AfterAll(sends: Sends, g: Progress, orders: seq<seq<U32>>, times: seq<int>): (h: Progress)
    requires Tracks(sends, g) && Legal(sends, g, Flatten<U32>(orders)) && |times| == |orders|
    ensures Tracks(sends, h)
    decreases |orders|
  {
    if orders == [] then g
    else
      LegalRecord(sends, g, orders, times[0]);
      AfterAll(sends, After(sends, g, orders[0], times[0]), orders[1..], times[1..])
  }

  /** No packet is open for longer than the timeout when a record arrives. */
  ghost predicate OnTime(lim: Limits, sends: Sends, g: Progress, now: int)
    requires Tracks(sends, g)
  {
    forall id :: id in OpenIds(sends, g) ==> now - g.begun[id] <= lim.timeout
  }

  /** Every record finds the open packets in time, and its slices stay within the limits. */
  ghost predicate Smooth(lim: Limits, sends: Sends, g: Progress, orders: seq<seq<U32>>, times: seq<int>)
    requires Tracks(sends, g) && Legal(sends, g, Flatten<U32>(orders)) && |times| == |orders|
    decreases |orders|
  {
    if orders == [] then true
    else
      LegalRecord(sends, g, orders, times[0]);
      && OnTime(lim, sends, g, times[0])
      && FitsThroughout(lim, sends, g, orders[0], times[0]) && AllTaken(lim, sends, g, orders[0])
      && Smooth(lim, sends, After(sends, g, orders[0], times[0]), orders[1..], times[1..])
  }

  lemma NoneExpires(lim: Limits, sends: Sends, g: Progress, now: int)
    requires Tracks(sends, g) && OnTime(lim, sends, g, now)
    ensures Expire(lim, StateOf(sends, g), now) == StateOf(sends, g)
  {
    hide Cuts, SumOf;
    PendingBytes(sends, g, OpenIds(sends, g));
    ExpireNothing(lim, StateOf(sends, g), now);
  }

  lemma {:induction false} PacketsOfConcat(sends: map<U32, Sent>, a: seq<U32>, b: seq<U32>)
    ensures PacketsOf(sends, a + b) == PacketsOf(sends, a) + PacketsOf(sends, b)
  {
    if a == [] {
      assert a + b == b;
    } else {
      PacketsOfConcat(sends, a[1..], b);
      assert (a + b)[0] == a[0] && (a + b)[1..] == a[1..] + b;
      ConcatAssoc(if a[0] in sends then [sends[a[0]].packet] else [], PacketsOf(sends, a[1..]), PacketsOf(sends, b));
    }
  }

  lemma {:induction false} FramesSome(sends: Sends, g: Progress, order: seq<U32>, now: int)
    requires Tracks(sends, g) && Legal(sends, g, order)
    ensures |FramesOf(sends, g, order, now)| == |order|
    decreases |order|
  {
    hide Cuts, Legal, Advance;
    if order != [] {
      LegalFirst(sends, g, order, now);
      FramesSome(sends, Advance(sends, g, order[0], now), order[1..], now);
    }
  }

  lemma InterleavedRecord(lim: Limits, sends: Sends, g: Progress, order: seq<U32>, now: int)
    requires Tracks(sends, g) && Legal(sends, g, order) && FitsAt(lim, sends, g) && OnTime(lim, sends, g, now)
    ensures Taken(lim, StateOf(sends, g), FramesOf(sends, g, order, now), now).outcome.Ok?
       <==> FitsThroughout(lim, sends, g, order, now) && AllTaken(lim, sends, g, order)
    ensures FitsThroughout(lim, sends, g, order, now) && AllTaken(lim, sends, g, order) ==>
      && Taken(lim, StateOf(sends, g), FramesOf(sends, g, order, now), now)
      == Run(StateOf(sends, After(sends, g, order, now)), Ok(PacketsOf(sends, Finished(sends, g, order, now))))
      && FitsAt(lim, sends, After(sends, g, order, now))
  {
    hide Cuts, Legal, Tracks, Takes, AllTaken, FitsAt, StateOf, OnTime, FitsAfter, RunFrames, After, FramesOf, Finished;
    NoneExpires(lim, sends, g, now);
    InterleavedRun(lim, sends, g, order, now);
    if FitsThroughout(lim, sends, g, order, now) {
      assert FitsAfter(lim, sends, g, order, now, |order|);
      FitsLast(lim, sends, g, order, now);
    }
  }

  lemma FitsLast(lim: Limits, sends: Sends, g: Progress, order: seq<U32>, now: int)
    requires Tracks(sends, g) && Legal(sends, g, order)
    ensures FitsAfter(lim, sends, g, order, now, |order|) <==> FitsAt(lim, sends, After(sends, g, order, now))
  {
    assert order[..|order|] == order;
  }

  lemma GroupsFirst(sends: Sends, g: Progress, orders: seq<seq<U32>>, times: seq<int>)
    requires Tracks(sends, g) && Legal(sends, g, Flatten<U32>(orders)) && |times| == |orders| && orders != []
    requires Legal(sends, g, orders[0])
    requires Legal(sends, After(sends, g, orders[0], times[0]), Flatten<U32>(orders[1..]))
    ensures GroupsOf(sends, g, orders, times)[0] == FramesOf(sends, g, orders[0], times[0])
    ensures |GroupsOf(sends, g, orders, times)[0]| == |orders[0]|
    ensures GroupsOf(sends, g, orders, times)[1..]
         == GroupsOf(sends, After(sends, g, orders[0], times[0]), orders[1..], times[1..])
  {
    hide Cuts, Legal, Tracks, After, FramesOf;
    FramesSome(sends, g, orders[0], times[0]);
  }

  /** The same over any number of records, none of which is empty. */
  lemma {:induction false} InterleavedRecords(lim: Limits, sends: Sends, g: Progress, orders: seq<seq<U32>>, times: seq<int>)
    requires Tracks(sends, g) && Legal(sends, g, Flatten<U32>(orders)) && |times| == |orders| && NoneEmpty(orders)
    requires FitsAt(lim, sends, g) && Smooth(lim, sends, g, orders, times)
    ensures DecodeAll(lim, StateOf(sends, g), Sealed(GroupsOf(sends, g, orders, times)), times)
         == Run(StateOf(sends, AfterAll(sends, g, orders, times)), Ok(PacketsOf(sends, FinishedIn(sends, g, orders, times))))
    decreases |orders|
  {
    hide Cuts, Legal, Tracks, FitsAt, StateOf, OnTime, FitsThroughout, AllTaken, DecodeRecord, PutFrames, After, Finished;
    hide FramesOf, RunFrames, Sealed, GroupsOf;
    if orders != [] {
      LegalRecord(sends, g, orders, times[0]);
      var h, groups := After(sends, g, orders[0], times[0]), GroupsOf(sends, g, orders, times);
      InterleavedRecord(lim, sends, g, orders[0], times[0]);
      InterleavedRecords(lim, sends, h, orders[1..], times[1..]);
      PacketsOfConcat(sends, Finished(sends, g, orders[0], times[0]), FinishedIn(sends, h, orders[1..], times[1..]));
      GroupsFirst(sends, g, orders, times);
      SealedFirst(groups);
      DecodeEnvelope(lim, StateOf(sends, g), groups[0], times[0]);
    }
  }

  lemma {:induction false} FinishedInOnce(sends: Sends, g: Progress, orders: seq<seq<U32>>, times: seq<int>, id: U32)
    requires Tracks(sends, g) && Legal(sends, g, Flatten<U32>(orders)) && |times| == |orders| && id in sends
    ensures AfterAll(sends, g, orders, times).done[id] == g.done[id] + multiset(Flatten<U32>(orders))[id]
    ensures multiset(FinishedIn(sends, g, orders, times))[id] ==
      if g.done[id] < |sends[id].slices| == AfterAll(sends, g, orders, times).done[id] then 1 else 0
    decreases |orders|
  {
    hide Cuts, Legal, After, Finished;
    if orders != [] {
      LegalRecord(sends, g, orders, times[0]);
      FinishedOnce(sends, g, orders[0], times[0], id);
      FinishedInOnce(sends, After(sends, g, orders[0], times[0]), orders[1..], times[1..], id);
    }
  }

  lemma {:induction false} FinishedInSent(sends: Sends, g: Progress, orders: seq<seq<U32>>, times: seq<int>)
    requires Tracks(sends, g) && Legal(sends, g, Flatten<U32>(orders)) && |times| == |orders|
    ensures forall i :: 0 <= i < |FinishedIn(sends, g, orders, times)| ==> FinishedIn(sends, g, orders, times)[i] in sends
    decreases |orders|
  {
    hide Cuts, Legal, After, Finished;
    if orders != [] {
      LegalRecord(sends, g, orders, times[0]);
      FinishedSent(sends, g, orders[0], times[0]);
      FinishedInSent(sends, After(sends, g, orders[0], times[0]), orders[1..], times[1..]);
    }
  }

  ghost function Start(sends: Sends): (g: Progress)
    ensures Tracks(sends, g) && forall id :: id in sends ==> g.done[id] == 0
  {
    Progress(map id | id in sends :: 0, map id | id in sends :: 0)
  }

  /** All slices of all packets arrive, each once. */
  ghost predicate Whole(sends: Sends, order: seq<U32>)
  {
    && Legal(sends, Start(sends), order)
    && (forall id :: id in sends ==> multiset(order)[id] == |sends[id].slices|)
  }

  /**
   Any interleaving of any packets over any records, in time and within the limits, leaves an
   empty receiver that has handed out every packet exactly once.
   */
  lemma InterleavedDelivery(lim: Limits, sends: Sends, orders: seq<seq<U32>>, times: seq<int>) returns (ids: seq<U32>)
    requires |times| == |orders| && Whole(sends, Flatten<U32>(orders)) && NoneEmpty(orders)
    requires Smooth(lim, sends, Start(sends), orders, times)
    ensures DecodeAll(lim, EMPTY, Sealed(GroupsOf(sends, Start(sends), orders, times)), times)
         == Run(EMPTY, Ok(PacketsOf(sends, ids)))
    ensures forall i :: 0 <= i < |ids| ==> ids[i] in sends
    ensures forall id :: id in sends ==> multiset(ids)[id] == 1
  {
    hide Cuts, Legal, Smooth, DecodeAll, GroupsOf, FinishedIn, Sealed;
    var g := Start(sends);
    ids := FinishedIn(sends, g, orders, times);
    var h := AfterAll(sends, g, orders, times);
    forall id | id in sends
      ensures h.done[id] == |sends[id].slices| && multiset(ids)[id] == 1
    {
      AllDone(sends, g, orders, times, id);
    }
    FinishedInSent(sends, g, orders, times);
    NothingOpen(sends, g);
    NothingOpen(sends, h);
    StartFits(lim, sends);
    InterleavedRecords(lim, sends, g, orders, times);
  }

  lemma StartFits(lim: Limits, sends: Sends)
    ensures FitsAt(lim, sends, Start(sends))
  {
    hide Cuts;
    assert OpenIds(sends, Start(sends)) == {};
  }

  lemma AllDone(sends: Sends, g: Progress, orders: seq<seq<U32>>, times: seq<int>, id: U32)
    requires Tracks(sends, g) && Legal(sends, g, Flatten<U32>(orders)) && |times| == |orders| && id in sends
    requires g.done[id] == 0 && multiset(Flatten<U32>(orders))[id] == |sends[id].slices|
    ensures AfterAll(sends, g, orders, times).done[id] == |sends[id].slices|
    ensures multiset(FinishedIn(sends, g, orders, times))[id] == 1
  {
    hide *;
    FinishedInOnce(sends, g, orders, times, id);
    SlicesSome(sends, id);
  }

  lemma SlicesSome(sends: Sends, id: U32)
    requires id in sends
    ensures |sends[id].slices| > 0
  {
  }

  lemma NothingOpen(sends: Sends, g: Progress)
    requires Tracks(sends, g) && forall id :: id in sends ==> g.done[id] == 0 || g.done[id] == |sends[id].slices|
    ensures StateOf(sends, g) == EMPTY
  {
    hide Cuts;
    assert OpenIds(sends, g) == {};
    assert PendingOf(sends, g, {}) == map[];
  }
}
