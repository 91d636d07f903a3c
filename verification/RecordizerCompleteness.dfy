/**
 When does everything come out?  The slices of any packets are mixed over any records and read by
 the real reader, which drops what is late and goes on after a rejected record.  No packet comes
 out twice, and all of them come out exactly when every record is in time and within the limits.
 */
module RecordizerCompleteness {
  import opened Bytes
  import opened RecordizerWire
  import opened Reassembler
  import opened RecordizerDelivery
  import opened RecordizerAccounting
  import opened RecordizerInterleaving

  ghost function SentOf(sends: Sends): map<U32, Bytes>
  {
    map id | id in sends :: sends[id].packet
  }

  // ---- the bytes of a schedule ----

  /** The bytes of packet `id` that are in so far. */
  ghost function BytesIn(sends: Sends, g: Progress, id: U32): nat
    requires Tracks(sends, g) && id in sends
  {
    SumLen(ChunksOf(sends[id].slices[..g.done[id]]))
  }

  lemma {:induction false} GrownBytes(fs: seq<Frame>, n: nat, id: U32, packet: Bytes, now: int)
    requires n <= |fs| && Cut(fs, id, packet)
    ensures Grown(fs, n, id, packet, now).received == SumLen(ChunksOf(fs[..n]))
  {
    hide Cut;
    if n == 0 {
      assert ChunksOf(fs[..0]) == [];
    } else {
      hide SumLen;
      GrownBytes(fs, n - 1, id, packet, now);
      CutParts(fs, id, packet, n - 1);
    }
  }

  lemma HeldOf(sends: Sends, g: Progress, id: U32)
    requires Tracks(sends, g) && id in sends
    ensures Held(StateOf(sends, g), id) == if g.done[id] < |sends[id].slices| then BytesIn(sends, g, id) else 0
  {
    var s, n := sends[id], g.done[id];
    hide Cut, Grown, SumOf;
    GrownBytes(s.slices, n, id, s.packet, g.begun[id]);
    if n == 0 {
      assert ChunksOf(s.slices[..0]) == [];
    }
  }

  /** A packet that is all in has all its bytes in, and one that is not lacks some. */
  lemma AllIn(sends: Sends, g: Progress, id: U32)
    requires Tracks(sends, g) && id in sends
    ensures BytesIn(sends, g, id) == |sends[id].packet| <==> g.done[id] == |sends[id].slices|
    ensures g.done[id] > 0 <==> BytesIn(sends, g, id) > 0
    ensures |sends[id].packet| > 0
  {
    var s, n := sends[id], g.done[id];
    if n > 0 {
      hide Disjoint, SumLen;
      CutParts(s.slices, id, s.packet, n - 1);
    } else {
      assert ChunksOf(s.slices[..0]) == [];
      CutParts(s.slices, id, s.packet, |s.slices| - 1);
    }
  }

  lemma OneMore(sends: Sends, g: Progress, id: U32, now: int, x: U32)
    requires Tracks(sends, g) && id in sends && g.done[id] < |sends[id].slices| && x in sends
    ensures BytesIn(sends, Advance(sends, g, id, now), x)
         == BytesIn(sends, g, x) + if id == x then |sends[id].slices[g.done[id]].payload| else 0
  {
    hide Disjoint, SumLen;
    CutParts(sends[id].slices, id, sends[id].packet, g.done[id]);
  }

  lemma SliceId(sends: Sends, id: U32, n: nat)
    requires id in sends && n < |sends[id].slices|
    ensures SliceOf(sends[id].slices[n], id, sends[id].packet)
  {
  }

  lemma {:induction false} ArrivedOf(sends: Sends, g: Progress, order: seq<U32>, now: int, id: U32)
    requires Tracks(sends, g) && Legal(sends, g, order) && id in sends
    ensures BytesIn(sends, g, id) + Arrived(FramesOf(sends, g, order, now), id)
         == BytesIn(sends, After(sends, g, order, now), id)
    ensures AllHonest(FramesOf(sends, g, order, now), SentOf(sends))
    decreases |order|
  {
    hide Cuts, Legal, Advance, BytesIn, SliceOf;
    if order != [] {
      LegalFirst(sends, g, order, now);
      var h := Advance(sends, g, order[0], now);
      SliceId(sends, order[0], g.done[order[0]]);
      SliceIds(sends[order[0]].slices[g.done[order[0]]], order[0], sends[order[0]].packet);
      OneMore(sends, g, order[0], now, id);
      ArrivedOf(sends, h, order[1..], now, id);
      var fs := FramesOf(sends, g, order, now);
      assert fs[0] == sends[order[0]].slices[g.done[order[0]]] && fs[1..] == FramesOf(sends, h, order[1..], now);
    }
  }

  lemma SliceIds(f: Frame, id: U32, packet: Bytes)
    requires SliceOf(f, id, packet)
    ensures f.id == id
  {
  }

  lemma {:induction false} ArrivedIn(sends: Sends, g: Progress, orders: seq<seq<U32>>, times: seq<int>, id: U32)
    requires Tracks(sends, g) && Legal(sends, g, Flatten<U32>(orders)) && |times| == |orders| && id in sends
    ensures BytesIn(sends, g, id) + Arrived(Flatten<Frame>(GroupsOf(sends, g, orders, times)), id)
         == BytesIn(sends, AfterAll(sends, g, orders, times), id)
    decreases |orders|
  {
    hide Cuts, Legal, After, FramesOf, BytesIn, Tracks;
    if orders != [] {
      hide GroupsOf, Arrived;
      LegalRecord(sends, g, orders, times[0]);
      GroupsFirst(sends, g, orders, times);
      ArrivedOf(sends, g, orders[0], times[0], id);
      ArrivedIn(sends, After(sends, g, orders[0], times[0]), orders[1..], times[1..], id);
      FlattenFirst(GroupsOf(sends, g, orders, times), id);
    }
  }

  lemma FramesHonest(sends: Sends, g: Progress, order: seq<U32>, now: int)
    requires Tracks(sends, g) && Legal(sends, g, order)
    ensures AllHonest(FramesOf(sends, g, order, now), SentOf(sends))
  {
    hide Cuts;
    if order != [] {
      assert order[0] in order;
      ArrivedOf(sends, g, order, now, order[0]);
    }
  }

  lemma {:induction false} HonestGroups(sends: Sends, g: Progress, orders: seq<seq<U32>>, times: seq<int>)
    requires Tracks(sends, g) && Legal(sends, g, Flatten<U32>(orders)) && |times| == |orders| && NoneEmpty(orders)
    ensures GroupsHonest(GroupsOf(sends, g, orders, times), SentOf(sends))
    decreases |orders|
  {
    hide Cuts, Legal, After, FramesOf, Tracks, AllHonest;
    if orders != [] {
      LegalRecord(sends, g, orders, times[0]);
      GroupsFirst(sends, g, orders, times);
      FramesHonest(sends, g, orders[0], times[0]);
      HonestGroups(sends, After(sends, g, orders[0], times[0]), orders[1..], times[1..]);
      FirstHonest(GroupsOf(sends, g, orders, times), SentOf(sends));
    }
  }

  lemma FirstHonest(groups: seq<seq<Frame>>, sent: map<U32, Bytes>)
    requires groups != [] && groups[0] != [] && AllHonest(groups[0], sent) && GroupsHonest(groups[1..], sent)
    ensures GroupsHonest(groups, sent)
  {
    hide AllHonest;
    forall i | 0 <= i < |groups|
      ensures groups[i] != [] && AllHonest(groups[i], sent)
    {
      if i > 0 {
        assert groups[1..][i - 1] == groups[i];
      }
    }
  }

  // ---- counting packets ----

  ghost function Unfinished(sends: Sends, g: Progress): set<U32>
    requires Tracks(sends, g)
  {
    set id | id in sends && g.done[id] < |sends[id].slices|
  }

  lemma {:induction false} FinishedCount(sends: Sends, g: Progress, order: seq<U32>, now: int)
    requires Tracks(sends, g) && Legal(sends, g, order)
    ensures |Finished(sends, g, order, now)| + |Unfinished(sends, After(sends, g, order, now))| == |Unfinished(sends, g)|
    decreases |order|
  {
    hide Cuts, Legal;
    if order != [] {
      LegalFirst(sends, g, order, now);
      var id := order[0];
      var h := Advance(sends, g, id, now);
      FinishedCount(sends, h, order[1..], now);
      assert Unfinished(sends, h) == Unfinished(sends, g) - if IsLast(sends, g, id) then {id} else {};
    }
  }

  lemma {:induction false} PacketsOfLength(sends: map<U32, Sent>, ids: seq<U32>)
    requires forall i :: 0 <= i < |ids| ==> ids[i] in sends
    ensures |PacketsOf(sends, ids)| == |ids|
  {
    if ids != [] {
      PacketsOfLength(sends, ids[1..]);
    }
  }

  /** Members of a set, none twice, are no more than the set has. */
  lemma {:induction false} NoMoreThan(ids: seq<U32>, all: set<U32>)
    requires forall id :: id in ids ==> id in all && multiset(ids)[id] <= 1
    ensures |ids| <= |all|
  {
    if ids != [] {
      var first, rest := ids[0], ids[1..];
      assert ids == [first] + rest;
      assert multiset(ids) == multiset{first} + multiset(rest);
      assert first in ids;
      forall id | id in rest
        ensures id in all - {first} && multiset(rest)[id] <= 1
      {
        assert id in ids;
      }
      NoMoreThan(rest, all - {first});
    }
  }

  // ---- all, or fewer ----

  /** The rest of the schedule brings every slice that is missing, each once. */
  ghost predicate Completes(sends: Sends, g: Progress, order: seq<U32>)
    requires Tracks(sends, g)
  {
    Legal(sends, g, order) && forall id :: id in sends ==> g.done[id] + multiset(order)[id] == |sends[id].slices|
  }

  /** What is held and what is still to come make up each unfinished packet, and nothing else. */
  lemma Outstanding(sends: Sends, g: Progress, orders: seq<seq<U32>>, times: seq<int>, id: U32)
    requires Tracks(sends, g) && |times| == |orders| && Completes(sends, g, Flatten<U32>(orders)) && id in sends
    ensures Held(StateOf(sends, g), id) + Arrived(Flatten<Frame>(GroupsOf(sends, g, orders, times)), id)
         == if g.done[id] < |sends[id].slices| then |sends[id].packet| else 0
  {
    hide Cuts, Legal, BytesIn, Held, StateOf, Arrived, GroupsOf, AfterAll;
    HeldOf(sends, g, id);
    FinishedInOnce(sends, g, orders, times, id);
    ArrivedIn(sends, g, orders, times, id);
    AllIn(sends, g, id);
    AllIn(sends, AfterAll(sends, g, orders, times), id);
  }

  /** Whatever is late or rejected, no packet comes out twice, and none that was out already. */
  lemma OnceEach(lim: Limits, sends: Sends, g: Progress, orders: seq<seq<U32>>, times: seq<int>, id: U32)
    requires Tracks(sends, g) && |times| == |orders| && NoneEmpty(orders) && Completes(sends, g, Flatten<U32>(orders))
    requires id in sends
    ensures multiset(SessionIds(lim, StateOf(sends, g), GroupsOf(sends, g, orders, times), times))[id]
         <= if id in Unfinished(sends, g) then 1 else 0
  {
    hide Cuts, Legal, Held, StateOf, Arrived, GroupsOf, SessionIds, GroupsHonest, BytesIn, Flatten;
    var groups := GroupsOf(sends, g, orders, times);
    HonestGroups(sends, g, orders, times);
    Outstanding(sends, g, orders, times, id);
    SessionAccounts(lim, StateOf(sends, g), groups, times, SentOf(sends), id);
    AllIn(sends, g, id);
    AtMost(multiset(SessionIds(lim, StateOf(sends, g), groups, times))[id],
           Held(StateOf(sends, g), id) + Arrived(Flatten<Frame>(groups), id), |sends[id].packet|);
  }

  /** If one unfinished packet does not come out, fewer come out than are unfinished. */
  lemma OneMissing(lim: Limits, sends: Sends, g: Progress, orders: seq<seq<U32>>, times: seq<int>, lost: U32)
    requires Tracks(sends, g) && |times| == |orders| && NoneEmpty(orders) && Completes(sends, g, Flatten<U32>(orders))
    requires lost in Unfinished(sends, g)
    requires lost !in SessionIds(lim, StateOf(sends, g), GroupsOf(sends, g, orders, times), times)
    ensures |SessionIds(lim, StateOf(sends, g), GroupsOf(sends, g, orders, times), times)| < |Unfinished(sends, g)|
  {
    hide Cuts, Legal, StateOf, GroupsOf, SessionIds, GroupsHonest, Flatten;
    var groups := GroupsOf(sends, g, orders, times);
    var ids := SessionIds(lim, StateOf(sends, g), groups, times);
    HonestGroups(sends, g, orders, times);
    IdsSent(lim, StateOf(sends, g), groups, times, SentOf(sends));
    forall id | id in ids
      ensures id in Unfinished(sends, g) - {lost} && multiset(ids)[id] <= 1
    {
      OnceEach(lim, sends, g, orders, times, id);
    }
    NoMoreThan(ids, Unfinished(sends, g) - {lost});
  }

  lemma NoneOf(ids: seq<U32>, id: U32, bytes: nat, total: nat)
    requires Paid(multiset(ids)[id], total, 0, bytes) && bytes < total
    ensures id !in ids
  {
    AtMost(multiset(ids)[id], bytes, total);
  }

  /** A packet that is too late when a record arrives does not come out. */
  lemma LateIsLost(lim: Limits, sends: Sends, g: Progress, orders: seq<seq<U32>>, times: seq<int>, late: U32)
    requires Tracks(sends, g) && |times| == |orders| && NoneEmpty(orders) && Completes(sends, g, Flatten<U32>(orders))
    requires orders != [] && IsOpen(sends, g, late) && times[0] - g.begun[late] > lim.timeout
    ensures late !in SessionIds(lim, StateOf(sends, g), GroupsOf(sends, g, orders, times), times)
  {
    hide Cuts, Legal, Held, Arrived, GroupsOf, SessionIds, GroupsHonest, BytesIn, Flatten, SumOf;
    var groups := GroupsOf(sends, g, orders, times);
    HonestGroups(sends, g, orders, times);
    Outstanding(sends, g, orders, times, late);
    HeldOf(sends, g, late);
    AllIn(sends, g, late);
    assert Expired(lim, StateOf(sends, g).pending[late], times[0]);
    SessionAccounts(lim, StateOf(sends, g), groups, times, SentOf(sends), late);
    NoneOf(SessionIds(lim, StateOf(sends, g), groups, times), late,
           Arrived(Flatten<Frame>(groups), late), |sends[late].packet|);
  }

  /** When a record is rejected, some packet it carries does not come out. */
  lemma RejectedIsLost(lim: Limits, sends: Sends, g: Progress, orders: seq<seq<U32>>, times: seq<int>)
    returns (lost: U32)
    requires Tracks(sends, g) && |times| == |orders| && NoneEmpty(orders) && Completes(sends, g, Flatten<U32>(orders))
    requires orders != []
    requires Taken(lim, StateOf(sends, g), GroupsOf(sends, g, orders, times)[0], times[0]).outcome.Err?
    ensures lost in Unfinished(sends, g)
    ensures lost !in SessionIds(lim, StateOf(sends, g), GroupsOf(sends, g, orders, times), times)
  {
    hide Cuts, Legal, Held, Arrived, GroupsOf, SessionIds, GroupsHonest, Flatten, StateOf, Taken, BytesIn;
    var groups := GroupsOf(sends, g, orders, times);
    HonestGroups(sends, g, orders, times);
    lost := RejectedAccounts(lim, StateOf(sends, g), groups, times, SentOf(sends));
    Outstanding(sends, g, orders, times, lost);
    var ids: seq<U32> := SessionIds(lim, StateOf(sends, g), groups, times);
    if lost in Unfinished(sends, g) {
      NoneOf(ids, lost, |sends[lost].packet| - 1, |sends[lost].packet|);
    }
  }

  lemma StillCompletes(sends: Sends, g: Progress, orders: seq<seq<U32>>, now: int)
    requires Tracks(sends, g) && Completes(sends, g, Flatten<U32>(orders)) && orders != []
    ensures Legal(sends, g, orders[0])
    ensures Completes(sends, After(sends, g, orders[0], now), Flatten<U32>(orders[1..]))
  {
    hide Cuts, Legal, After, Flatten;
    LegalRecord(sends, g, orders, now);
    forall id | id in sends
      ensures After(sends, g, orders[0], now).done[id] + multiset(Flatten<U32>(orders[1..]))[id] == |sends[id].slices|
    {
      FinishedOnce(sends, g, orders[0], now, id);
    }
  }

  /** A record that is late or out of limits costs a packet. */
  lemma BadRecord(lim: Limits, sends: Sends, g: Progress, orders: seq<seq<U32>>, times: seq<int>)
    requires Tracks(sends, g) && |times| == |orders| && NoneEmpty(orders) && Completes(sends, g, Flatten<U32>(orders))
    requires FitsAt(lim, sends, g) && orders != [] && Legal(sends, g, orders[0])
    requires !(OnTime(lim, sends, g, times[0])
               && FitsThroughout(lim, sends, g, orders[0], times[0]) && AllTaken(lim, sends, g, orders[0]))
    ensures |SessionIds(lim, StateOf(sends, g), GroupsOf(sends, g, orders, times), times)| < |Unfinished(sends, g)|
  {
    hide *;
    if !OnTime(lim, sends, g, times[0]) {
      var late := SomeLate(lim, sends, g, times[0]);
      LateIsLost(lim, sends, g, orders, times, late);
      OneMissing(lim, sends, g, orders, times, late);
    } else {
      FirstRejected(lim, sends, g, orders, times);
      var lost := RejectedIsLost(lim, sends, g, orders, times);
      OneMissing(lim, sends, g, orders, times, lost);
    }
  }

  lemma FirstRejected(lim: Limits, sends: Sends, g: Progress, orders: seq<seq<U32>>, times: seq<int>)
    requires Tracks(sends, g) && |times| == |orders| && Completes(sends, g, Flatten<U32>(orders))
    requires FitsAt(lim, sends, g) && orders != [] && Legal(sends, g, orders[0]) && OnTime(lim, sends, g, times[0])
    requires !(FitsThroughout(lim, sends, g, orders[0], times[0]) && AllTaken(lim, sends, g, orders[0]))
    ensures Legal(sends, g, Flatten<U32>(orders))
    ensures Taken(lim, StateOf(sends, g), GroupsOf(sends, g, orders, times)[0], times[0]).outcome.Err?
  {
    hide *;
    CompletesLegal(sends, g, Flatten<U32>(orders));
    LegalRecord(sends, g, orders, times[0]);
    GroupsFirst(sends, g, orders, times);
    InterleavedRecord(lim, sends, g, orders[0], times[0]);
  }

  lemma SomeLate(lim: Limits, sends: Sends, g: Progress, now: int) returns (late: U32)
    requires Tracks(sends, g) && !OnTime(lim, sends, g, now)
    ensures IsOpen(sends, g, late) && late in Unfinished(sends, g) && now - g.begun[late] > lim.timeout
  {
    hide Cuts;
    late :| late in OpenIds(sends, g) && now - g.begun[late] > lim.timeout;
  }

  lemma CompletesLegal(sends: Sends, g: Progress, order: seq<U32>)
    requires Tracks(sends, g) && Completes(sends, g, order)
    ensures Legal(sends, g, order)
  {
  }

  lemma SmoothFirst(lim: Limits, sends: Sends, g: Progress, orders: seq<seq<U32>>, times: seq<int>)
    requires Tracks(sends, g) && Legal(sends, g, Flatten<U32>(orders)) && |times| == |orders| && orders != []
    requires Legal(sends, g, orders[0])
    requires Legal(sends, After(sends, g, orders[0], times[0]), Flatten<U32>(orders[1..]))
    ensures Smooth(lim, sends, g, orders, times) <==>
      && OnTime(lim, sends, g, times[0])
      && FitsThroughout(lim, sends, g, orders[0], times[0]) && AllTaken(lim, sends, g, orders[0])
      && Smooth(lim, sends, After(sends, g, orders[0], times[0]), orders[1..], times[1..])
  {
    hide Cuts, Legal, After, OnTime, FitsThroughout, AllTaken;
  }

  /** From any point of any schedule: all unfinished packets come out exactly when the rest is smooth. */
  lemma {:induction false} AllOrFewer(lim: Limits, sends: Sends, g: Progress, orders: seq<seq<U32>>, times: seq<int>)
    requires Tracks(sends, g) && |times| == |orders| && NoneEmpty(orders) && Completes(sends, g, Flatten<U32>(orders))
    requires FitsAt(lim, sends, g)
    ensures |SessionIds(lim, StateOf(sends, g), GroupsOf(sends, g, orders, times), times)| <= |Unfinished(sends, g)|
    ensures |SessionIds(lim, StateOf(sends, g), GroupsOf(sends, g, orders, times), times)| == |Unfinished(sends, g)|
       <==> Smooth(lim, sends, g, orders, times)
    decreases |orders|
  {
    if orders == [] {
      hide Cuts, Legal, StateOf;
      AllFinished(sends, g);
    } else {
      var now := times[0];
      NoneEmptyRest(orders);
      hide *;
      CompletesLegal(sends, g, Flatten<U32>(orders));
      LegalRecord(sends, g, orders, now);
      StillCompletes(sends, g, orders, now);
      SmoothFirst(lim, sends, g, orders, times);
      if OnTime(lim, sends, g, now)
         && FitsThroughout(lim, sends, g, orders[0], now) && AllTaken(lim, sends, g, orders[0]) {
        InterleavedRecord(lim, sends, g, orders[0], now);
        GoodRecord(lim, sends, g, orders, times);
        AllOrFewer(lim, sends, After(sends, g, orders[0], now), orders[1..], times[1..]);
      } else {
        BadRecord(lim, sends, g, orders, times);
      }
    }
  }

  lemma NoneEmptyRest(orders: seq<seq<U32>>)
    requires NoneEmpty(orders) && orders != []
    ensures NoneEmpty(orders[1..])
  {
  }

  lemma AllFinished(sends: Sends, g: Progress)
    requires Tracks(sends, g) && Completes(sends, g, [])
    ensures Unfinished(sends, g) == {}
  {
    hide Cuts, Legal;
  }

  /** A good record hands out as many packets as it finishes. */
  lemma GoodRecord(lim: Limits, sends: Sends, g: Progress, orders: seq<seq<U32>>, times: seq<int>)
    requires Tracks(sends, g) && |times| == |orders| && Legal(sends, g, Flatten<U32>(orders)) && orders != []
    requires Legal(sends, g, orders[0])
    requires Legal(sends, After(sends, g, orders[0], times[0]), Flatten<U32>(orders[1..]))
    requires Taken(lim, StateOf(sends, g), FramesOf(sends, g, orders[0], times[0]), times[0])
          == Run(StateOf(sends, After(sends, g, orders[0], times[0])),
                 Ok(PacketsOf(sends, Finished(sends, g, orders[0], times[0]))))
    ensures var h := After(sends, g, orders[0], times[0]);
            |SessionIds(lim, StateOf(sends, g), GroupsOf(sends, g, orders, times), times)| + |Unfinished(sends, h)|
            == |SessionIds(lim, StateOf(sends, h), GroupsOf(sends, h, orders[1..], times[1..]), times[1..])|
               + |Unfinished(sends, g)|
  {
    hide Cuts, Legal, StateOf, GroupsOf, Flatten, After, Finished, FramesOf, RunFrames, RunIds;
    hide PacketsOf, Unfinished, Expire;
    GroupsFirst(sends, g, orders, times);
    FinishedCount(sends, g, orders[0], times[0]);
    FinishedSent(sends, g, orders[0], times[0]);
    PacketsOfLength(sends, Finished(sends, g, orders[0], times[0]));
    RunLength(lim, Expire(lim, StateOf(sends, g), times[0]), FramesOf(sends, g, orders[0], times[0]), times[0]);
  }

  /**
   The reader and any interleaving of any packets over any records, from an empty receiver.  What
   is handed out are packets that were sent, each at most once, whatever is late or rejected; and
   all of them are handed out if and only if every record finds the open packets in time and
   stays within the limits.
   */
  lemma AllHandedOutExactlyWhen(lim: Limits, sends: Sends, orders: seq<seq<U32>>, times: seq<int>) returns (ids: seq<U32>)
    requires |times| == |orders| && Whole(sends, Flatten<U32>(orders)) && NoneEmpty(orders)
    ensures forall id :: id in ids ==> id in sends && multiset(ids)[id] == 1
    ensures ReadAll(lim, EMPTY, Sealed(GroupsOf(sends, Start(sends), orders, times)), times).handed == PacketsOf(sends, ids)
    ensures |ids| == |sends| <==> Smooth(lim, sends, Start(sends), orders, times)
  {
    hide Cuts, Legal, Smooth, GroupsOf, Flatten, SessionIds, ReadAll, Sealed, StateOk, GroupsHonest, PacketsOf;
    var g, sent := Start(sends), SentOf(sends);
    var groups := GroupsOf(sends, g, orders, times);
    NothingOpen(sends, g);
    StartFits(lim, sends);
    HonestGroups(sends, g, orders, times);
    ids := SessionIds(lim, EMPTY, groups, times);
    EmptyOk(lim);
    SessionValues(lim, EMPTY, groups, times, sent);
    SameValues(sends, ids);
    forall id | id in ids
      ensures id in sends && multiset(ids)[id] == 1
    {
      OnceEach(lim, sends, g, orders, times, id);
    }
    AllOrFewer(lim, sends, g, orders, times);
    NoneFinished(sends);
  }

  lemma EmptyOk(lim: Limits)
    ensures StateOk(lim, EMPTY)
  {
  }

  lemma NoneFinished(sends: Sends)
    ensures |Unfinished(sends, Start(sends))| == |sends|
  {
    assert Unfinished(sends, Start(sends)) == sends.Keys;
  }

  lemma {:induction false} SameValues(sends: Sends, ids: seq<U32>)
    requires forall i :: 0 <= i < |ids| ==> ids[i] in SentOf(sends)
    ensures ValuesOf(SentOf(sends), ids) == PacketsOf(sends, ids)
  {
    hide Cuts;
    if ids != [] {
      SameValues(sends, ids[1..]);
      assert ValuesOf(SentOf(sends), ids) == [sends[ids[0]].packet] + ValuesOf(SentOf(sends), ids[1..]);
    }
  }
}
