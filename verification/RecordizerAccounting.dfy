/**
 Where the bytes go.  Every byte of a packet that arrives is held, handed out or lost, and is
 never used twice: so a packet comes out at most as often as its bytes came in, and a packet of
 which a byte was lost does not come out at all.
 */
module RecordizerAccounting {
  import opened Bytes
  import opened RecordizerWire
  import opened Reassembler
  import opened RecordizerDelivery

  /** The bytes of packet `id` that the receiver holds. */
  ghost function Held(st: State, id: U32): nat
  {
    if id in st.pending then st.pending[id].received else 0
  }

  /** The bytes of packet `id` among the frames. */
  ghost function Arrived(fs: seq<Frame>, id: U32): nat
  {
    if fs == [] then 0 else (if fs[0].id == id then |fs[0].payload| else 0) + Arrived(fs[1..], id)
  }

  lemma {:induction false} ArrivedConcat(a: seq<Frame>, b: seq<Frame>, id: U32)
    ensures Arrived(a + b, id) == Arrived(a, id) + Arrived(b, id)
    decreases |a|
  {
    if a == [] {
      assert a + b == b;
    } else {
      ArrivedConcat(a[1..], b, id);
      assert (a + b)[0] == a[0] && (a + b)[1..] == a[1..] + b;
    }
  }

  ghost predicate HandsOut(s: Step)
  {
    s.outcome.Ok? && s.outcome.value.Some?
  }

  /** One frame: what is handed out is paid for with bytes held or just arrived; a rejected frame adds nothing. */
  lemma StepAccounts(lim: Limits, st: State, f: Frame, now: int, id: U32)
    ensures var s := StepFrame(lim, st, f, now);
            (if HandsOut(s) && f.id == id then f.total else 0) + Held(s.state, id)
            <= Held(st, id) + if s.outcome.Ok? && f.id == id then |f.payload| else 0
  {
  }

  // ---- the frames of a record ----

  /** The packets handed out, by number. */
  ghost function RunIds(lim: Limits, st: State, fs: seq<Frame>, now: int): seq<U32>
    decreases |fs|
  {
    if fs == [] then []
    else
      var s := StepFrame(lim, st, fs[0], now);
      if s.outcome.Err? then []
      else (if HandsOut(s) then [fs[0].id] else []) + RunIds(lim, s.state, fs[1..], now)
  }

  ghost function ValuesOf(sent: map<U32, Bytes>, ids: seq<U32>): (packets: seq<Bytes>)
    requires forall i :: 0 <= i < |ids| ==> ids[i] in sent
    ensures |packets| == |ids|
  {
    seq(|ids|, i requires 0 <= i < |ids| => sent[ids[i]])
  }

  /** What a good run hands out are the packets sent under those numbers. */
  lemma {:induction false} RunValues(lim: Limits, st: State, fs: seq<Frame>, now: int, sent: map<U32, Bytes>)
    requires StateOk(lim, st) && Faithful(st, sent) && AllHonest(fs, sent)
    ensures forall i :: 0 <= i < |RunIds(lim, st, fs, now)| ==> RunIds(lim, st, fs, now)[i] in sent
    ensures RunFrames(lim, st, fs, now).outcome.Ok? ==>
      RunFrames(lim, st, fs, now).outcome.value == ValuesOf(sent, RunIds(lim, st, fs, now))
    decreases |fs|
  {
    hide StepFrame, StateOk, Faithful, SliceOf;
    if fs != [] {
      StepFaithful(lim, st, fs[0], now, sent);
      StepKeeps(lim, st, fs[0], now);
      RunValues(lim, StepFrame(lim, st, fs[0], now).state, fs[1..], now, sent);
    }
  }

  lemma {:induction false} RunLength(lim: Limits, st: State, fs: seq<Frame>, now: int)
    requires RunFrames(lim, st, fs, now).outcome.Ok?
    ensures |RunFrames(lim, st, fs, now).outcome.value| == |RunIds(lim, st, fs, now)|
    decreases |fs|
  {
    hide StepFrame;
    if fs != [] {
      RunLength(lim, StepFrame(lim, st, fs[0], now).state, fs[1..], now);
    }
  }

  lemma Products(a: nat, b: nat, total: nat)
    ensures (a + b) * total == a * total + b * total
  {
  }

  /** So many copies of a packet of so many bytes, and what is left over, are no more than came in. */
  ghost predicate Paid(copies: nat, total: nat, left: nat, income: nat)
  {
    copies * total + left <= income
  }

  lemma PaidOnce(first: bool, total: nat, left: nat, income: nat)
    requires (if first then total else 0) + left <= income
    ensures Paid(if first then 1 else 0, total, left, income)
  {
  }

  lemma PaidBoth(first: nat, rest: nat, total: nat, between: nat, left: nat, income: nat, later: nat)
    requires Paid(first, total, between, income) && Paid(rest, total, left, between + later)
    ensures Paid(first + rest, total, left, income + later)
  {
    Products(first, rest, total);
  }

  lemma PaidFrom(copies: nat, total: nat, left: nat, less: nat, income: nat, more: nat)
    requires Paid(copies, total, left, income) && less <= left && income <= more
    ensures Paid(copies, total, less, more)
  {
  }

  lemma NothingRun(lim: Limits, st: State, now: int, id: U32)
    ensures multiset(RunIds(lim, st, [], now))[id] == 0 && RunFrames(lim, st, [], now).state == st && Arrived([], id) == 0
  {
  }

  lemma HonestFirst(fs: seq<Frame>, sent: map<U32, Bytes>)
    requires fs != [] && AllHonest(fs, sent)
    ensures fs[0].id in sent && fs[0].total == |sent[fs[0].id]| && AllHonest(fs[1..], sent)
  {
  }

  lemma ArrivedFirst(fs: seq<Frame>, id: U32)
    requires fs != []
    ensures Arrived(fs, id) == (if fs[0].id == id then |fs[0].payload| else 0) + Arrived(fs[1..], id)
  {
  }

  lemma RunFirst(lim: Limits, st: State, fs: seq<Frame>, now: int, id: U32)
    requires fs != []
    ensures var s := StepFrame(lim, st, fs[0], now);
            if s.outcome.Err? then
              multiset(RunIds(lim, st, fs, now))[id] == 0 && RunFrames(lim, st, fs, now).state == s.state
            else
              && multiset(RunIds(lim, st, fs, now))[id]
                 == (if HandsOut(s) && fs[0].id == id then 1 else 0) + multiset(RunIds(lim, s.state, fs[1..], now))[id]
              && RunFrames(lim, st, fs, now).state == RunFrames(lim, s.state, fs[1..], now).state
  {
    hide StepFrame;
  }

  /** A whole record: the copies handed out, and what is still held, are paid for with bytes that came in. */
  lemma {:induction false} RunAccounts(lim: Limits, st: State, fs: seq<Frame>, now: int, sent: map<U32, Bytes>, id: U32)
    requires AllHonest(fs, sent) && id in sent
    ensures Paid(multiset(RunIds(lim, st, fs, now))[id], |sent[id]|,
                 Held(RunFrames(lim, st, fs, now).state, id), Held(st, id) + Arrived(fs, id))
    decreases |fs|
  {
    hide *;
    if fs == [] {
      NothingRun(lim, st, now, id);
      PaidOnce(false, |sent[id]|, Held(st, id), Held(st, id));
    } else {
      HonestFirst(fs, sent);
      ArrivedFirst(fs, id);
      var s := StepFrame(lim, st, fs[0], now);
      StepAccounts(lim, st, fs[0], now, id);
      RunFirst(lim, st, fs, now, id);
      var came, out := if fs[0].id == id then |fs[0].payload| else 0, HandsOut(s) && fs[0].id == id;
      if s.outcome.Ok? {
        RunAccounts(lim, s.state, fs[1..], now, sent, id);
        PaidOnce(out, |sent[id]|, Held(s.state, id), Held(st, id) + came);
        PaidBoth(if out then 1 else 0, multiset(RunIds(lim, s.state, fs[1..], now))[id], |sent[id]|, Held(s.state, id),
                 Held(RunFrames(lim, s.state, fs[1..], now).state, id), Held(st, id) + came, Arrived(fs[1..], id));
      } else {
        PaidOnce(false, |sent[id]|, Held(s.state, id), Held(st, id) + Arrived(fs, id));
      }
    }
  }

  /** A rejected record loses bytes of some packet. */
  lemma {:induction false} RejectionLoses(lim: Limits, st: State, fs: seq<Frame>, now: int) returns (lost: U32)
    requires RunFrames(lim, st, fs, now).outcome.Err?
    ensures exists i :: 0 <= i < |fs| && fs[i].id == lost
    ensures Held(RunFrames(lim, st, fs, now).state, lost) < Held(st, lost) + Arrived(fs, lost)
    decreases |fs|
  {
    hide StepFrame, Held;
    var s := StepFrame(lim, st, fs[0], now);
    if s.outcome.Err? {
      lost := fs[0].id;
      StepAccounts(lim, st, fs[0], now, lost);
    } else {
      lost := RejectionLoses(lim, s.state, fs[1..], now);
      StepAccounts(lim, st, fs[0], now, lost);
    }
  }

  // ---- a session ----

  ghost predicate GroupsHonest(groups: seq<seq<Frame>>, sent: map<U32, Bytes>)
  {
    forall i :: 0 <= i < |groups| ==> groups[i] != [] && AllHonest(groups[i], sent)
  }

  ghost function Sealed(groups: seq<seq<Frame>>): (records: seq<Bytes>)
    ensures |records| == |groups|
  {
    seq(|groups|, i requires 0 <= i < |groups| => MAGIC + PutFrames(groups[i]))
  }

  ghost function Taken(lim: Limits, st: State, fs: seq<Frame>, now: int): Run
  {
    RunFrames(lim, Expire(lim, st, now), fs, now)
  }

  /** A rejected record hands out nothing, even if it completes a packet before the fault. */
  ghost function TakenIds(lim: Limits, st: State, fs: seq<Frame>, now: int): seq<U32>
  {
    if Taken(lim, st, fs, now).outcome.Ok? then RunIds(lim, Expire(lim, st, now), fs, now) else []
  }

  /** The packets a session hands out, by number. */
  ghost function SessionIds(lim: Limits, st: State, groups: seq<seq<Frame>>, times: seq<int>): seq<U32>
    requires |groups| == |times|
    decreases |groups|
  {
    if groups == [] then []
    else TakenIds(lim, st, groups[0], times[0])
         + SessionIds(lim, Taken(lim, st, groups[0], times[0]).state, groups[1..], times[1..])
  }

  ghost function HandedIn(r: Run): seq<Bytes>
  {
    if r.outcome.Ok? then r.outcome.value else []
  }

  lemma {:induction false} ReadFirst(lim: Limits, st: State, records: seq<Bytes>, times: seq<int>)
    requires |records| == |times| && records != [] && records[0] != []
    ensures var r := DecodeRecord(lim, st, records[0], times[0]);
            var rest := ReadAll(lim, r.state, records[1..], times[1..]);
            ReadAll(lim, st, records, times) == Session(rest.state, HandedIn(r) + rest.handed)
    decreases |records|
  {
    hide DecodeRecord;
    var last := |records| - 1;
    var r := DecodeRecord(lim, st, records[0], times[0]);
    if last == 0 {
      assert records[..0] == [] && times[..0] == [] && records[1..] == [] && times[1..] == [];
      assert [] + HandedIn(r) == HandedIn(r) + [];
    } else {
      ReadFirst(lim, st, records[..last], times[..last]);
      assert records[..last][1..] == records[1..][..last - 1] && times[..last][1..] == times[1..][..last - 1];
      var before := ReadAll(lim, r.state, records[1..][..last - 1], times[1..][..last - 1]);
      if records[last] != [] {
        ConcatAssoc(HandedIn(r), before.handed, HandedIn(DecodeRecord(lim, before.state, records[last], times[last])));
      }
    }
  }

  lemma SealedFirst(groups: seq<seq<Frame>>)
    requires groups != []
    ensures Sealed(groups)[0] == MAGIC + PutFrames(groups[0]) != [] && Sealed(groups)[1..] == Sealed(groups[1..])
  {
  }

  /** What a session hands out are the packets sent under those numbers, one by one. */
  lemma {:induction false} SessionValues(lim: Limits, st: State, groups: seq<seq<Frame>>, times: seq<int>,
                                         sent: map<U32, Bytes>)
    requires |groups| == |times| && StateOk(lim, st) && Faithful(st, sent) && GroupsHonest(groups, sent)
    ensures forall i :: 0 <= i < |SessionIds(lim, st, groups, times)| ==> SessionIds(lim, st, groups, times)[i] in sent
    ensures ReadAll(lim, st, Sealed(groups), times).handed == ValuesOf(sent, SessionIds(lim, st, groups, times))
    decreases |groups|
  {
    hide StateOk, Faithful, DecodeRecord, RunFrames, RunIds, Sealed, Expire, PutFrames, AllHonest;
    if groups != [] {
      var now := times[0];
      var expired, r := Expire(lim, st, now), Taken(lim, st, groups[0], now);
      ExpireKeeps(lim, st, now);
      ExpireFaithful(lim, st, now, sent);
      DecodeEnvelope(lim, st, groups[0], now);
      DecodeKeeps(lim, st, MAGIC + PutFrames(groups[0]), now);
      RunFaithful(lim, expired, groups[0], now, sent);
      RunValues(lim, expired, groups[0], now, sent);
      SealedFirst(groups);
      ReadFirst(lim, st, Sealed(groups), times);
      SessionValues(lim, r.state, groups[1..], times[1..], sent);
    }
  }

  lemma FlattenFirst(groups: seq<seq<Frame>>, id: U32)
    requires groups != []
    ensures Arrived(Flatten<Frame>(groups), id) == Arrived(groups[0], id) + Arrived(Flatten<Frame>(groups[1..]), id)
  {
    ArrivedConcat(groups[0], Flatten<Frame>(groups[1..]), id);
  }

  lemma ExpireLess(lim: Limits, st: State, now: int, id: U32)
    ensures Held(Expire(lim, st, now), id) == if id in st.pending && Expired(lim, st.pending[id], now) then 0 else Held(st, id)
  {
  }

  lemma NoSession(lim: Limits, st: State, id: U32)
    ensures multiset(SessionIds(lim, st, [], []))[id] == 0 && Arrived(Flatten<Frame>([]), id) == 0
  {
  }

  lemma GroupsHonestFirst(groups: seq<seq<Frame>>, sent: map<U32, Bytes>)
    requires groups != [] && GroupsHonest(groups, sent)
    ensures AllHonest(groups[0], sent) && GroupsHonest(groups[1..], sent)
  {
    hide AllHonest;
  }

  lemma SessionFirst(lim: Limits, st: State, groups: seq<seq<Frame>>, times: seq<int>, id: U32)
    requires |groups| == |times| && groups != []
    ensures multiset(SessionIds(lim, st, groups, times))[id] == multiset(TakenIds(lim, st, groups[0], times[0]))[id]
      + multiset(SessionIds(lim, Taken(lim, st, groups[0], times[0]).state, groups[1..], times[1..]))[id]
  {
    hide Taken, TakenIds;
  }

  lemma TakenAccounts(lim: Limits, st: State, fs: seq<Frame>, now: int, sent: map<U32, Bytes>, id: U32)
    requires AllHonest(fs, sent) && id in sent
    ensures Paid(multiset(TakenIds(lim, st, fs, now))[id], |sent[id]|,
                 Held(Taken(lim, st, fs, now).state, id), Held(Expire(lim, st, now), id) + Arrived(fs, id))
  {
    hide Held, RunFrames, RunIds, Expire, Arrived, AllHonest;
    RunAccounts(lim, Expire(lim, st, now), fs, now, sent, id);
  }

  /**
   A whole session, with packets expiring and records being rejected in between: the copies of a
   packet handed out, and what is held of it at the end, are paid for with bytes that came in.
   */
  lemma {:induction false} SessionAccounts(lim: Limits, st: State, groups: seq<seq<Frame>>, times: seq<int>,
                                           sent: map<U32, Bytes>, id: U32)
    requires |groups| == |times| && GroupsHonest(groups, sent) && id in sent
    ensures Paid(multiset(SessionIds(lim, st, groups, times))[id], |sent[id]|,
                 0, Held(st, id) + Arrived(Flatten<Frame>(groups), id))
    ensures groups != [] && id in st.pending && Expired(lim, st.pending[id], times[0]) ==>
      Paid(multiset(SessionIds(lim, st, groups, times))[id], |sent[id]|, 0, Arrived(Flatten<Frame>(groups), id))
    decreases |groups|
  {
    hide *;
    if groups == [] {
      NoSession(lim, st, id);
      PaidOnce(false, |sent[id]|, 0, Held(st, id));
    } else {
      var now := times[0];
      var r := Taken(lim, st, groups[0], now);
      var first: seq<U32> := TakenIds(lim, st, groups[0], now);
      var rest: seq<U32> := SessionIds(lim, r.state, groups[1..], times[1..]);
      SessionFirst(lim, st, groups, times, id);
      GroupsHonestFirst(groups, sent);
      ExpireLess(lim, st, now, id);
      TakenAccounts(lim, st, groups[0], now, sent, id);
      SessionAccounts(lim, r.state, groups[1..], times[1..], sent, id);
      FlattenFirst(groups, id);
      var kept := Held(Expire(lim, st, now), id);
      PaidBoth(multiset(first)[id], multiset(rest)[id], |sent[id]|, Held(r.state, id), 0,
               kept + Arrived(groups[0], id), Arrived(Flatten<Frame>(groups[1..]), id));
      PaidFrom(multiset(first)[id] + multiset(rest)[id], |sent[id]|, 0, 0,
               kept + Arrived(Flatten<Frame>(groups), id), Held(st, id) + Arrived(Flatten<Frame>(groups), id));
    }
  }

  /** When the first record is rejected, some packet can no longer be paid for in full. */
  lemma RejectedAccounts(lim: Limits, st: State, groups: seq<seq<Frame>>, times: seq<int>, sent: map<U32, Bytes>)
    returns (lost: U32)
    requires |groups| == |times| && GroupsHonest(groups, sent) && groups != []
    requires Taken(lim, st, groups[0], times[0]).outcome.Err?
    ensures lost in sent
    ensures Paid(multiset(SessionIds(lim, st, groups, times))[lost], |sent[lost]|,
                 1, Held(st, lost) + Arrived(Flatten<Frame>(groups), lost))
  {
    hide Held, RunFrames, RunIds, Expire, Arrived, SliceOf, Flatten;
    var now := times[0];
    lost := RejectionLoses(lim, Expire(lim, st, now), groups[0], now);
    ExpireLess(lim, st, now, lost);
    SessionAccounts(lim, Taken(lim, st, groups[0], now).state, groups[1..], times[1..], sent, lost);
    FlattenFirst(groups, lost);
  }

  // ---- at most once ----

  /** A packet of at least one byte was sent under that number. */
  ghost predicate HasBytes(sent: map<U32, Bytes>, id: U32)
  {
    id in sent && |sent[id]| > 0
  }

  lemma {:induction false} IdsIn(lim: Limits, st: State, fs: seq<Frame>, now: int, sent: map<U32, Bytes>)
    requires AllHonest(fs, sent)
    ensures forall i :: 0 <= i < |RunIds(lim, st, fs, now)| ==> HasBytes(sent, RunIds(lim, st, fs, now)[i])
    decreases |fs|
  {
    hide StepFrame, SliceOf;
    if fs != [] {
      HonestFirst(fs, sent);
      IdsIn(lim, StepFrame(lim, st, fs[0], now).state, fs[1..], now, sent);
    }
  }

  lemma {:induction false} IdsSent(lim: Limits, st: State, groups: seq<seq<Frame>>, times: seq<int>, sent: map<U32, Bytes>)
    requires |groups| == |times| && GroupsHonest(groups, sent)
    ensures forall i :: 0 <= i < |SessionIds(lim, st, groups, times)| ==> HasBytes(sent, SessionIds(lim, st, groups, times)[i])
    decreases |groups|
  {
    hide RunIds, RunFrames, Expire, AllHonest;
    if groups != [] {
      IdsIn(lim, Expire(lim, st, times[0]), groups[0], times[0], sent);
      IdsSent(lim, Taken(lim, st, groups[0], times[0]).state, groups[1..], times[1..], sent);
    }
  }

  /** The slices of packet `id` among the frames. */
  ghost function ChunksFor(fs: seq<Frame>, id: U32): seq<Chunk>
  {
    if fs == [] then []
    else
      var last := |fs| - 1;
      ChunksFor(fs[..last], id) + if fs[last].id == id then [Chunk(fs[last].offset, |fs[last].payload|)] else []
  }

  lemma ArrivedLast(fs: seq<Frame>, id: U32)
    requires fs != []
    ensures var last := fs[|fs| - 1];
            Arrived(fs, id) == Arrived(fs[..|fs| - 1], id) + if last.id == id then |last.payload| else 0
  {
    hide *;
    var last := fs[|fs| - 1];
    assert fs == fs[..|fs| - 1] + [last];
    ArrivedConcat(fs[..|fs| - 1], [last], id);
    ArrivedOne(last, id);
  }

  lemma ArrivedOne(f: Frame, id: U32)
    ensures Arrived([f], id) == if f.id == id then |f.payload| else 0
  {
    assert [f][1..] == [];
  }

  lemma {:induction false} ChunksArrive(fs: seq<Frame>, sent: map<U32, Bytes>, id: U32)
    requires AllHonest(fs, sent) && id in sent
    ensures SumLen(ChunksFor(fs, id)) == Arrived(fs, id) && Inside(ChunksFor(fs, id), |sent[id]|)
  {
    if fs != [] {
      hide SumLen, Arrived;
      var last := |fs| - 1;
      ChunksArrive(fs[..last], sent, id);
      ArrivedLast(fs, id);
      var before := ChunksFor(fs[..last], id);
      SumLenAppend(before, Chunk(fs[last].offset, |fs[last].payload|));
      assert before + [] == before;
    }
  }

  lemma {:induction false} AllOfThem(groups: seq<seq<Frame>>, sent: map<U32, Bytes>)
    requires GroupsHonest(groups, sent)
    ensures AllHonest(Flatten<Frame>(groups), sent)
  {
    hide SliceOf;
    if groups != [] {
      AllOfThem(groups[1..], sent);
    }
  }

  lemma Grows(a: nat, b: nat, total: nat)
    requires a <= b
    ensures a * total <= b * total
  {
    Products(a, b - a, total);
  }

  /** So many copies of a packet need so many times its bytes. */
  lemma AtMost(count: nat, bytes: nat, total: nat)
    requires Paid(count, total, 0, bytes) && bytes <= total && 0 < total
    ensures count <= 1 && (bytes < total ==> count == 0)
  {
    if count > 1 {
      Grows(2, count, total);
    }
  }

  /**
   No packet is handed out twice, in any session from an empty receiver, unless the network
   repeats or overlaps its slices.
   */
  lemma AtMostOnce(lim: Limits, groups: seq<seq<Frame>>, times: seq<int>, sent: map<U32, Bytes>, id: U32)
    requires |groups| == |times| && GroupsHonest(groups, sent) && id in sent
    requires Disjoint(ChunksFor(Flatten<Frame>(groups), id))
    ensures multiset(SessionIds(lim, EMPTY, groups, times))[id] <= 1
  {
    hide *;
    var all := Flatten<Frame>(groups);
    AllOfThem(groups, sent);
    ChunksArrive(all, sent, id);
    FullCoverage(ChunksFor(all, id), |sent[id]|, 0);
    SessionAccounts(lim, EMPTY, groups, times, sent, id);
    NothingHeld(id);
    IdsSent(lim, EMPTY, groups, times, sent);
    if HasBytes(sent, id) {
      Sized(sent, id);
      AtMost(multiset(SessionIds(lim, EMPTY, groups, times))[id], Arrived(all, id), |sent[id]|);
    } else {
      assert id !in SessionIds(lim, EMPTY, groups, times);
    }
  }

  lemma Sized(sent: map<U32, Bytes>, id: U32)
    requires HasBytes(sent, id)
    ensures |sent[id]| > 0
  {
  }

  lemma NothingHeld(id: U32)
    ensures Held(EMPTY, id) == 0
  {
  }

  /** The condition is needed: a packet sent in one frame comes out as often as the frame arrives. */
  lemma RepeatedFrame(lim: Limits, f: Frame, now: int, again: int)
    requires f.offset == 0 && |f.payload| == f.total <= lim.maxPacket
    ensures ReadAll(lim, EMPTY, Sealed([[f], [f]]), [now, again]) == Session(EMPTY, [f.payload, f.payload])
  {
    hide DecodeRecord, Sealed, PutFrames;
    OneFrame(lim, f, now);
    OneFrame(lim, f, again);
    var groups := [[f], [f]];
    SealedFirst(groups);
    SealedFirst(groups[1..]);
    ReadFirst(lim, EMPTY, Sealed(groups), [now, again]);
    ReadFirst(lim, EMPTY, Sealed(groups)[1..], [again]);
  }

  lemma OneFrame(lim: Limits, f: Frame, now: int)
    requires f.offset == 0 && |f.payload| == f.total <= lim.maxPacket
    ensures DecodeRecord(lim, EMPTY, MAGIC + PutFrames([f]), now) == Run(EMPTY, Ok([f.payload]))
  {
    hide DecodeRecord, PutFrames;
    ExpireNothing(lim, EMPTY, now);
    DecodeEnvelope(lim, EMPTY, [f], now);
    assert StepFrame(lim, EMPTY, f, now) == Step(EMPTY, Ok(Some(f.payload)));
    assert [f][1..] == [] && RunFrames(lim, EMPTY, [], now) == Run(EMPTY, Ok([]));
    assert Emitted(Some(f.payload)) + [] == [f.payload];
    assert RunFrames(lim, EMPTY, [f], now) == Run(EMPTY, Ok([f.payload]));
  }
}
