/**
 The receiving half of the recordizer: frames of several packets arrive, in any order and
 possibly hostile, and are put back together under fixed memory limits.
 */
module Reassembler {
  import opened Bytes
  import opened RecordizerWire

  datatype Limits = Limits(maxPacket: nat, maxInflight: nat, maxBuffered: nat, maxFragments: nat, timeout: nat)

  datatype Error = Truncated | Unsupported | InvalidMetadata | Conflict | ResourceLimit

  datatype Result<+T> = Ok(value: T) | Err(error: Error)

  datatype Chunk = Chunk(offset: nat, len: nat) {
    predicate Overlaps(other: Chunk)
    {
      offset < other.offset + other.len && other.offset < offset + len
    }
  }

  /** A packet being put together: `bytes` has the packet's full length from the start. */
  datatype Pending = Pending(createdAt: int, bytes: Bytes, chunks: seq<Chunk>, received: nat)

  datatype State = State(pending: map<U32, Pending>, buffered: int)

  // ---- one frame ----

  datatype Step = Step(state: State, outcome: Result<Option<Bytes>>)

  function Remove(st: State, id: U32): State
  {
    if id in st.pending then State(st.pending - {id}, st.buffered - |st.pending[id].bytes|) else st
  }

  function Overwrite(bytes: Bytes, offset: nat, payload: Bytes): (out: Bytes)
    requires offset + |payload| <= |bytes|
    ensures |out| == |bytes|
    ensures forall i :: 0 <= i < |bytes| ==>
      out[i] == if offset <= i < offset + |payload| then payload[i - offset] else bytes[i]
  {
    bytes[..offset] + payload + bytes[offset + |payload|..]
  }

  predicate Fits(p: Pending, f: Frame)
  {
    f.total == |p.bytes|
  }

  function Extend(p: Pending, f: Frame): (p': Pending)
    requires Fits(p, f)
  {
    p.(bytes := Overwrite(p.bytes, f.offset, f.payload),
       chunks := p.chunks + [Chunk(f.offset, |f.payload|)],
       received := p.received + |f.payload|)
  }

  /** Adds a slice that overlaps nothing to the packet it belongs to. */
  function Store(lim: Limits, st: State, f: Frame): Step
    requires f.id in st.pending && Fits(st.pending[f.id], f)
  {
    if |st.pending[f.id].chunks| >= lim.maxFragments then Step(Remove(st, f.id), Err(ResourceLimit))
    else
      var p := Extend(st.pending[f.id], f);
      var st' := st.(pending := st.pending[f.id := p]);
      if p.received == |p.bytes| then Step(Remove(st', f.id), Ok(Some(p.bytes))) else Step(st', Ok(None))
  }

  function OpenPacket(f: Frame, now: int): Pending
  {
    Pending(now, seq(f.total, _ => 0), [], 0)
  }

  function Open(st: State, f: Frame, now: int): State
  {
    State(st.pending[f.id := OpenPacket(f, now)], st.buffered + f.total)
  }

  /** A slice of a packet that is already pending. */
  function StepKnown(lim: Limits, st: State, f: Frame): Step
    requires f.id in st.pending
  {
    var p, chunk := st.pending[f.id], Chunk(f.offset, |f.payload|);
    if |p.bytes| != f.total then Step(Remove(st, f.id), Err(Conflict))
    else if chunk in p.chunks then
      if p.bytes[f.offset..f.End()] == f.payload then Step(st, Ok(None)) else Step(Remove(st, f.id), Err(Conflict))
    else if exists c :: c in p.chunks && chunk.Overlaps(c) then Step(Remove(st, f.id), Err(Conflict))
    else Store(lim, st, f)
  }

  /** Everything the receiver does with one well-formed frame. */
  function StepFrame(lim: Limits, st: State, f: Frame, now: int): Step
  {
    if f.total > lim.maxPacket then Step(st, Err(InvalidMetadata))
    else if f.offset == 0 && |f.payload| == f.total then
      if f.id in st.pending then Step(Remove(st, f.id), Err(Conflict)) else Step(st, Ok(Some(f.payload)))
    else if f.id in st.pending then StepKnown(lim, st, f)
    else if |st.pending| >= lim.maxInflight || st.buffered + f.total > lim.maxBuffered then
      Step(st, Err(ResourceLimit))
    else Store(lim, Open(st, f, now), f)
  }

  // ---- what every step keeps ----

  ghost predicate Disjoint(chunks: seq<Chunk>)
  {
    forall i, j :: 0 <= i < j < |chunks| ==> !chunks[i].Overlaps(chunks[j])
  }

  ghost predicate Inside(chunks: seq<Chunk>, total: nat)
  {
    forall i :: 0 <= i < |chunks| ==> 0 < chunks[i].len && chunks[i].offset + chunks[i].len <= total
  }

  ghost function SumLen(chunks: seq<Chunk>): nat
  {
    if chunks == [] then 0 else SumLen(chunks[..|chunks| - 1]) + chunks[|chunks| - 1].len
  }

  /** An incomplete packet: disjoint slices, all accounted for, and something still missing. */
  ghost predicate PendingOk(lim: Limits, p: Pending)
  {
    && |p.bytes| <= lim.maxPacket
    && Inside(p.chunks, |p.bytes|) && Disjoint(p.chunks)
    && p.received == SumLen(p.chunks) < |p.bytes|
    && 0 < |p.chunks| <= lim.maxFragments
  }

  ghost function TotalBytes(m: map<U32, Pending>): nat
    decreases |m|
  {
    if m == map[] then 0
    else
      var id :| id in m;
      |m[id].bytes| + TotalBytes(m - {id})
  }

  /** The receiver's invariant: the memory promised to pending packets is exact and bounded. */
  ghost predicate StateOk(lim: Limits, st: State)
  {
    && (forall id :: id in st.pending ==> PendingOk(lim, st.pending[id]))
    && st.buffered == TotalBytes(st.pending) <= lim.maxBuffered
    && |st.pending| <= lim.maxInflight
  }

  lemma {:induction false} TotalBytesRemove(m: map<U32, Pending>, id: U32)
    requires id in m
    ensures TotalBytes(m) == |m[id].bytes| + TotalBytes(m - {id})
    decreases |m|
  {
    var pick :| pick in m && TotalBytes(m) == |m[pick].bytes| + TotalBytes(m - {pick});
    if pick != id {
      TotalBytesRemove(m - {pick}, id);
      TotalBytesRemove(m - {id}, pick);
      assert m - {pick} - {id} == m - {id} - {pick};
    }
  }

  lemma TotalBytesInsert(m: map<U32, Pending>, id: U32, p: Pending)
    requires id !in m
    ensures TotalBytes(m[id := p]) == |p.bytes| + TotalBytes(m)
  {
    TotalBytesRemove(m[id := p], id);
    assert m[id := p] - {id} == m;
  }

  // ---- disjoint slices that add up cover the packet ----

  ghost function Range(from: int, limit: int): (r: set<int>)
    requires from <= limit
    ensures forall i :: i in r <==> from <= i < limit
    ensures |r| == limit - from
    decreases limit - from
  {
    if from == limit then {} else Range(from, limit - 1) + {limit - 1}
  }

  ghost function Covered(chunks: seq<Chunk>): set<int>
  {
    if chunks == [] then {}
    else
      var c := chunks[|chunks| - 1];
      Covered(chunks[..|chunks| - 1]) + Range(c.offset, c.offset + c.len)
  }

  lemma {:induction false} CoveredMeans(chunks: seq<Chunk>, i: int)
    ensures i in Covered(chunks) <==> exists c :: c in chunks && c.offset <= i < c.offset + c.len
  {
    if chunks != [] {
      var front, last := chunks[..|chunks| - 1], chunks[|chunks| - 1];
      CoveredMeans(front, i);
      assert forall c :: c in chunks <==> c in front || c == last;
    }
  }

  lemma {:induction false} CoveredSize(chunks: seq<Chunk>)
    requires Disjoint(chunks)
    ensures |Covered(chunks)| == SumLen(chunks)
  {
    if chunks != [] {
      var front, last := chunks[..|chunks| - 1], chunks[|chunks| - 1];
      CoveredSize(front);
      forall i | i in Covered(front)
        ensures i !in Range(last.offset, last.offset + last.len)
      {
        CoveredMeans(front, i);
        var c :| c in front && c.offset <= i < c.offset + c.len;
        var k :| 0 <= k < |front| && front[k] == c;
        assert !chunks[k].Overlaps(chunks[|front|]);
      }
      assert Covered(front) !! Range(last.offset, last.offset + last.len);
    }
  }

  lemma SubsetOfSameSize<T>(a: set<T>, b: set<T>)
    requires a <= b
    ensures |a| <= |b|
    ensures |a| == |b| ==> a == b
  {
    assert b == a + (b - a);
  }

  /** Counting is enough: disjoint slices totalling the length leave no byte out. */
  lemma FullCoverage(chunks: seq<Chunk>, total: nat, i: nat)
    requires Inside(chunks, total) && Disjoint(chunks)
    ensures SumLen(chunks) <= total
    ensures SumLen(chunks) == total && i < total ==> exists c :: c in chunks && c.offset <= i < c.offset + c.len
  {
    CoveredSize(chunks);
    forall j | j in Covered(chunks)
      ensures j in Range(0, total)
    {
      CoveredMeans(chunks, j);
    }
    SubsetOfSameSize(Covered(chunks), Range(0, total));
    CoveredMeans(chunks, i);
  }

  lemma SumLenAppend(chunks: seq<Chunk>, c: Chunk)
    ensures SumLen(chunks + [c]) == SumLen(chunks) + c.len
  {
    assert (chunks + [c])[..|chunks|] == chunks;
  }

  // ---- the invariant over every run ----

  /** The slice `f` can be added to `p`, which may still be empty. */
  ghost predicate Extendable(lim: Limits, p: Pending, f: Frame)
  {
    && Fits(p, f) && f.total <= lim.maxPacket
    && Inside(p.chunks, f.total) && Disjoint(p.chunks)
    && p.received == SumLen(p.chunks) && |p.chunks| < lim.maxFragments
    && (forall c :: c in p.chunks ==> !Chunk(f.offset, |f.payload|).Overlaps(c))
  }

  lemma ExtendKeeps(lim: Limits, p: Pending, f: Frame)
    requires Extendable(lim, p, f)
    ensures var p' := Extend(p, f);
            p'.received <= |p'.bytes| && (p'.received < |p'.bytes| ==> PendingOk(lim, p'))
            && Inside(p'.chunks, |p'.bytes|) && Disjoint(p'.chunks) && p'.received == SumLen(p'.chunks)
  {
    var c := Chunk(f.offset, |f.payload|);
    var chunks := p.chunks + [c];
    SumLenAppend(p.chunks, c);
    forall i | 0 <= i < |p.chunks|
      ensures !chunks[i].Overlaps(c)
    {
      assert p.chunks[i] in p.chunks;
    }
    FullCoverage(chunks, f.total, 0);
  }

  /** All entries but `id` are in order, and the accounting is exact. */
  ghost predicate OkExcept(lim: Limits, st: State, id: U32)
  {
    && (forall k :: k in st.pending && k != id ==> PendingOk(lim, st.pending[k]))
    && st.buffered == TotalBytes(st.pending) <= lim.maxBuffered
    && |st.pending| <= lim.maxInflight
  }

  lemma RemoveRepairs(lim: Limits, st: State, id: U32)
    requires id in st.pending && OkExcept(lim, st, id)
    ensures StateOk(lim, Remove(st, id))
  {
    TotalBytesRemove(st.pending, id);
    assert (st.pending - {id}).Keys == st.pending.Keys - {id};
  }

  lemma ReplaceKeeps(lim: Limits, st: State, id: U32, p: Pending)
    requires id in st.pending && OkExcept(lim, st, id) && |p.bytes| == |st.pending[id].bytes|
    ensures OkExcept(lim, st.(pending := st.pending[id := p]), id)
  {
    var m := st.pending[id := p];
    TotalBytesRemove(st.pending, id);
    TotalBytesRemove(m, id);
    assert m - {id} == st.pending - {id};
    assert m.Keys == st.pending.Keys;
  }

  lemma StoreKeeps(lim: Limits, st: State, f: Frame)
    requires f.id in st.pending && OkExcept(lim, st, f.id) && Fits(st.pending[f.id], f)
    requires |st.pending[f.id].chunks| < lim.maxFragments ==> Extendable(lim, st.pending[f.id], f)
    ensures StateOk(lim, Store(lim, st, f).state)
  {
    if |st.pending[f.id].chunks| >= lim.maxFragments {
      RemoveRepairs(lim, st, f.id);
    } else {
      ExtendKeeps(lim, st.pending[f.id], f);
      var p := Extend(st.pending[f.id], f);
      ReplaceKeeps(lim, st, f.id, p);
      RemoveRepairs(lim, st.(pending := st.pending[f.id := p]), f.id);
    }
  }

  lemma OpenKeeps(lim: Limits, st: State, f: Frame, now: int)
    requires StateOk(lim, st) && f.id !in st.pending && f.total <= lim.maxPacket
    requires |st.pending| < lim.maxInflight && st.buffered + f.total <= lim.maxBuffered
    ensures StateOk(lim, Store(lim, Open(st, f, now), f).state)
  {
    hide Store, TotalBytes, PendingOk;
    var begun := Open(st, f, now);
    TotalBytesInsert(st.pending, f.id, OpenPacket(f, now));
    assert begun.pending.Keys == st.pending.Keys + {f.id};
    assert OkExcept(lim, begun, f.id);
    StoreKeeps(lim, begun, f);
  }

  lemma KnownKeeps(lim: Limits, st: State, f: Frame)
    requires StateOk(lim, st) && f.id in st.pending && f.total <= lim.maxPacket
    ensures StateOk(lim, StepKnown(lim, st, f).state)
  {
    hide Store, TotalBytes, SumLen, Remove;
    RemoveRepairs(lim, st, f.id);
    var p, chunk := st.pending[f.id], Chunk(f.offset, |f.payload|);
    if |p.bytes| == f.total && !(exists c :: c in p.chunks && chunk.Overlaps(c)) {
      StoreKeeps(lim, st, f);
    }
  }

  /** No frame, however hostile, breaks the accounting or the limits. */
  lemma StepKeeps(lim: Limits, st: State, f: Frame, now: int)
    requires StateOk(lim, st)
    ensures StateOk(lim, StepFrame(lim, st, f, now).state)
  {
    if f.total > lim.maxPacket {
    } else if f.offset == 0 && |f.payload| == f.total {
      if f.id in st.pending {
        RemoveRepairs(lim, st, f.id);
      }
    } else if f.id in st.pending {
      KnownKeeps(lim, st, f);
    } else if |st.pending| < lim.maxInflight && st.buffered + f.total <= lim.maxBuffered {
      OpenKeeps(lim, st, f, now);
    }
  }

  // ---- a whole record ----

  datatype Run = Run(state: State, outcome: Result<seq<Bytes>>)

  function Emitted(packet: Option<Bytes>): seq<Bytes>
  {
    if packet.Some? then [packet.value] else []
  }

  function Prepend(packets: seq<Bytes>, r: Run): Run
  {
    if r.outcome.Err? then r else Run(r.state, Ok(packets + r.outcome.value))
  }

  /** `r` is what the frames after this step would give. */
  function Then(s: Step, r: Run): Run
  {
    if s.outcome.Err? then Run(s.state, Err(s.outcome.error)) else Prepend(Emitted(s.outcome.value), r)
  }

  lemma PrependNothing(r: Run)
    ensures Prepend([], r) == r
  {
    if r.outcome.Ok? {
      assert [] + r.outcome.value == r.outcome.value;
    }
  }

  lemma PrependTwice(a: seq<Bytes>, b: seq<Bytes>, r: Run)
    ensures Prepend(a, Prepend(b, r)) == Prepend(a + b, r)
  {
    if r.outcome.Ok? {
      ConcatAssoc(a, b, r.outcome.value);
    }
  }

  /** The frames of a record from `cursor` on: the first error wins, earlier effects stay. */
  function Walk(lim: Limits, st: State, record: Bytes, cursor: nat, now: int): Run
    requires cursor <= |record|
    decreases |record| - cursor
  {
    if cursor == |record| then Run(st, Ok([]))
    else
      match ParseFrame(record, cursor)
      case Short => Run(st, Err(Truncated))
      case Malformed => Run(st, Err(InvalidMetadata))
      case Parsed(f, next) =>
        var s := StepFrame(lim, st, f, now);
        Then(s, Walk(lim, s.state, record, next, now))
  }

  predicate Expired(lim: Limits, p: Pending, now: int)
  {
    now - p.createdAt > lim.timeout
  }

  /** Drops the pending packets that have waited too long. */
  ghost function Expire(lim: Limits, st: State, now: int): State
  {
    var kept := map id | id in st.pending && !Expired(lim, st.pending[id], now) :: st.pending[id];
    State(kept, TotalBytes(kept))
  }

  lemma {:induction false} TotalBytesSubset(small: map<U32, Pending>, big: map<U32, Pending>)
    requires forall id :: id in small ==> id in big && small[id] == big[id]
    ensures TotalBytes(small) <= TotalBytes(big) && |small| <= |big|
    decreases |small|
  {
    assert small.Keys <= big.Keys;
    SubsetOfSameSize(small.Keys, big.Keys);
    if small != map[] {
      var id :| id in small;
      TotalBytesRemove(small, id);
      TotalBytesRemove(big, id);
      TotalBytesSubset(small - {id}, big - {id});
    }
  }

  lemma ExpireRemoved(lim: Limits, st: State, id: U32, now: int)
    requires id in st.pending && Expired(lim, st.pending[id], now)
    ensures Expire(lim, Remove(st, id), now) == Expire(lim, st, now)
  {
    assert Expire(lim, Remove(st, id), now).pending == Expire(lim, st, now).pending;
  }

  lemma ExpireNothing(lim: Limits, st: State, now: int)
    requires st.buffered == TotalBytes(st.pending)
    requires forall id :: id in st.pending ==> !Expired(lim, st.pending[id], now)
    ensures Expire(lim, st, now) == st
  {
    assert Expire(lim, st, now).pending == st.pending;
  }

  lemma ExpireKeeps(lim: Limits, st: State, now: int)
    requires StateOk(lim, st)
    ensures StateOk(lim, Expire(lim, st, now))
  {
    TotalBytesSubset(Expire(lim, st, now).pending, st.pending);
  }

  /** Decoding one record: packets come out only if the whole envelope is good. */
  ghost function DecodeRecord(lim: Limits, st: State, record: Bytes, now: int): Run
  {
    var st0 := Expire(lim, st, now);
    if |record| < |MAGIC| then Run(st0, Err(Truncated))
    else if record[..|MAGIC|] != MAGIC then Run(st0, Err(Unsupported))
    else
      var r := Walk(lim, st0, record, |MAGIC|, now);
      if r.outcome.Ok? && |record| == |MAGIC| then Run(r.state, Err(InvalidMetadata)) else r
  }

  lemma {:induction false} WalkKeeps(lim: Limits, st: State, record: Bytes, cursor: nat, now: int)
    requires StateOk(lim, st) && cursor <= |record|
    ensures StateOk(lim, Walk(lim, st, record, cursor, now).state)
    decreases |record| - cursor
  {
    if cursor < |record| {
      var parse := ParseFrame(record, cursor);
      if parse.Parsed? {
        StepKeeps(lim, st, parse.frame, now);
        WalkKeeps(lim, StepFrame(lim, st, parse.frame, now).state, record, parse.next, now);
      }
    }
  }

  /** Whatever bytes arrive, well formed or not, the receiver stays within its limits. */
  lemma DecodeKeeps(lim: Limits, st: State, record: Bytes, now: int)
    requires StateOk(lim, st)
    ensures StateOk(lim, DecodeRecord(lim, st, record, now).state)
  {
    ExpireKeeps(lim, st, now);
    if |record| >= |MAGIC| {
      WalkKeeps(lim, Expire(lim, st, now), record, |MAGIC|, now);
    }
  }

  class Receiver {
    const lim: Limits
    var pending: map<U32, Pending>
    var buffered: int

    ghost function Snapshot(): State
      reads this
    {
      State(pending, buffered)
    }

    ghost predicate Valid()
      reads this
    {
      StateOk(lim, Snapshot())
    }

    constructor (lim: Limits)
      ensures Valid() && this.lim == lim && pending == map[]
    {
      this.lim := lim;
      pending := map[];
      buffered := 0;
    }

    method Drop(id: U32)
      modifies this
      ensures Snapshot() == Remove(old(Snapshot()), id)
    {
      if id in pending {
        buffered := buffered - |pending[id].bytes|;
        pending := pending - {id};
      }
    }

    method DropExpired(now: int)
      requires Valid()
      modifies this
      ensures Snapshot() == Expire(lim, old(Snapshot()), now)
    {
      var expired := set id | id in pending && Expired(lim, pending[id], now);
      while expired != {}
        invariant forall id :: id in expired <==> id in pending && Expired(lim, pending[id], now)
        invariant buffered == TotalBytes(pending)
        invariant Expire(lim, Snapshot(), now) == Expire(lim, old(Snapshot()), now)
        decreases |expired|
      {
        var id: U32 :| id in expired;
        TotalBytesRemove(pending, id);
        ExpireRemoved(lim, Snapshot(), id, now);
        Drop(id);
        expired := expired - {id};
      }
      ExpireNothing(lim, Snapshot(), now);
    }

    /** Adds a slice to its packet and takes the packet out once it is complete. */
    method StoreSlice(f: Frame) returns (outcome: Result<Option<Bytes>>)
      requires f.id in pending && Fits(pending[f.id], f)
      modifies this
      ensures Step(Snapshot(), outcome) == Store(lim, old(Snapshot()), f)
    {
      if |pending[f.id].chunks| >= lim.maxFragments {
        Drop(f.id);
        return Err(ResourceLimit);
      }
      var p := pending[f.id];
      p := p.(bytes := Overwrite(p.bytes, f.offset, f.payload),
              chunks := p.chunks + [Chunk(f.offset, |f.payload|)],
              received := p.received + |f.payload|);
      pending := pending[f.id := p];
      if p.received == |p.bytes| {
        Drop(f.id);
        return Ok(Some(p.bytes));
      }
      return Ok(None);
    }

    /** One well-formed frame. */
    method Accept(f: Frame, now: int) returns (outcome: Result<Option<Bytes>>)
      modifies this
      ensures Step(Snapshot(), outcome) == StepFrame(lim, old(Snapshot()), f, now)
    {
      if f.total > lim.maxPacket {
        return Err(InvalidMetadata);
      }
      if f.offset == 0 && |f.payload| == f.total {
        if f.id in pending {
          Drop(f.id);
          return Err(Conflict);
        }
        return Ok(Some(f.payload));
      }
      if f.id in pending {
        var p, chunk := pending[f.id], Chunk(f.offset, |f.payload|);
        if |p.bytes| != f.total {
          Drop(f.id);
          return Err(Conflict);
        }
        if chunk in p.chunks {
          if p.bytes[f.offset..f.End()] == f.payload {
            return Ok(None);
          }
          Drop(f.id);
          return Err(Conflict);
        }
        if exists c :: c in p.chunks && chunk.Overlaps(c) {
          Drop(f.id);
          return Err(Conflict);
        }
      } else {
        if |pending| >= lim.maxInflight || buffered + f.total > lim.maxBuffered {
          return Err(ResourceLimit);
        }
        pending := pending[f.id := OpenPacket(f, now)];
        buffered := buffered + f.total;
      }
      outcome := StoreSlice(f);
    }

    /** The frame loop; packets are held back until the last frame is in. */
    method AcceptAll(record: Bytes, now: int) returns (outcome: Result<seq<Bytes>>)
      requires |MAGIC| <= |record|
      modifies this
      ensures Run(Snapshot(), outcome) == Walk(lim, old(Snapshot()), record, |MAGIC|, now)
    {
      ghost var whole := Walk(lim, Snapshot(), record, |MAGIC|, now);
      var cursor, packets := |MAGIC|, [];
      PrependNothing(whole);
      while cursor < |record|
        invariant |MAGIC| <= cursor <= |record|
        invariant whole == Prepend(packets, Walk(lim, Snapshot(), record, cursor, now))
      {
        ghost var st := Snapshot();
        var parse := ParseFrame(record, cursor);
        if parse.Short? {
          return Err(Truncated);
        }
        if parse.Malformed? {
          return Err(InvalidMetadata);
        }
        var step := Accept(parse.frame, now);
        if step.Err? {
          return Err(step.error);
        }
        ghost var rest := Walk(lim, Snapshot(), record, parse.next, now);
        assert Walk(lim, st, record, cursor, now) == Prepend(Emitted(step.value), rest);
        PrependTwice(packets, Emitted(step.value), rest);
        packets := packets + Emitted(step.value);
        cursor := parse.next;
      }
      assert packets + [] == packets;
      return Ok(packets);
    }

    method Decode(record: Bytes, now: int) returns (outcome: Result<seq<Bytes>>)
      requires Valid()
      modifies this
      ensures Valid() && Run(Snapshot(), outcome) == DecodeRecord(lim, old(Snapshot()), record, now)
    {
      DecodeKeeps(lim, Snapshot(), record, now);
      DropExpired(now);
      if |record| < |MAGIC| {
        return Err(Truncated);
      }
      if record[..|MAGIC|] != MAGIC {
        return Err(Unsupported);
      }
      outcome := AcceptAll(record, now);
      if outcome.Ok? && |record| == |MAGIC| {
        return Err(InvalidMetadata);
      }
    }
  }
}
