/**
 Putting one direction of a TCP connection back together from captured segments: chunks are
 kept by their distance, modulo 2^32, from the first sequence number seen, and joined into
 the bytes that can be read without a gap.
 */
module TcpReassembly {
  import opened Bytes

  const MODULUS := 0x1_0000_0000

  /** Segments further ahead than this are taken for old duplicates and dropped. */
  const REACH := 0x100_0000

  type Chunks = map<nat, Bytes>

  datatype Flow = Flow(first: U32, chunks: Chunks)

  function Relative(first: U32, seqno: U32): nat
  {
    (seqno - first) % MODULUS
  }

  function Deliver(flow: Flow, seqno: U32, payload: Bytes): Flow
  {
    var relative := Relative(flow.first, seqno);
    if relative > REACH then flow else flow.(chunks := flow.chunks[relative := payload])
  }

  // ---- what joining means ----

  predicate Covers(chunks: Chunks, p: nat, k: nat)
  {
    p in chunks && p <= k < p + |chunks[p]|
  }

  ghost predicate Covered(chunks: Chunks, k: nat)
  {
    exists p :: Covers(chunks, p, k)
  }

  /** The chunk at `p` is the one that supplies byte `k`: the earliest that reaches it. */
  ghost predicate Supplies(chunks: Chunks, p: nat, k: nat)
  {
    Covers(chunks, p, k) && forall q :: Covers(chunks, q, k) ==> p <= q
  }

  /** Byte `k` of the result is what its supplier holds there. */
  ghost predicate ByteFrom(chunks: Chunks, p: nat, joined: Bytes, k: nat)
    requires k < |joined|
  {
    Supplies(chunks, p, k) && joined[k] == chunks[p][k - p]
  }

  ghost predicate Supplied(chunks: Chunks, joined: Bytes, k: nat)
    requires k < |joined|
  {
    exists p :: ByteFrom(chunks, p, joined, k)
  }

  /** `joined` is the gap-free prefix: every byte is supplied, and the next one is missing. */
  ghost predicate IsJoin(chunks: Chunks, joined: Bytes)
  {
    && !Covered(chunks, |joined|)
    && forall k :: 0 <= k < |joined| ==> Supplied(chunks, joined, k)
  }

  lemma Supplier(chunks: Chunks, joined: Bytes, k: nat) returns (p: nat)
    requires IsJoin(chunks, joined) && k < |joined|
    ensures Supplies(chunks, p, k) && joined[k] == chunks[p][k - p]
    ensures Covered(chunks, k)
  {
    assert Supplied(chunks, joined, k);
    p :| ByteFrom(chunks, p, joined, k);
    assert Covers(chunks, p, k);
  }

  lemma JoinNotLonger(chunks: Chunks, a: Bytes, b: Bytes)
    requires IsJoin(chunks, a) && IsJoin(chunks, b)
    ensures |a| <= |b|
  {
    if |b| < |a| {
      var p := Supplier(chunks, a, |b|);
    }
  }

  lemma JoinUnique(chunks: Chunks, a: Bytes, b: Bytes)
    requires IsJoin(chunks, a) && IsJoin(chunks, b)
    ensures a == b
  {
    JoinNotLonger(chunks, a, b);
    JoinNotLonger(chunks, b, a);
    forall k | 0 <= k < |a|
      ensures a[k] == b[k]
    {
      var p := Supplier(chunks, a, k);
      var q := Supplier(chunks, b, k);
    }
  }

  // ---- the joining loop ----

  ghost predicate Ascending(keys: seq<nat>)
  {
    forall i, j :: 0 <= i < j < |keys| ==> keys[i] < keys[j]
  }

  /** The keys in ascending order. */
  method SortKeys(chunks: Chunks) returns (keys: seq<nat>)
    ensures Ascending(keys) && forall p :: p in keys <==> p in chunks
  {
    keys := [];
    var rest := chunks.Keys;
    while rest != {}
      invariant rest <= chunks.Keys && Ascending(keys)
      invariant forall p :: p in keys <==> p in chunks && p !in rest
      invariant forall p, q :: p in keys && q in rest ==> p < q
      decreases |rest|
    {
      var least := Least(rest);
      assert forall i :: 0 <= i < |keys| ==> keys[i] in keys;
      keys := keys + [least];
      rest := rest - {least};
    }
  }

  method Least(s: set<nat>) returns (least: nat)
    requires s != {}
    ensures least in s && forall p :: p in s ==> least <= p
  {
    least :| least in s;
    var rest := s - {least};
    while rest != {}
      invariant least in s && rest <= s && least !in rest
      invariant forall p :: p in s && p !in rest ==> least <= p
      decreases |rest|
    {
      var p: nat :| p in rest;
      rest := rest - {p};
      if p < least {
        least := p;
      }
    }
  }

  /** Nothing among the first `n` keys reaches past the bytes joined so far, and each byte has its supplier. */
  ghost predicate JoinedUpTo(chunks: Chunks, keys: seq<nat>, n: nat, joined: Bytes)
    requires n <= |keys| && forall p :: p in keys <==> p in chunks
  {
    && (forall i :: 0 <= i < n ==> keys[i] + |chunks[keys[i]]| <= |joined|)
    && forall k :: 0 <= k < |joined| ==> Supplied(chunks, joined, k)
  }

  lemma ExtendJoin(chunks: Chunks, keys: seq<nat>, n: nat, joined: Bytes)
    requires Ascending(keys) && n < |keys| && forall p :: p in keys <==> p in chunks
    requires JoinedUpTo(chunks, keys, n, joined)
    requires keys[n] <= |joined| < keys[n] + |chunks[keys[n]]|
    ensures JoinedUpTo(chunks, keys, n + 1, joined + chunks[keys[n]][|joined| - keys[n]..])
  {
    var p := keys[n];
    var longer := joined + chunks[p][|joined| - p..];
    forall k | 0 <= k < |longer|
      ensures Supplied(chunks, longer, k)
    {
      if k < |joined| {
        assert Supplied(chunks, joined, k);
        var q: nat :| ByteFrom(chunks, q, joined, k);
        assert ByteFrom(chunks, q, longer, k);
      } else {
        forall q: nat | Covers(chunks, q, k)
          ensures p <= q
        {
          var i :| 0 <= i < |keys| && keys[i] == q;
        }
        assert ByteFrom(chunks, p, longer, k);
      }
    }
  }

  method Join(chunks: Chunks) returns (joined: Bytes)
    ensures IsJoin(chunks, joined)
  {
    var keys := SortKeys(chunks);
    joined := [];
    var i := 0;
    while i < |keys|
      invariant 0 <= i <= |keys| && JoinedUpTo(chunks, keys, i, joined)
    {
      var position := keys[i];
      if position > |joined| {
        break;
      }
      var chunk := chunks[position];
      if position + |chunk| > |joined| {
        ExtendJoin(chunks, keys, i, joined);
        joined := joined + chunk[|joined| - position..];
      }
      i := i + 1;
    }
    forall p: nat | p in chunks
      ensures !Covers(chunks, p, |joined|)
    {
      var j :| 0 <= j < |keys| && keys[j] == p;
      assert i <= j ==> keys[i] <= keys[j];
    }
  }

  // ---- segments of one byte stream ----

  /** Every chunk kept is a piece of `stream`, whose position `start` is offset 0 of the flow. */
  ghost predicate Agrees(chunks: Chunks, stream: Bytes, start: nat)
  {
    forall r :: r in chunks ==> chunks[r] != [] && start + r + |chunks[r]| <= |stream|
                                && chunks[r] == stream[start + r..start + r + |chunks[r]|]
  }

  /** The segment carrying `stream[at..at + |payload|]` when numbering starts at `isn`. */
  ghost predicate SegmentOf(seqno: U32, payload: Bytes, stream: Bytes, isn: U32, at: nat)
  {
    && payload != [] && at + |payload| <= |stream| && payload == stream[at..at + |payload|]
    && seqno == (isn + at) % MODULUS
  }

  lemma RelativeIs(isn: U32, start: nat, at: nat)
    ensures Relative((isn + start) % MODULUS, (isn + at) % MODULUS) == (at - start) % MODULUS
  {
    var a, s := (isn + at) % MODULUS, (isn + start) % MODULUS;
    assert isn + at == (isn + at) / MODULUS * MODULUS + a;
    assert isn + start == (isn + start) / MODULUS * MODULUS + s;
  }

  /**
   Sequence numbers may wrap, segments may come in any order: a segment is kept, at its true
   distance, exactly when it starts at most 16 MiB after the first one seen; an earlier one is
   dropped.  This needs the stream to be shorter than 2^32 - 2^24 bytes.
   */
  lemma DeliverAgrees(flow: Flow, stream: Bytes, isn: U32, start: nat, seqno: U32, payload: Bytes, at: nat)
    requires |stream| <= MODULUS - REACH && start < |stream|
    requires flow.first == (isn + start) % MODULUS && Agrees(flow.chunks, stream, start)
    requires SegmentOf(seqno, payload, stream, isn, at)
    ensures Agrees(Deliver(flow, seqno, payload).chunks, stream, start)
    ensures Deliver(flow, seqno, payload).chunks
         == if start <= at <= start + REACH then flow.chunks[at - start := payload] else flow.chunks
  {
    hide Relative;
    Distance(isn, start, at);
  }

  lemma Distance(isn: U32, start: nat, at: nat)
    requires -MODULUS < at - start < MODULUS
    ensures Relative((isn + start) % MODULUS, (isn + at) % MODULUS)
         == if start <= at then at - start else at - start + MODULUS
  {
    RelativeIs(isn, start, at);
    if at >= start {
      assert (at - start) % MODULUS == at - start;
    } else {
      assert (at - start) % MODULUS == at - start + MODULUS;
    }
  }

  /** The stream bound is exact: an earlier segment is mistaken for a later one from 2^32 - 2^24 bytes back on. */
  lemma OldSegmentKeptExactlyWhen(isn: U32, start: nat, at: nat)
    requires at < start < at + MODULUS
    ensures Relative((isn + start) % MODULUS, (isn + at) % MODULUS) <= REACH <==> start - at >= MODULUS - REACH
  {
    Distance(isn, start, at);
  }

  /** What is joined is the stream, from the first position seen, up to the first byte no kept chunk holds. */
  lemma JoinIsStream(chunks: Chunks, stream: Bytes, start: nat, joined: Bytes)
    requires Agrees(chunks, stream, start) && start <= |stream| && IsJoin(chunks, joined)
    ensures start + |joined| <= |stream| && joined == stream[start..start + |joined|]
    ensures forall k :: 0 <= k < |joined| ==> Covered(chunks, k)
    ensures !Covered(chunks, |joined|)
  {
    forall k | 0 <= k < |joined|
      ensures Covered(chunks, k) && start + k < |stream| && joined[k] == stream[start + k]
    {
      var p := Supplier(chunks, joined, k);
      assert chunks[p][k - p] == stream[start + p..start + p + |chunks[p]|][k - p];
    }
    assert |joined| > 0 ==> Covered(chunks, |joined| - 1);
  }

  /** When both agree with one stream, more chunks extend the joined bytes exactly when they uncover none. */
  lemma JoinGrowsExactlyWhen(before: Chunks, after: Chunks, stream: Bytes, start: nat, a: Bytes, b: Bytes)
    requires Agrees(before, stream, start) && Agrees(after, stream, start) && start <= |stream|
    requires IsJoin(before, a) && IsJoin(after, b)
    ensures a <= b <==> forall k :: 0 <= k < |a| ==> Covered(after, k)
  {
    JoinIsStream(before, stream, start, a);
    JoinIsStream(after, stream, start, b);
    if forall k :: 0 <= k < |a| ==> Covered(after, k) {
      assert |a| <= |b|;
    }
  }

  /** Chunks that were replaced only by ones at least as long cover whatever was covered. */
  ghost predicate Grew(before: Chunks, after: Chunks)
  {
    forall r :: r in before ==> r in after && |before[r]| <= |after[r]|
  }

  lemma DeliverGrows(before: Chunks, flow: Flow, seqno: U32, payload: Bytes)
    requires Grew(before, flow.chunks)
    requires var r := Relative(flow.first, seqno); r in flow.chunks ==> |flow.chunks[r]| <= |payload|
    ensures Grew(before, Deliver(flow, seqno, payload).chunks)
  {
  }

  lemma GrewCovers(before: Chunks, after: Chunks, k: nat)
    requires Grew(before, after) && Covered(before, k)
    ensures Covered(after, k)
  {
    var p: nat :| Covers(before, p, k);
    assert Covers(after, p, k);
  }
}
