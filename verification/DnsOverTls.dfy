/**
 The DNS-over-TLS lab server: length-prefixed queries (section 4.2.2 of RFC 1035, section 3.3 of
 RFC 7858) read from a transport that splits the bytes as it likes and times out in between.
 */
module DnsOverTls {
  import opened Bytes
  import DnsReply

  const SHORTEST := 17

  const LONGEST := 4096

  /** What the next look at the transport finds; no event left is like `PeerClosed`. */
  datatype Event = Arrived(chunk: Bytes) | TimedOut | PeerClosed | Closing

  predicate Sane(e: Event)
  {
    e.Arrived? ==> e.chunk != []
  }

  /** The bytes that arrive before the connection ends, however they are split. */
  function Received(events: seq<Event>): Bytes
  {
    if events == [] || events[0].PeerClosed? || events[0].Closing? then []
    else (if events[0].Arrived? then events[0].chunk else []) + Received(events[1..])
  }

  /** How much is left to happen: bytes and events. */
  ghost function Size(events: seq<Event>): nat
  {
    if events == [] then 0
    else Size(events[1..]) + 1 + if events[0].Arrived? then |events[0].chunk| else 0
  }

  // ---- what a byte stream deserves ----

  /** A reply and its receipt. */
  datatype Answer = Answer(reply: Bytes, row: DnsReply.Row)

  /** How queries are answered; `None` when answering raises. */
  type Zone = Bytes -> Option<Answer>

  /** Every reply to a query of admissible length has a length that two bytes can hold. */
  ghost predicate Fitting(zone: Zone)
  {
    forall q: Bytes :: |q| <= LONGEST && zone(q).Some? ==> |zone(q).value.reply| < 0x1_0000
  }

  datatype Served = Served(answers: seq<Answer>, failed: bool, unread: Bytes)

  function Before(answers: seq<Answer>, s: Served): Served
  {
    s.(answers := answers + s.answers)
  }

  /** What stands at the front of a stream. */
  datatype Front = Incomplete | BadLength(rest: Bytes) | Query(data: Bytes, rest: Bytes)

  function Take(b: Bytes): (front: Front)
    ensures front.Query? ==> |front.rest| < |b|
  {
    if |b| < 2 then Incomplete
    else if Word(b, 0) < SHORTEST || Word(b, 0) > LONGEST then BadLength(b[2..])
    else if |b| < 2 + Word(b, 0) then Incomplete
    else Query(b[2..2 + Word(b, 0)], b[2 + Word(b, 0)..])
  }

  /** Answers to the complete queries of `b`, up to the first that cannot be answered. */
  function Serve(zone: Zone, b: Bytes): Served
    decreases |b|
  {
    match Take(b)
    case Incomplete => Served([], false, [])
    case BadLength(rest) => Served([], true, rest)
    case Query(data, rest) =>
      if zone(data).None? then Served([], true, rest) else Before([zone(data).value], Serve(zone, rest))
  }

  function Frame(m: Bytes): Bytes
    requires |m| < 0x1_0000
  {
    Put16(|m|) + m
  }

  ghost predicate Short(answers: seq<Answer>)
  {
    forall i :: 0 <= i < |answers| ==> |answers[i].reply| < 0x1_0000
  }

  /** The replies as they are sent. */
  function Sent(answers: seq<Answer>): Bytes
    requires Short(answers)
  {
    if answers == [] then []
    else Sent(answers[..|answers| - 1]) + Frame(answers[|answers| - 1].reply)
  }

  function Rows(answers: seq<Answer>): seq<DnsReply.Row>
  {
    if answers == [] then [] else Rows(answers[..|answers| - 1]) + [answers[|answers| - 1].row]
  }

  // ---- the connection ----

  class Connection {
    const zone: Zone
    var events: seq<Event>
    var sent: Bytes
    var rows: seq<DnsReply.Row>
    var failed: bool

    ghost predicate Valid()
      reads this
    {
      Fitting(zone) && forall i :: 0 <= i < |events| ==> Sane(events[i])
    }

    predicate IsClosing()
      reads this
    {
      events != [] && events[0].Closing?
    }

    constructor (schedule: seq<Event>)
      requires forall i :: 0 <= i < |schedule| ==> Sane(schedule[i])
      ensures Valid() && zone == FixtureZone && events == schedule && sent == [] && rows == [] && !failed
    {
      zone, events, sent, rows, failed := FixtureZone, schedule, [], [], false;
      FixtureFits();
    }

    /** At most `max` bytes; `None` on a timeout and nothing at the end of the stream. */
    method Recv(max: nat) returns (chunk: Option<Bytes>)
      requires Valid() && max > 0 && !IsClosing()
      modifies this`events
      ensures Valid() && (chunk.Some? ==> |chunk.value| <= max)
      ensures old(Received(events)) == chunk.GetOr([]) + Received(events)
      ensures chunk == Some([]) ==> Received(events) == []
      ensures chunk != Some([]) ==> Size(events) < old(Size(events))
    {
      if events == [] || events[0].PeerClosed? {
        return Some([]);
      }
      var head, rest := events[0], events[1..];
      if head.TimedOut? {
        events := rest;
        return None;
      }
      assert Sane(head);
      if |head.chunk| <= max {
        events := rest;
        return Some(head.chunk);
      }
      events := [Arrived(head.chunk[max..])] + rest;
      assert events[1..] == rest;
      SplitHead(head.chunk, max, Received(rest));
      return Some(head.chunk[..max]);
    }

    /** Exactly `n` bytes and none further, or `None` when the connection ends first. */
    method Exact(n: nat) returns (data: Option<Bytes>)
      requires Valid()
      modifies this`events
      ensures Valid()
      ensures data.Some? <==> |old(Received(events))| >= n
      ensures data.Some? ==> |data.value| == n && old(Received(events)) == data.value + Received(events)
      ensures data.None? ==> Received(events) == []
    {
      var read: Bytes := [];
      ghost var all, coming := Received(events), Received(events);
      while |read| < n && !IsClosing()
        invariant Valid() && |read| <= n && coming == Received(events) && all == read + coming
        decreases Size(events)
      {
        var chunk := Recv(n - |read|);
        if chunk == Some([]) {
          assert |coming| == 0;
          return None;
        }
        coming := Received(events);
        ConcatAssoc(read, chunk.GetOr([]), coming);
        read := read + chunk.GetOr([]);
      }
      return if |read| == n then Some(read) else None;
    }

    /** One query: answered when it arrives whole, and otherwise the connection is done. */
    method Step() returns (answer: Option<Answer>)
      requires Valid() && !failed
      modifies this`events, this`failed
      ensures Valid()
      ensures answer.Some? ==> |answer.value.reply| < 0x1_0000 && !failed
      ensures answer.Some? ==>
        Serve(zone, old(Received(events))) == Before([answer.value], Serve(zone, Received(events)))
      ensures answer.Some? ==> |Received(events)| < |old(Received(events))|
      ensures answer.None? ==> Serve(zone, old(Received(events))) == Served([], failed, Received(events))
    {
      ghost var stream := Received(events);
      var header := Exact(2);
      if header.None? {
        return None;
      }
      HeaderOf(stream, header.value, Received(events));
      var n := Word(header.value, 0);
      if n < SHORTEST || n > LONGEST {
        failed := true;
        return None;
      }
      var data := Exact(n);
      if data.None? {
        return None;
      }
      TakeQuery(stream, n, data.value, Received(events));
      answer := zone(data.value);
      failed := answer.None?;
    }

    /** What was sent, recorded and left unread, and whether the connection failed, is `s`. */
    ghost predicate Finished(s: Served)
      reads this
    {
      && Short(s.answers) && sent == Sent(s.answers) && rows == Rows(s.answers)
      && failed == s.failed && Received(events) == s.unread
    }

    /** So far `answers` have gone out, and the rest of `all` is still to be served. */
    ghost predicate Progress(all: Bytes, answers: seq<Answer>)
      reads this
    {
      && Valid() && Short(answers) && sent == Sent(answers) && rows == Rows(answers) && !failed
      && Serve(zone, all) == Before(answers, Serve(zone, Received(events)))
    }

    /** One turn of the loop. */
    method Round(ghost all: Bytes, ghost answers: seq<Answer>) returns (more: bool, ghost now: seq<Answer>)
      requires Progress(all, answers)
      modifies this
      ensures more ==> Progress(all, now) && |Received(events)| < |old(Received(events))|
      ensures !more ==> Finished(Serve(zone, all))
    {
      ghost var stream := Received(events);
      var answer := Step();
      if answer.None? {
        BeforeEnds(answers, Serve(zone, stream));
        return false, answers;
      }
      SentMore(answers, answer.value);
      BeforeMore(answers, answer.value, Serve(zone, Received(events)));
      sent, rows := sent + Frame(answer.value.reply), rows + [answer.value.row];
      return true, answers + [answer.value];
    }

    /**
     The connection's loop: what is sent, recorded and left unread depends on the bytes received
     and on nothing else, neither on how they were split nor on the timeouts between them.
     */
    method Run()
      requires Valid() && sent == [] && rows == [] && !failed
      modifies this
      ensures Finished(Serve(zone, old(Received(events))))
    {
      ghost var all, answers: seq<Answer> := Received(events), [];
      BeforeNothing(Serve(zone, all));
      while !IsClosing()
        invariant Progress(all, answers)
        decreases |Received(events)|
      {
        var more;
        more, answers := Round(all, answers);
        if !more {
          return;
        }
      }
      assert Received(events) == [];
      BeforeEnds(answers, Serve(zone, []));
    }
  }

  lemma SplitHead(chunk: Bytes, k: nat, rest: Bytes)
    requires k <= |chunk|
    ensures chunk + rest == chunk[..k] + (chunk[k..] + rest)
  {
  }

  lemma BeforeNothing(s: Served)
    ensures Before([], s) == s
  {
    assert [] + s.answers == s.answers;
  }

  lemma BeforeEnds(answers: seq<Answer>, s: Served)
    requires s.answers == []
    ensures Before(answers, s) == Served(answers, s.failed, s.unread)
  {
    assert answers + [] == answers;
  }

  lemma BeforeMore(answers: seq<Answer>, answer: Answer, s: Served)
    ensures Before(answers, Before([answer], s)) == Before(answers + [answer], s)
  {
    ConcatAssoc(answers, [answer], s.answers);
  }

  lemma SentMore(answers: seq<Answer>, answer: Answer)
    requires Short(answers) && |answer.reply| < 0x1_0000
    ensures Short(answers + [answer]) && Sent(answers + [answer]) == Sent(answers) + Frame(answer.reply)
    ensures Rows(answers + [answer]) == Rows(answers) + [answer.row]
  {
    assert (answers + [answer])[..|answers|] == answers;
  }

  lemma HeaderOf(stream: Bytes, header: Bytes, rest: Bytes)
    requires |header| == 2 && stream == header + rest
    ensures Word(stream, 0) == Word(header, 0) && stream[2..] == rest
  {
  }

  lemma TakeQuery(stream: Bytes, n: U16, data: Bytes, rest: Bytes)
    requires |stream| >= 2 && |data| == n == Word(stream, 0) && SHORTEST <= n <= LONGEST
    requires stream[2..] == data + rest
    ensures Take(stream) == Query(data, rest)
  {
    assert stream[2..][..n] == stream[2..2 + n] && stream[2..][n..] == stream[2 + n..];
  }

  // ---- queries on the wire ----

  ghost predicate Answerable(zone: Zone, query: Bytes)
  {
    SHORTEST <= |query| <= LONGEST && zone(query).Some?
  }

  ghost predicate AllAnswerable(zone: Zone, queries: seq<Bytes>)
  {
    forall i :: 0 <= i < |queries| ==> Answerable(zone, queries[i])
  }

  /** Nothing more can be answered: no answerable query stands at the front. */
  ghost predicate Stuck(zone: Zone, tail: Bytes)
  {
    forall query :: Answerable(zone, query) ==> !(Frame(query) <= tail)
  }

  ghost function Answers(zone: Zone, queries: seq<Bytes>): (answers: seq<Answer>)
    requires AllAnswerable(zone, queries)
    ensures |answers| == |queries|
    ensures forall i :: 0 <= i < |answers| ==> Some(answers[i]) == zone(queries[i])
  {
    if queries == [] then [] else [zone(queries[0]).value] + Answers(zone, queries[1..])
  }

  ghost function Wire(zone: Zone, queries: seq<Bytes>): Bytes
    requires AllAnswerable(zone, queries)
  {
    if queries == [] then [] else Frame(queries[0]) + Wire(zone, queries[1..])
  }

  lemma TakeFrame(query: Bytes, rest: Bytes)
    requires SHORTEST <= |query| <= LONGEST
    ensures Take(Frame(query) + rest) == Query(query, rest)
  {
    var b := Frame(query) + rest;
    assert b[0..2] == Put16(|query|) && b[2..] == query + rest;
    WordOfSlice(b, 0, 2, 0);
    TakeQuery(b, |query|, query, rest);
  }

  lemma TakenIsFrame(b: Bytes)
    requires Take(b).Query?
    ensures SHORTEST <= |Take(b).data| <= LONGEST && b == Frame(Take(b).data) + Take(b).rest
  {
    var n := Word(b, 0);
    Put16OfWord(b, 0);
    SliceThenRest(b, 2, 2 + n);
    ConcatAssoc(b[0..2], b[2..2 + n], b[2 + n..]);
    SliceThenRest(b, 0, 2);
  }

  /** Queries sent one after the other are all answered, in order, whatever follows them. */
  lemma {:induction false} QueriesAnswered(zone: Zone, queries: seq<Bytes>, tail: Bytes)
    requires AllAnswerable(zone, queries)
    ensures Serve(zone, Wire(zone, queries) + tail) == Before(Answers(zone, queries), Serve(zone, tail))
  {
    if queries == [] {
      assert Wire(zone, queries) + tail == tail;
      BeforeNothing(Serve(zone, tail));
    } else {
      QueriesAnswered(zone, queries[1..], tail);
      ConcatAssoc(Frame(queries[0]), Wire(zone, queries[1..]), tail);
      TakeFrame(queries[0], Wire(zone, queries[1..]) + tail);
      ConcatAssoc([zone(queries[0]).value], Answers(zone, queries[1..]), Serve(zone, tail).answers);
    }
  }

  lemma StuckExactlyWhen(zone: Zone, b: Bytes)
    ensures Stuck(zone, b) <==> !(Take(b).Query? && zone(Take(b).data).Some?)
  {
    if Take(b).Query? {
      TakenIsFrame(b);
      assert Frame(Take(b).data) <= b;
    }
    forall query | Answerable(zone, query) && Frame(query) <= b
      ensures Take(b).Query? && zone(Take(b).data).Some?
    {
      TakeFrame(query, b[|Frame(query)|..]);
      assert b == Frame(query) + b[|Frame(query)|..];
    }
  }

  /** Every byte stream is answerable queries and then a tail on which the server stops. */
  lemma {:induction false} StreamSplits(zone: Zone, b: Bytes) returns (queries: seq<Bytes>, tail: Bytes)
    ensures AllAnswerable(zone, queries) && b == Wire(zone, queries) + tail && Stuck(zone, tail)
    ensures Serve(zone, b).answers == Answers(zone, queries)
    decreases |b|
  {
    StuckExactlyWhen(zone, b);
    if Stuck(zone, b) {
      queries, tail := [], b;
      assert [] + b == b;
    } else {
      var query := Take(b).data;
      TakenIsFrame(b);
      var more, last := StreamSplits(zone, Take(b).rest);
      queries, tail := [query] + more, last;
      assert queries[1..] == more;
      ConcatAssoc(Frame(query), Wire(zone, more), last);
    }
  }

  // ---- the zone served ----

  function FixtureZone(query: Bytes): Option<Answer>
  {
    var reply := DnsReply.FixtureReply(query);
    if reply.None? then None else Some(Answer(reply.value, DnsReply.RowOf(query).value))
  }

  lemma FixtureFits()
    ensures Fitting(FixtureZone)
  {
    forall q: Bytes | |q| <= LONGEST && FixtureZone(q).Some?
      ensures |FixtureZone(q).value.reply| < 0x1_0000
    {
      assert |DnsReply.FixtureReply(q).value| <= |q| + 28;
    }
  }
}
