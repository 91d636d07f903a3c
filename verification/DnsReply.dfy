/**
 The replies of the two lab DNS servers: the shared fixture zone and the DNS64 zone. Both echo
 the question and answer through a compression pointer to it (section 4.1.4 of RFC 1035).
 */
module DnsReply {
  import opened Bytes
  import opened DnsQuestion
  import Nat64

  const TYPE_A: U16 := 1

  const TYPE_AAAA: U16 := 28

  const CLASS_IN: U16 := 1

  /** A compression pointer to the question, which follows the header. */
  const TO_QUESTION: Bytes := [0xC0, 0x0C]

  // ---- names ----

  function Text(part: Bytes): (s: string)
    requires Ascii(part)
    ensures |s| == |part|
  {
    seq(|part|, i requires 0 <= i < |part| => part[i] as char)
  }

  function Joined(labels: seq<Bytes>): string
    requires ValidLabels(labels)
  {
    if labels == [] then ""
    else if |labels| == 1 then Text(labels[0])
    else Text(labels[0]) + "." + Joined(labels[1..])
  }

  function Lower(s: string): (t: string)
    requires forall i :: 0 <= i < |s| ==> s[i] < 128 as char
    ensures |t| == |s|
  {
    seq(|s|, i requires 0 <= i < |s| => if 'A' <= s[i] <= 'Z' then (s[i] as int + 32) as char else s[i])
  }

  lemma {:induction false} JoinedIsAscii(labels: seq<Bytes>)
    requires ValidLabels(labels)
    ensures forall i :: 0 <= i < |Joined(labels)| ==> Joined(labels)[i] < 128 as char
  {
    if |labels| > 1 {
      JoinedIsAscii(labels[1..]);
    }
  }

  function NameOf(labels: seq<Bytes>): string
    requires ValidLabels(labels)
  {
    JoinedIsAscii(labels);
    Lower(Joined(labels))
  }

  // ---- messages ----

  function Header(id: Bytes, flags: U16, answers: U16): (h: Bytes)
    requires |id| == 2
    ensures |h| == HEADER && h[..2] == id
  {
    id + (Put16(flags) + Put16(1) + Put16(answers) + Put16(0) + Put16(0))
  }

  function Fixed(kind: U16, ttl: U32, length: U16): (f: Bytes)
    ensures |f| == 12
  {
    TO_QUESTION + Put16(kind) + Put16(CLASS_IN) + Put32(ttl) + Put16(length)
  }

  ghost predicate Fits(values: seq<Bytes>)
  {
    |values| < 0x1_0000 && forall i :: 0 <= i < |values| ==> |values[i]| < 0x1_0000
  }

  function Answers(kind: U16, ttl: U32, values: seq<Bytes>): Bytes
    requires Fits(values)
  {
    if values == [] then []
    else Fixed(kind, ttl, |values[0]|) + values[0] + Answers(kind, ttl, values[1..])
  }

  /** A reply: the id of the query, the question as it came, and one answer for every value. */
  function Message(id: Bytes, flags: U16, q: Question, ttl: U32, values: seq<Bytes>): Bytes
    requires |id| == 2 && Fits(values)
  {
    Header(id, flags, |values|) + q.raw + Answers(q.kind, ttl, values)
  }

  // ---- reading a reply as a resolver does ----

  datatype Record = Record(owner: seq<Bytes>, kind: U16, klass: U16, ttl: U32, value: Bytes)

  ghost predicate NamedAt(m: Bytes, at: nat, labels: seq<Bytes>)
  {
    exists end :: NameAt(m, at, labels, end)
  }

  /** The record at `at` is `r`, its owner being the name the compression pointer leads to. */
  ghost predicate RecordAt(m: Bytes, at: nat, r: Record)
  {
    && at + 12 + |r.value| <= |m| && Word(m, at) >= 0xC000
    && NamedAt(m, Word(m, at) - 0xC000, r.owner)
    && Word(m, at + 2) == r.kind && Word(m, at + 4) == r.klass && Long(m, at + 6) == r.ttl
    && Word(m, at + 10) == |r.value| && m[at + 12..at + 12 + |r.value|] == r.value
  }

  /** From `at` to the end there are exactly these records. */
  ghost predicate RecordsAt(m: Bytes, at: nat, records: seq<Record>)
    decreases |records|
  {
    if records == [] then at == |m|
    else RecordAt(m, at, records[0]) && RecordsAt(m, at + 12 + |records[0].value|, records[1..])
  }

  function RecordsOf(q: Question, ttl: U32, values: seq<Bytes>): seq<Record>
  {
    if values == [] then []
    else [Record(q.labels, q.kind, CLASS_IN, ttl, values[0])] + RecordsOf(q, ttl, values[1..])
  }

  lemma FiveParts(a: Bytes, b: Bytes, c: Bytes, d: Bytes, e: Bytes)
    requires |a| == |b| == |c| == |e| == 2 && |d| == 4
    ensures (a + b + c + d + e)[0..2] == a && (a + b + c + d + e)[2..4] == b && (a + b + c + d + e)[4..6] == c
    ensures (a + b + c + d + e)[6..10] == d && (a + b + c + d + e)[10..12] == e
  {
  }

  lemma FixedFields(kind: U16, ttl: U32, length: U16)
    ensures Word(Fixed(kind, ttl, length), 0) == 0xC00C && Word(Fixed(kind, ttl, length), 2) == kind
    ensures Word(Fixed(kind, ttl, length), 4) == CLASS_IN && Long(Fixed(kind, ttl, length), 6) == ttl
    ensures Word(Fixed(kind, ttl, length), 10) == length
  {
    var f := Fixed(kind, ttl, length);
    FiveParts(TO_QUESTION, Put16(kind), Put16(CLASS_IN), Put32(ttl), Put16(length));
    WordOfSlice(f, 0, 2, 0);
    WordOfSlice(f, 2, 4, 0);
    WordOfSlice(f, 4, 6, 0);
    LongOfSlice(f, 6, 10, 0);
    WordOfSlice(f, 10, 12, 0);
  }

  lemma FixedAt(m: Bytes, at: nat, kind: U16, ttl: U32, length: U16)
    requires at + 12 <= |m| && m[at..at + 12] == Fixed(kind, ttl, length)
    ensures Word(m, at) == 0xC00C && Word(m, at + 2) == kind && Word(m, at + 4) == CLASS_IN
    ensures Long(m, at + 6) == ttl && Word(m, at + 10) == length
  {
    FixedFields(kind, ttl, length);
    WordOfSlice(m, at, at + 12, 0);
    WordOfSlice(m, at, at + 12, 2);
    WordOfSlice(m, at, at + 12, 4);
    LongOfSlice(m, at, at + 12, 6);
    WordOfSlice(m, at, at + 12, 10);
  }

  /** An answer is the record it was made from, owned by the name after the header. */
  lemma AnswerAt(m: Bytes, at: nat, q: Question, end: nat, ttl: U32, value: Bytes)
    requires |value| < 0x1_0000 && at + 12 + |value| <= |m|
    requires m[at..at + 12] == Fixed(q.kind, ttl, |value|) && m[at + 12..at + 12 + |value|] == value
    requires NameAt(m, HEADER, q.labels, end)
    ensures RecordAt(m, at, Record(q.labels, q.kind, CLASS_IN, ttl, value))
  {
    FixedAt(m, at, q.kind, ttl, |value|);
  }

  lemma {:induction false} AnswersAt(m: Bytes, at: nat, q: Question, end: nat, ttl: U32, values: seq<Bytes>)
    requires Fits(values) && at <= |m| && m[at..] == Answers(q.kind, ttl, values)
    requires NameAt(m, HEADER, q.labels, end)
    ensures RecordsAt(m, at, RecordsOf(q, ttl, values))
    decreases |values|
  {
    hide Fixed, RecordAt, NameAt;
    if values != [] {
      TailParts(m, at, Fixed(q.kind, ttl, |values[0]|), values[0], Answers(q.kind, ttl, values[1..]));
      AnswerAt(m, at, q, end, ttl, values[0]);
      AnswersAt(m, at + 12 + |values[0]|, q, end, ttl, values[1..]);
      assert RecordsOf(q, ttl, values)[1..] == RecordsOf(q, ttl, values[1..]);
    }
  }

  lemma TailParts(m: Bytes, at: nat, a: Bytes, b: Bytes, c: Bytes)
    requires at <= |m| && m[at..] == a + b + c
    ensures at + |a| + |b| + |c| == |m| && m[at..at + |a|] == a
    ensures m[at + |a|..at + |a| + |b|] == b && m[at + |a| + |b|..] == c
  {
    var tail := m[at..];
    assert tail[..|a|] == m[at..at + |a|] && tail[|a|..|a| + |b|] == m[at + |a|..at + |a| + |b|];
    assert tail[|a| + |b|..] == m[at + |a| + |b|..];
  }

  lemma HeaderFields(id: Bytes, flags: U16, answers: U16)
    requires |id| == 2
    ensures Word(Header(id, flags, answers), 2) == flags && Word(Header(id, flags, answers), 4) == 1
    ensures Word(Header(id, flags, answers), 6) == answers
  {
    var h := Header(id, flags, answers);
    assert h[2..4] == Put16(flags) && h[4..6] == Put16(1) && h[6..8] == Put16(answers);
    WordOfSlice(h, 2, 4, 0);
    WordOfSlice(h, 4, 6, 0);
    WordOfSlice(h, 6, 8, 0);
  }

  /**
   Read as a resolver reads it, a reply holds the question and exactly the announced number of
   answers, each owned by the question's name, and ends with the last of them.
   */
  lemma MessageReadsBack(id: Bytes, flags: U16, q: Question, ttl: U32, values: seq<Bytes>)
    requires |id| == 2 && Fits(values)
    requires ValidLabels(q.labels) && q.raw == PutQuestion(q.labels, q.kind, q.klass)
    ensures Holds(Message(id, flags, q, ttl, values), q) && Message(id, flags, q, ttl, values)[..2] == id
    ensures Word(Message(id, flags, q, ttl, values), 2) == flags
    ensures Word(Message(id, flags, q, ttl, values), 6) == |values|
    ensures RecordsAt(Message(id, flags, q, ttl, values), HEADER + |q.raw|, RecordsOf(q, ttl, values))
  {
    var m, h := Message(id, flags, q, ttl, values), Header(id, flags, |values|);
    MessageParts(h, q.raw, Answers(q.kind, ttl, values));
    HeaderFields(id, flags, |values|);
    assert m[..2] == m[0..HEADER][..2];
    WordOfSlice(m, 0, HEADER, 2);
    WordOfSlice(m, 0, HEADER, 4);
    WordOfSlice(m, 0, HEADER, 6);
    assert Holds(m, q);
    var name := PutLabels(q.labels) + [0];
    SliceSplit(m, HEADER, name, Put16(q.kind) + Put16(q.klass));
    AnswersAt(m, HEADER + |q.raw|, q, HEADER + |name|, ttl, values);
  }

  lemma MessageParts(h: Bytes, raw: Bytes, answers: Bytes)
    requires |h| == HEADER
    ensures (h + raw + answers)[0..HEADER] == h
    ensures (h + raw + answers)[HEADER..HEADER + |raw|] == raw
    ensures (h + raw + answers)[HEADER + |raw|..] == answers
  {
  }

  // ---- the fixture zone ----

  const PROVIDERS := ["q29-dot.test", "q29-dot-untrusted.test", "q29-dot-mismatch.test"]

  predicate Digits(s: string)
  {
    |s| > 0 && forall i :: 0 <= i < |s| ==> '0' <= s[i] <= '9'
  }

  /** "q29-", digits, ".test". */
  predicate Numbered(name: string)
  {
    |name| > 9 && name[..4] == "q29-" && name[|name| - 5..] == ".test" && Digits(name[4..|name| - 5])
  }

  lemma NumberedExactlyWhen(name: string)
    ensures Numbered(name) <==> exists digits :: Digits(digits) && name == "q29-" + digits + ".test"
  {
    if Numbered(name) {
      assert name == "q29-" + name[4..|name| - 5] + ".test";
    }
    forall digits | Digits(digits) && name == "q29-" + digits + ".test"
      ensures Numbered(name)
    {
      assert name[4..|name| - 5] == digits;
    }
  }

  predicate Known(name: string)
  {
    Numbered(name) || name in PROVIDERS
  }

  function FixtureValues(name: string, kind: U16, klass: U16): (values: seq<Bytes>)
    ensures |values| <= 1 && forall i :: 0 <= i < |values| ==> |values[i]| == if kind == TYPE_A then 4 else 16
  {
    if !Known(name) || klass != CLASS_IN || (kind != TYPE_A && kind != TYPE_AAAA) then []
    else if name in PROVIDERS then if kind == TYPE_A then [[198, 19, 0, 53]] else []
    else if kind == TYPE_A then [[198, 19, 0, 1]]
    else [[0x20, 0x01, 0x0d, 0xb8, 0, 0x29, 0, 0, 0, 0, 0, 0, 0, 0, 0, 1]]
  }

  function FixtureMessage(id: Bytes, q: Question): Bytes
    requires |id| == 2 && ValidLabels(q.labels)
  {
    var name := NameOf(q.labels);
    Message(id, if Known(name) then 0x8180 else 0x8183, q, 0, FixtureValues(name, q.kind, q.klass))
  }

  lemma FixtureLength(id: Bytes, q: Question)
    requires |id| == 2 && ValidLabels(q.labels)
    ensures |FixtureMessage(id, q)| <= HEADER + |q.raw| + 28
  {
    var values := FixtureValues(NameOf(q.labels), q.kind, q.klass);
    if values != [] {
      assert Answers(q.kind, 0, values[1..]) == [];
    }
  }

  // ---- the DNS64 zone ----

  /** The A records of the zone behind the translator. */
  function Upstream(name: string): (records: seq<U32>)
    ensures |records| <= 2
  {
    if name == "q29-v4-only.test" then [0xC000_020A]
    else if name == "ipv4only.arpa" then [0xC000_00AA, 0xC000_00AB]
    else []
  }

  function Dns64Value(kind: U16, v4: U32): (value: Bytes)
    ensures |value| == if kind == TYPE_A then 4 else 16
  {
    if kind == TYPE_A then Put32(v4) else Nat64.Synthesize(v4)
  }

  function Dns64All(kind: U16, records: seq<U32>): (values: seq<Bytes>)
    ensures |values| == |records|
    ensures forall i :: 0 <= i < |values| ==> |values[i]| == if kind == TYPE_A then 4 else 16
  {
    if records == [] then []
    else Dns64All(kind, records[..|records| - 1]) + [Dns64Value(kind, records[|records| - 1])]
  }

  function Dns64Values(name: string, kind: U16, klass: U16): (values: seq<Bytes>)
    ensures |values| <= 2 && forall i :: 0 <= i < |values| ==> |values[i]| <= 16
  {
    if klass == CLASS_IN && (kind == TYPE_A || kind == TYPE_AAAA) then Dns64All(kind, Upstream(name)) else []
  }

  function Dns64Message(id: Bytes, q: Question): Bytes
    requires |id| == 2 && ValidLabels(q.labels)
  {
    var name := NameOf(q.labels);
    Message(id, if Upstream(name) != [] then 0x8180 else 0x8183, q, 30, Dns64Values(name, q.kind, q.klass))
  }

  // ---- replies to queries ----

  function FixtureReply(data: Bytes): (r: Option<Bytes>)
    ensures r.Some? ==> |r.value| <= |data| + 28
  {
    var p := Parse(data);
    if !p.Accepted? then None
    else
      ParseExactlyWhen(data, p.question);
      FixtureLength(data[..2], p.question);
      Some(FixtureMessage(data[..2], p.question))
  }

  function Dns64Reply(data: Bytes): Option<Bytes>
  {
    var p := Parse(data);
    if !p.Accepted? then None
    else
      ParseExactlyWhen(data, p.question);
      Some(Dns64Message(data[..2], p.question))
  }

  /**
   The fixture's reply holds the query's id and question, the announced answers are exactly those
   of the zone under the question's own name, and answering the reply gives the same reply.
   */
  lemma FixtureReplyMeans(data: Bytes, q: Question)
    requires Holds(data, q)
    ensures FixtureReply(data).Some? && Holds(FixtureReply(data).value, q) && FixtureReply(data).value[..2] == data[..2]
    ensures Word(FixtureReply(data).value, 2) == if Known(NameOf(q.labels)) then 0x8180 else 0x8183
    ensures Word(FixtureReply(data).value, 6) == |FixtureValues(NameOf(q.labels), q.kind, q.klass)|
    ensures RecordsAt(FixtureReply(data).value, HEADER + |q.raw|, RecordsOf(q, 0, FixtureValues(NameOf(q.labels), q.kind, q.klass)))
    ensures FixtureReply(FixtureReply(data).value) == FixtureReply(data)
  {
    ParseExactlyWhen(data, q);
    var name := NameOf(q.labels);
    MessageReadsBack(data[..2], if Known(name) then 0x8180 else 0x8183, q, 0, FixtureValues(name, q.kind, q.klass));
    ParseExactlyWhen(FixtureReply(data).value, q);
  }

  lemma Dns64ReplyMeans(data: Bytes, q: Question)
    requires Holds(data, q)
    ensures Dns64Reply(data).Some? && Holds(Dns64Reply(data).value, q) && Dns64Reply(data).value[..2] == data[..2]
    ensures Word(Dns64Reply(data).value, 2) == if Upstream(NameOf(q.labels)) != [] then 0x8180 else 0x8183
    ensures Word(Dns64Reply(data).value, 6) == |Dns64Values(NameOf(q.labels), q.kind, q.klass)|
    ensures RecordsAt(Dns64Reply(data).value, HEADER + |q.raw|, RecordsOf(q, 30, Dns64Values(NameOf(q.labels), q.kind, q.klass)))
    ensures Dns64Reply(Dns64Reply(data).value) == Dns64Reply(data)
  {
    ParseExactlyWhen(data, q);
    var name := NameOf(q.labels);
    MessageReadsBack(data[..2], if Upstream(name) != [] then 0x8180 else 0x8183, q, 30, Dns64Values(name, q.kind, q.klass));
    ParseExactlyWhen(Dns64Reply(data).value, q);
  }

  /** Each AAAA answer of the DNS64 zone carries, under the prefix, the A record it was made from. */
  lemma {:induction false} Dns64Translates(records: seq<U32>, i: nat)
    requires i < |records|
    ensures Dns64All(TYPE_AAAA, records)[i][..12] == Nat64.PutBig(Nat64.PREFIX, 16)[..12]
    ensures Dns64All(TYPE_AAAA, records)[i][12..] == Dns64All(TYPE_A, records)[i] == Put32(records[i])
  {
    if i < |records| - 1 {
      Dns64Translates(records[..|records| - 1], i);
    } else {
      Nat64.SynthesizeEmbeds(records[i]);
    }
  }

  // ---- the servers ----

  datatype Row = Row(name: string, kind: U16, answered: bool)

  /** The shared reply builder; `None` when it raises. */
  method Respond(data: Bytes) returns (reply: Option<Bytes>, row: Option<Row>)
    ensures reply == FixtureReply(data)
    ensures row == RowOf(data)
  {
    var q := ReadByAssertions(data);
    if q.None? {
      return None, None;
    }
    ParseExactlyWhen(data, q.value);
    var name := NameOf(q.value.labels);
    var values := FixtureValues(name, q.value.kind, q.value.klass);
    reply := Some(Message(data[..2], if Known(name) then 0x8180 else 0x8183, q.value, 0, values));
    row := Some(Row(name, q.value.kind, values != []));
  }

  /** The receipt of a query: its name, its type and whether the zone answered it. */
  function RowOf(data: Bytes): Option<Row>
  {
    var p := Parse(data);
    if !p.Accepted? then None
    else
      ParseExactlyWhen(data, p.question);
      var name := NameOf(p.question.labels);
      Some(Row(name, p.question.kind, FixtureValues(name, p.question.kind, p.question.klass) != []))
  }

  /** Replies to the datagrams up to the first that stops the server, and whether one did. */
  function Dns64Run(datagrams: seq<Bytes>): (seq<Bytes>, bool)
  {
    if datagrams == [] then ([], false)
    else
      var before := Dns64Run(datagrams[..|datagrams| - 1]);
      var last := datagrams[|datagrams| - 1];
      if before.1 || Parse(last).Crashed? then (before.0, true)
      else (before.0 + if Dns64Reply(last).Some? then [Dns64Reply(last).value] else [], false)
  }

  lemma {:induction false} RunCrashes(datagrams: seq<Bytes>)
    ensures Dns64Run(datagrams).1 <==> exists i :: 0 <= i < |datagrams| && Parse(datagrams[i]).Crashed?
  {
    if datagrams != [] {
      var front, last := datagrams[..|datagrams| - 1], |datagrams| - 1;
      RunCrashes(front);
      forall i | 0 <= i < last
        ensures Parse(datagrams[i]).Crashed? <==> Parse(front[i]).Crashed?
      {
        assert front[i] == datagrams[i];
      }
    }
  }

  /** The DNS64 server stops exactly when some datagram carries a label that is not ASCII. */
  lemma Dns64StopsExactlyWhen(datagrams: seq<Bytes>)
    ensures Dns64Run(datagrams).1 <==> exists i :: 0 <= i < |datagrams| && NonAsciiReached(datagrams[i])
  {
    RunCrashes(datagrams);
    forall i | 0 <= i < |datagrams|
      ensures Parse(datagrams[i]).Crashed? <==> NonAsciiReached(datagrams[i])
    {
      CrashExactlyWhen(datagrams[i]);
    }
  }

  method Translate(kind: U16, records: seq<U32>) returns (values: seq<Bytes>)
    ensures values == Dns64All(kind, records)
  {
    values := [];
    for i := 0 to |records|
      invariant values == Dns64All(kind, records[..i])
    {
      assert records[..i + 1][..i] == records[..i];
      values := values + [Dns64Value(kind, records[i])];
    }
    assert records[..|records|] == records;
  }

  method Dns64Build(data: Bytes, q: Question) returns (reply: Bytes)
    requires Holds(data, q)
    ensures Some(reply) == Dns64Reply(data)
  {
    ParseExactlyWhen(data, q);
    var name := NameOf(q.labels);
    var records, values := Upstream(name), [];
    if q.klass == CLASS_IN && (q.kind == TYPE_A || q.kind == TYPE_AAAA) {
      values := Translate(q.kind, records);
    }
    reply := Message(data[..2], if records != [] then 0x8180 else 0x8183, q, 30, values);
  }

  method Dns64Serve(datagrams: seq<Bytes>) returns (sent: seq<Bytes>, failed: bool)
    ensures (sent, failed) == Dns64Run(datagrams)
  {
    sent, failed := [], false;
    for i := 0 to |datagrams|
      invariant !failed && (sent, failed) == Dns64Run(datagrams[..i])
    {
      assert datagrams[..i + 1][..i] == datagrams[..i];
      var outcome := ReadByBreaking(datagrams[i]);
      match outcome
      case Ignored =>
        assert sent + [] == sent;
      case Crashed =>
        RunStays(datagrams, i + 1);
        return sent, true;
      case Accepted(q) =>
        ParseExactlyWhen(datagrams[i], q);
        var reply := Dns64Build(datagrams[i], q);
        sent := sent + [reply];
    }
    assert datagrams[..|datagrams|] == datagrams;
  }

  lemma {:induction false} RunStays(datagrams: seq<Bytes>, n: nat)
    requires n <= |datagrams| && Dns64Run(datagrams[..n]).1
    ensures Dns64Run(datagrams) == Dns64Run(datagrams[..n])
    decreases |datagrams| - n
  {
    if n == |datagrams| {
      assert datagrams[..n] == datagrams;
    } else {
      assert datagrams[..n + 1][..n] == datagrams[..n];
      RunStays(datagrams, n + 1);
    }
  }
}
