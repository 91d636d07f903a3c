/**
 Reading the one question of a DNS message (section 4.1 of RFC 1035), as the two lab servers do
 it: one by assertions, the other by breaking out of its loop and checking afterwards.
 */
module DnsQuestion {
  import opened Bytes

  const HEADER := 12

  const MAX_LABEL := 63

  /** What is read from a message; `raw` is the question section itself. */
  datatype Question = Question(labels: seq<Bytes>, kind: U16, klass: U16, raw: Bytes)

  // ---- the grammar ----

  predicate Ascii(part: Bytes)
  {
    forall i :: 0 <= i < |part| ==> part[i] < 128
  }

  predicate LabelSized(part: Bytes)
  {
    1 <= |part| <= MAX_LABEL
  }

  ghost predicate ValidLabels(labels: seq<Bytes>)
  {
    forall i :: 0 <= i < |labels| ==> LabelSized(labels[i]) && Ascii(labels[i])
  }

  function PutLabel(part: Bytes): Bytes
    requires LabelSized(part)
  {
    [|part|] + part
  }

  function PutLabels(labels: seq<Bytes>): Bytes
    requires ValidLabels(labels)
  {
    if labels == [] then [] else PutLabel(labels[0]) + PutLabels(labels[1..])
  }

  function PutQuestion(labels: seq<Bytes>, kind: U16, klass: U16): Bytes
    requires ValidLabels(labels)
  {
    PutLabels(labels) + [0] + (Put16(kind) + Put16(klass))
  }

  /** `data` is a header announcing one question, that question, and anything after it. */
  ghost predicate Holds(data: Bytes, q: Question)
  {
    && ValidLabels(q.labels) && q.raw == PutQuestion(q.labels, q.kind, q.klass)
    && HEADER + |q.raw| <= |data| && Word(data, 4) == 1
    && data[HEADER..HEADER + |q.raw|] == q.raw
  }

  /** After some good labels from `at`, one of proper size that does not end the data is not ASCII. */
  ghost predicate StuckOn(data: Bytes, at: nat, labels: seq<Bytes>, bad: Bytes)
  {
    && ValidLabels(labels) && LabelSized(bad) && !Ascii(bad)
    && at + |PutLabels(labels) + PutLabel(bad)| < |data|
    && data[at..at + |PutLabels(labels) + PutLabel(bad)|] == PutLabels(labels) + PutLabel(bad)
  }

  ghost predicate NonAsciiReached(data: Bytes)
  {
    |data| >= 17 && Word(data, 4) == 1 && exists labels, bad :: StuckOn(data, HEADER, labels, bad)
  }

  // ---- scanning ----

  datatype Scan = Scanned(labels: seq<Bytes>, end: nat) | Malformed | NonAscii

  function Prefixed(labels: seq<Bytes>, scan: Scan): Scan
  {
    if scan.Scanned? then Scanned(labels + scan.labels, scan.end) else scan
  }

  /** The labels from `at` to the empty one, and the position after it. */
  function ScanFrom(data: Bytes, at: nat): (scan: Scan)
    ensures scan.Scanned? ==> at < scan.end <= |data|
    decreases |data| - at
  {
    if at >= |data| then Malformed
    else
      var length := data[at];
      if length == 0 then Scanned([], at + 1)
      else if length > MAX_LABEL || at + 1 + length >= |data| then Malformed
      else if !Ascii(data[at + 1..at + 1 + length]) then NonAscii
      else Prefixed([data[at + 1..at + 1 + length]], ScanFrom(data, at + 1 + length))
  }

  lemma LabelAt(data: Bytes, at: nat, part: Bytes)
    requires LabelSized(part) && at + 1 + |part| <= |data|
    ensures data[at..at + 1 + |part|] == PutLabel(part) <==>
      data[at] == |part| && data[at + 1..at + 1 + |part|] == part
  {
    var slice := data[at..at + 1 + |part|];
    assert slice == [data[at]] + data[at + 1..at + 1 + |part|];
    if slice == PutLabel(part) {
      assert slice[0] == |part| && slice[1..] == part;
    }
  }

  /** A slice that is two parts put together, seen as two slices. */
  lemma SliceSplit(data: Bytes, at: nat, a: Bytes, b: Bytes)
    requires at + |a + b| <= |data|
    ensures data[at..at + |a + b|] == a + b <==>
      data[at..at + |a|] == a && data[at + |a|..at + |a + b|] == b
  {
    var slice := data[at..at + |a + b|];
    assert slice[..|a|] == data[at..at + |a|] && slice[|a|..] == data[at + |a|..at + |a + b|];
    if slice == a + b {
      assert slice[..|a|] == a && slice[|a|..] == b;
    }
    assert slice == slice[..|a|] + slice[|a|..];
  }

  ghost predicate NameAt(data: Bytes, at: nat, labels: seq<Bytes>, end: nat)
  {
    ValidLabels(labels) && at <= end <= |data| && data[at..end] == PutLabels(labels) + [0]
  }

  lemma NameMore(data: Bytes, at: nat, part: Bytes, labels: seq<Bytes>, end: nat)
    requires LabelSized(part) && Ascii(part) && ValidLabels(labels)
    requires at + 1 + |part| <= end <= |data| && data[at..at + 1 + |part|] == PutLabel(part)
    ensures NameAt(data, at, [part] + labels, end) <==> NameAt(data, at + 1 + |part|, labels, end)
  {
    var all := [part] + labels;
    assert all[1..] == labels && ValidLabels(all);
    ConcatAssoc(PutLabel(part), PutLabels(labels), [0]);
    var rest := PutLabels(labels) + [0];
    if end == at + |PutLabel(part) + rest| {
      SliceSplit(data, at, PutLabel(part), rest);
    }
  }

  lemma {:induction false} ScanSound(data: Bytes, at: nat)
    ensures ScanFrom(data, at).Scanned? ==>
      NameAt(data, at, ScanFrom(data, at).labels, ScanFrom(data, at).end)
    decreases |data| - at
  {
    if at < |data| && ScanFrom(data, at).Scanned? {
      var length := data[at];
      if length == 0 {
        assert data[at..at + 1] == [] + [0];
      } else {
        var part := data[at + 1..at + 1 + length];
        var rest := ScanFrom(data, at + 1 + length);
        ScanSound(data, at + 1 + length);
        LabelAt(data, at, part);
        NameMore(data, at, part, rest.labels, rest.end);
      }
    }
  }

  /** A good label with something after it is what the scan takes first. */
  lemma FirstLabel(data: Bytes, at: nat, part: Bytes, rest: Bytes)
    requires LabelSized(part) && Ascii(part) && rest != [] && at + |PutLabel(part) + rest| <= |data|
    requires data[at..at + |PutLabel(part) + rest|] == PutLabel(part) + rest
    ensures data[at..at + 1 + |part|] == PutLabel(part)
    ensures ScanFrom(data, at) == Prefixed([part], ScanFrom(data, at + 1 + |part|))
  {
    SliceSplit(data, at, PutLabel(part), rest);
    LabelAt(data, at, part);
  }

  lemma {:induction false} ScanComplete(data: Bytes, at: nat, labels: seq<Bytes>, end: nat)
    requires NameAt(data, at, labels, end)
    ensures ScanFrom(data, at) == Scanned(labels, end)
    decreases |labels|
  {
    hide ScanFrom, PutLabel, Ascii;
    if labels == [] {
      NameEnds(data, at, end);
    } else {
      var part, rest := labels[0], labels[1..];
      assert labels == [part] + rest;
      ConcatAssoc(PutLabel(part), PutLabels(rest), [0]);
      LabelLong(part);
      FirstLabel(data, at, part, PutLabels(rest) + [0]);
      NameMore(data, at, part, rest, end);
      ScanComplete(data, at + 1 + |part|, rest, end);
    }
  }

  lemma NameEnds(data: Bytes, at: nat, end: nat)
    requires NameAt(data, at, [], end)
    ensures ScanFrom(data, at) == Scanned([], end)
  {
    var slice := data[at..end];
    assert slice == [0] && slice[0] == data[at];
  }

  /** The name found is the only one there. */
  lemma ScanExactlyWhen(data: Bytes, at: nat, labels: seq<Bytes>, end: nat)
    ensures ScanFrom(data, at) == Scanned(labels, end) <==> NameAt(data, at, labels, end)
  {
    ScanSound(data, at);
    if NameAt(data, at, labels, end) {
      ScanComplete(data, at, labels, end);
    }
  }

  lemma StuckMore(data: Bytes, at: nat, part: Bytes, labels: seq<Bytes>, bad: Bytes)
    requires LabelSized(part) && Ascii(part) && ValidLabels(labels)
    requires at + 1 + |part| <= |data| && data[at..at + 1 + |part|] == PutLabel(part)
    ensures StuckOn(data, at, [part] + labels, bad) <==> StuckOn(data, at + 1 + |part|, labels, bad)
  {
    var all := [part] + labels;
    assert all[1..] == labels && ValidLabels(all);
    if LabelSized(bad) {
      ConcatAssoc(PutLabel(part), PutLabels(labels), PutLabel(bad));
      var rest := PutLabels(labels) + PutLabel(bad);
      if at + |PutLabel(part) + rest| <= |data| {
        SliceSplit(data, at, PutLabel(part), rest);
      }
    }
  }

  lemma {:induction false} StuckSound(data: Bytes, at: nat) returns (labels: seq<Bytes>, bad: Bytes)
    requires ScanFrom(data, at).NonAscii?
    ensures StuckOn(data, at, labels, bad)
    decreases |data| - at
  {
    hide PutLabel, PutLabels, Ascii;
    var length := data[at];
    var part := data[at + 1..at + 1 + length];
    if Ascii(part) {
      LabelAt(data, at, part);
      var rest, worst := StuckSound(data, at + 1 + length);
      StuckMore(data, at, part, rest, worst);
      labels, bad := [part] + rest, worst;
    } else {
      labels, bad := [], part;
      BadLabel(data, at, part);
    }
  }

  lemma BadLabel(data: Bytes, at: nat, bad: Bytes)
    requires LabelSized(bad) && !Ascii(bad) && at + 1 + |bad| < |data|
    requires data[at] == |bad| && data[at + 1..at + 1 + |bad|] == bad
    ensures StuckOn(data, at, [], bad)
  {
    hide Ascii;
    LabelAt(data, at, bad);
    assert PutLabels([]) + PutLabel(bad) == PutLabel(bad);
  }

  lemma {:induction false} StuckComplete(data: Bytes, at: nat, labels: seq<Bytes>, bad: Bytes)
    requires StuckOn(data, at, labels, bad)
    ensures ScanFrom(data, at).NonAscii?
    decreases |labels|
  {
    hide ScanFrom, PutLabel, Ascii;
    if labels == [] {
      StuckNow(data, at, bad);
    } else {
      var part, rest := labels[0], labels[1..];
      assert labels == [part] + rest;
      ConcatAssoc(PutLabel(part), PutLabels(rest), PutLabel(bad));
      LabelLong(bad);
      LabelLong(part);
      FirstLabel(data, at, part, PutLabels(rest) + PutLabel(bad));
      StuckMore(data, at, part, rest, bad);
      StuckComplete(data, at + 1 + |part|, rest, bad);
    }
  }

  lemma LabelLong(part: Bytes)
    requires LabelSized(part)
    ensures |PutLabel(part)| == 1 + |part|
  {
  }

  lemma StuckNow(data: Bytes, at: nat, bad: Bytes)
    requires StuckOn(data, at, [], bad)
    ensures ScanFrom(data, at).NonAscii?
  {
    assert PutLabels([]) + PutLabel(bad) == PutLabel(bad);
    LabelLong(bad);
    assert data[at..at + 1 + |bad|] == PutLabel(bad);
    hide PutLabel, PutLabels, Ascii;
    LabelAt(data, at, bad);
  }

  // ---- a whole message ----

  datatype Outcome = Accepted(question: Question) | Ignored | Crashed

  function Parse(data: Bytes): Outcome
  {
    if |data| < 17 || Word(data, 4) != 1 then Ignored
    else
      match ScanFrom(data, HEADER)
      case Malformed => Ignored
      case NonAscii => Crashed
      case Scanned(labels, end) =>
        if end + 4 > |data| then Ignored
        else Accepted(Question(labels, Word(data, end), Word(data, end + 2), data[HEADER..end + 4]))
  }

  lemma FieldsAt(data: Bytes, at: nat, kind: U16, klass: U16)
    requires at + 4 <= |data|
    ensures data[at..at + 4] == Put16(kind) + Put16(klass) <==> Word(data, at) == kind && Word(data, at + 2) == klass
  {
    SliceSplit(data, at, Put16(kind), Put16(klass));
    Put16OfWord(data, at);
    Put16OfWord(data, at + 2);
    WordOfSlice(data, at, at + 2, 0);
    WordOfSlice(data, at + 2, at + 4, 0);
  }

  /** A message is accepted as a question exactly when it holds that question. */
  lemma ParseExactlyWhen(data: Bytes, q: Question)
    ensures Parse(data) == Accepted(q) <==> Holds(data, q)
  {
    hide ScanFrom, PutLabels, Put16, Word, ValidLabels;
    if Parse(data) == Accepted(q) {
      var end := ScanFrom(data, HEADER).end;
      ScanSound(data, HEADER);
      FieldsAt(data, end, q.kind, q.klass);
      SliceSplit(data, HEADER, PutLabels(q.labels) + [0], Put16(q.kind) + Put16(q.klass));
    }
    if Holds(data, q) {
      var name, fields := PutLabels(q.labels) + [0], Put16(q.kind) + Put16(q.klass);
      SliceSplit(data, HEADER, name, fields);
      ScanComplete(data, HEADER, q.labels, HEADER + |name|);
      FieldsAt(data, HEADER + |name|, q.kind, q.klass);
    }
  }

  lemma CrashExactlyWhen(data: Bytes)
    ensures Parse(data) == Crashed <==> NonAsciiReached(data)
  {
    if Parse(data) == Crashed {
      var labels, bad := StuckSound(data, HEADER);
    }
    if NonAsciiReached(data) {
      var labels, bad :| StuckOn(data, HEADER, labels, bad);
      StuckComplete(data, HEADER, labels, bad);
    }
  }

  /** Seventeen bytes are enough, with one label of one byte, 0x80; and nothing shorter crashes. */
  lemma SmallestCrash()
    ensures Parse([0, 0, 0, 0, 0, 1, 0, 0, 0, 0, 0, 0, 1, 0x80, 0, 0, 0]) == Crashed
    ensures forall data: Bytes :: Parse(data) == Crashed ==> |data| >= 17
  {
    var data: Bytes := [0, 0, 0, 0, 0, 1, 0, 0, 0, 0, 0, 0, 1, 0x80, 0, 0, 0];
    var bad: Bytes := [0x80];
    assert bad[0] >= 128;
    assert PutLabels([]) + PutLabel(bad) == [1, 0x80] && data[12..14] == [1, 0x80];
    assert StuckOn(data, HEADER, [], bad);
    CrashExactlyWhen(data);
  }

  /** One turn of either loop: a good label is taken. */
  lemma ScanTakes(data: Bytes, at: nat, labels: seq<Bytes>)
    requires at < |data| && 1 <= data[at] <= MAX_LABEL && at + 1 + data[at] < |data|
    requires Ascii(data[at + 1..at + 1 + data[at]])
    ensures Prefixed(labels, ScanFrom(data, at))
         == Prefixed(labels + [data[at + 1..at + 1 + data[at]]], ScanFrom(data, at + 1 + data[at]))
  {
    var scan := ScanFrom(data, at + 1 + data[at]);
    if scan.Scanned? {
      ConcatAssoc(labels, [data[at + 1..at + 1 + data[at]]], scan.labels);
    }
  }

  lemma ScanEnds(data: Bytes, at: nat, labels: seq<Bytes>)
    requires at < |data| && data[at] == 0
    ensures Prefixed(labels, ScanFrom(data, at)) == Scanned(labels, at + 1)
  {
    assert labels + [] == labels;
  }

  lemma PrefixedNothing(scan: Scan)
    ensures Prefixed([], scan) == scan
  {
    if scan.Scanned? {
      assert [] + scan.labels == scan.labels;
    }
  }

  /** The shared reply builder's parser: any failed assertion, or a label that is not ASCII, raises. */
  method ReadByAssertions(data: Bytes) returns (r: Option<Question>)
    ensures r == if Parse(data).Accepted? then Some(Parse(data).question) else None
  {
    if |data| < 17 || Word(data, 4) != 1 {
      return None;
    }
    var offset, labels := HEADER, [];
    PrefixedNothing(ScanFrom(data, HEADER));
    while true
      invariant HEADER <= offset <= |data|
      invariant ScanFrom(data, HEADER) == Prefixed(labels, ScanFrom(data, offset))
      decreases |data| - offset
    {
      if offset >= |data| {
        return None;
      }
      var length := data[offset];
      if length == 0 {
        ScanEnds(data, offset, labels);
        offset := offset + 1;
        break;
      }
      if length > MAX_LABEL || offset + 1 + length >= |data| {
        return None;
      }
      var part := data[offset + 1..offset + 1 + length];
      if !Ascii(part) {
        return None;
      }
      ScanTakes(data, offset, labels);
      labels := labels + [part];
      offset := offset + 1 + length;
    }
    if offset + 4 > |data| {
      return None;
    }
    return Some(Question(labels, Word(data, offset), Word(data, offset + 2), data[HEADER..offset + 4]));
  }

  /** The DNS64 server's parser: it leaves its loop for any reason and then looks where it stands. */
  method ReadByBreaking(data: Bytes) returns (r: Outcome)
    ensures r == Parse(data)
  {
    if |data| < 17 || Word(data, 4) != 1 {
      return Ignored;
    }
    var offset, labels := HEADER, [];
    PrefixedNothing(ScanFrom(data, HEADER));
    while offset < |data| && data[offset] != 0
      invariant HEADER <= offset <= |data|
      invariant ScanFrom(data, HEADER) == Prefixed(labels, ScanFrom(data, offset))
      decreases |data| - offset
    {
      var length := data[offset];
      if length > MAX_LABEL || offset + 1 + length >= |data| {
        break;
      }
      var part := data[offset + 1..offset + 1 + length];
      if !Ascii(part) {
        return Crashed;
      }
      ScanTakes(data, offset, labels);
      labels := labels + [part];
      offset := offset + 1 + length;
    }
    if offset + 5 > |data| || data[offset] != 0 {
      return Ignored;
    }
    ScanEnds(data, offset, labels);
    offset := offset + 1;
    return Accepted(Question(labels, Word(data, offset), Word(data, offset + 2), data[HEADER..offset + 4]));
  }
}
