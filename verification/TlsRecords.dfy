/**
 Splitting a byte stream into TLS records: a five-byte header whose last two bytes give the
 body length (section 5.1 of RFC 8446).  The capture audit stops quietly at a record that is
 not all there yet; the ACL peer refuses such a tail.
 */
module TlsRecords {
  import opened Bytes

  const HEADER := 5

  /** A record and nothing after it. */
  predicate IsRecord(r: Bytes)
  {
    |r| >= HEADER && |r| == HEADER + Word(r, 3)
  }

  /** A whole record stands at the front. */
  predicate Starts(data: Bytes)
  {
    |data| >= HEADER && HEADER + Word(data, 3) <= |data|
  }

  function First(data: Bytes): (r: Bytes)
    requires Starts(data)
    ensures IsRecord(r) && r <= data
  {
    data[..HEADER + Word(data, 3)]
  }

  function Split(data: Bytes): seq<Bytes>
    decreases |data|
  {
    if Starts(data) then [First(data)] + Split(data[|First(data)|..]) else []
  }

  /** What is left behind the last whole record. */
  function Tail(data: Bytes): Bytes
    decreases |data|
  {
    if Starts(data) then Tail(data[|First(data)|..]) else data
  }

  ghost predicate AllRecords(records: seq<Bytes>)
  {
    forall i :: 0 <= i < |records| ==> IsRecord(records[i])
  }

  /** Nothing is lost or invented: the records and the unfinished tail are the input. */
  lemma {:induction false} SplitSound(data: Bytes)
    ensures AllRecords(Split(data)) && !Starts(Tail(data))
    ensures Flatten(Split(data)) + Tail(data) == data
    decreases |data|
  {
    if Starts(data) {
      var r, rest := First(data), data[|First(data)|..];
      SplitSound(rest);
      assert data == r + rest;
      assert Flatten(Split(data)) == r + Flatten(Split(rest));
      ConcatAssoc(r, Flatten(Split(rest)), Tail(rest));
    }
  }

  lemma SplitRecord(r: Bytes, rest: Bytes)
    requires IsRecord(r)
    ensures Split(r + rest) == [r] + Split(rest) && Tail(r + rest) == Tail(rest)
  {
    assert Word(r + rest, 3) == Word(r, 3);
    assert First(r + rest) == r && (r + rest)[|r|..] == rest;
  }

  /** Records in front of anything come out first, whatever follows them. */
  lemma {:induction false} SplitConcat(records: seq<Bytes>, rest: Bytes)
    requires AllRecords(records)
    ensures Split(Flatten(records) + rest) == records + Split(rest)
    ensures Tail(Flatten(records) + rest) == Tail(rest)
  {
    if records == [] {
      assert Flatten(records) + rest == rest;
    } else {
      SplitConcat(records[1..], rest);
      SplitRecord(records[0], Flatten(records[1..]) + rest);
      ConcatAssoc(records[0], Flatten(records[1..]), rest);
      ConcatAssoc([records[0]], records[1..], Split(rest));
      assert [records[0]] + records[1..] == records;
    }
  }

  /** There is only one way to cut a stream into records and an unfinished tail. */
  lemma SplitUnique(records: seq<Bytes>, tail: Bytes)
    requires AllRecords(records) && !Starts(tail)
    ensures Split(Flatten(records) + tail) == records && Tail(Flatten(records) + tail) == tail
  {
    SplitConcat(records, tail);
    assert records + [] == records;
  }

  /** More bytes never change the records already found. */
  lemma SplitMonotone(data: Bytes, more: Bytes)
    ensures Split(data) <= Split(data + more)
  {
    SplitSound(data);
    ConcatAssoc(Flatten(Split(data)), Tail(data), more);
    SplitConcat(Split(data), Tail(data) + more);
  }

  lemma SplitAt(data: Bytes, at: nat)
    requires at + HEADER <= |data|
    ensures var end := at + HEADER + Word(data, at + 3);
            Split(data[at..]) == if end <= |data| then [data[at..end]] + Split(data[end..]) else []
  {
    hide Word;
    assert data[at..|data|] == data[at..];
    WordOfSlice(data, at, |data|, 3);
    var rest, end := data[at..], at + HEADER + Word(data, at + 3);
    if end <= |data| {
      assert First(rest) == data[at..end] && rest[end - at..] == data[end..];
    }
  }

  /** The lenient splitter of the capture audit. */
  method SplitLenient(joined: Bytes) returns (records: seq<Bytes>)
    ensures records == Split(joined)
  {
    records := [];
    var offset := 0;
    assert joined[0..] == joined;
    while offset + HEADER <= |joined|
      invariant offset <= |joined|
      invariant records + Split(joined[offset..]) == Split(joined)
    {
      var total := HEADER + Word(joined, offset + 3);
      SplitAt(joined, offset);
      if total > |joined| - offset {
        break;
      }
      ConcatAssoc(records, [joined[offset..offset + total]], Split(joined[offset + total..]));
      records := records + [joined[offset..offset + total]];
      offset := offset + total;
    }
    assert Split(joined[offset..]) == [] && records + [] == records;
  }

  datatype Strict = Records(records: seq<Bytes>) | ShortHeader | ShortBody

  /**
   The strict splitter of the ACL peer: it agrees with the lenient one wherever it succeeds,
   and it succeeds exactly when nothing is left over.
   */
  method SplitStrict(bytes: Bytes) returns (r: Strict)
    ensures r.Records? <==> Tail(bytes) == []
    ensures r.Records? ==> r.records == Split(bytes)
    ensures r.ShortHeader? <==> 0 < |Tail(bytes)| < HEADER
    ensures r.ShortBody? <==> |Tail(bytes)| >= HEADER
  {
    var result, rest := [], bytes;
    while rest != []
      invariant result + Split(rest) == Split(bytes) && Tail(rest) == Tail(bytes)
      decreases |rest|
    {
      if |rest| < HEADER {
        return ShortHeader;
      }
      var length := HEADER + Word(rest, 3);
      if length > |rest| {
        return ShortBody;
      }
      ConcatAssoc(result, [First(rest)], Split(rest[length..]));
      result := result + [rest[..length]];
      rest := rest[length..];
    }
    assert result + [] == result;
    return Records(result);
  }
}
