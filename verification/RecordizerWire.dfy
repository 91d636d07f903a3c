/**
 The mux envelope that carries inner packets: a four-byte marker followed by frames, each
 naming a packet, its full length, and the slice of it that the frame holds.
 */
module RecordizerWire {
  import opened Bytes

  const MAGIC: Bytes := [0x51, 0x52, 0x4d, 0x31]

  const HEADER := 10

  /** Marker, one header and one byte: the smallest record that carries anything. */
  const MIN_RECORD := 15

  datatype FrameData = Frame(id: U32, total: U16, offset: U16, payload: Bytes) {
    /** Exactly the frames a header can describe and a receiver does not call malformed. */
    predicate Sane()
    {
      0 < |payload| < 0x1_0000 && 0 < total && offset + |payload| <= total
    }

    function End(): int
    {
      offset + |payload|
    }
  }

  type Frame = f: FrameData | f.Sane() witness Frame(0, 1, 0, [0])

  function PutFrame(f: Frame): (out: Bytes)
    ensures |out| == HEADER + |f.payload|
  {
    Put32(f.id) + Put16(f.total) + Put16(f.offset) + Put16(|f.payload|) + f.payload
  }

  ghost function PutFrames(frames: seq<Frame>): Bytes
  {
    if frames == [] then []
    else PutFrames(frames[..|frames| - 1]) + PutFrame(frames[|frames| - 1])
  }

  lemma PutFramesAppend(frames: seq<Frame>, f: Frame)
    ensures PutFrames(frames + [f]) == PutFrames(frames) + PutFrame(f)
  {
    assert (frames + [f])[..|frames|] == frames;
  }

  lemma {:induction false} PutFramesCons(f: Frame, rest: seq<Frame>)
    ensures PutFrames([f] + rest) == PutFrame(f) + PutFrames(rest)
  {
    if rest == [] {
      assert [f] + rest == [] + [f];
      PutFramesAppend([], f);
    } else {
      var front, last := rest[..|rest| - 1], rest[|rest| - 1];
      PutFramesCons(f, front);
      assert [f] + rest == ([f] + front) + [last];
      PutFramesAppend([f] + front, last);
      ConcatAssoc(PutFrame(f), PutFrames(front), PutFrame(last));
    }
  }

  datatype Parse = Parsed(frame: Frame, next: nat) | Short | Malformed

  /** Reads the frame at `cursor`. */
  function ParseFrame(record: Bytes, cursor: nat): (p: Parse)
    requires cursor < |record|
    ensures p.Parsed? ==> cursor < p.next <= |record|
  {
    if |record| - cursor < HEADER then Short
    else
      var total, offset, len := Word(record, cursor + 4), Word(record, cursor + 6), Word(record, cursor + 8);
      var end := cursor + HEADER + len;
      if total == 0 || len == 0 || end > |record| || offset + len > total then Malformed
      else Parsed(Frame(Long(record, cursor), total, offset, record[cursor + HEADER..end]), end)
  }

  /** A frame written anywhere in a record is read back, and reading stops right after it. */
  lemma ParsePut(before: Bytes, f: Frame, after: Bytes)
    ensures ParseFrame(before + PutFrame(f) + after, |before|) == Parsed(f, |before| + |PutFrame(f)|)
  {
    var record, at := before + PutFrame(f) + after, |before|;
    var body := PutFrame(f);
    assert record[at..at + 4] == Put32(f.id);
    Put32OfLong(record, at);
    assert Long(record, at) == Long(record[at..at + 4], 0) == f.id;
    assert record[at + 4..at + 6] == Put16(f.total);
    assert record[at + 6..at + 8] == Put16(f.offset);
    assert record[at + 8..at + 10] == Put16(|f.payload|);
    WordOfSlice(record, at + 4, at + 6, 0);
    WordOfSlice(record, at + 6, at + 8, 0);
    WordOfSlice(record, at + 8, at + 10, 0);
    assert record[at + 10..at + |body|] == f.payload;
  }
}
