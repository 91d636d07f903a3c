/**
 The TLS 1.3 ServerHello the audit accepts (section 4.1.3 of RFC 8446), as a printer and a
 parser that undo each other.
 */
module ServerHello {
  import opened Bytes

  datatype Extension = Extension(kind: U16, body: Bytes)

  datatype Hello = Hello(random: Bytes, session: Bytes, cipher: U16, extensions: seq<Extension>)

  /** What the audit reports. */
  datatype Info = Info(cipher: U16, group: U16, kinds: seq<U16>)

  const VERSION := 0x2b

  const KEY_SHARE := 0x33

  predicate ShareOk(share: Bytes)
  {
    && |share| >= 4 && |share| - 4 == Word(share, 2)
    && ((Word(share, 0) == 0x1d && |share| == 36) || (Word(share, 0) == 0x11ec && |share| == 1124))
  }

  // ---- extension lists ----

  function Kinds(exts: seq<Extension>): (kinds: seq<U16>)
    ensures |kinds| == |exts|
  {
    if exts == [] then [] else [exts[0].kind] + Kinds(exts[1..])
  }

  ghost predicate Distinct(exts: seq<Extension>)
  {
    forall i, j :: 0 <= i < j < |exts| ==> exts[i].kind != exts[j].kind
  }

  ghost predicate Printable(exts: seq<Extension>)
  {
    forall i :: 0 <= i < |exts| ==> |exts[i].body| < 0x1_0000
  }

  function PutExtension(x: Extension): Bytes
    requires |x.body| < 0x1_0000
  {
    Put16(x.kind) + Put16(|x.body|) + x.body
  }

  ghost function PutExtensions(exts: seq<Extension>): Bytes
    requires Printable(exts)
  {
    if exts == [] then [] else PutExtension(exts[0]) + PutExtensions(exts[1..])
  }

  predicate Has(exts: seq<Extension>, kind: U16)
  {
    exists i :: 0 <= i < |exts| && exts[i].kind == kind
  }

  /** The last body for `kind`; extensions are distinct wherever this is used. */
  function Lookup(exts: seq<Extension>, kind: U16): Option<Bytes>
  {
    if exts == [] then None
    else if exts[|exts| - 1].kind == kind then Some(exts[|exts| - 1].body)
    else Lookup(exts[..|exts| - 1], kind)
  }

  /** Reads extensions to the end of the data; `seen` are those already read. */
  function ReadExtensions(data: Bytes, seen: seq<Extension>): Option<seq<Extension>>
    decreases |data|
  {
    if data == [] then Some(seen)
    else if |data| < 4 || 4 + Word(data, 2) > |data| || Has(seen, Word(data, 0)) then None
    else
      var end := 4 + Word(data, 2);
      ReadExtensions(data[end..], seen + [Extension(Word(data, 0), data[4..end])])
  }

  lemma {:induction false} ReadPut(exts: seq<Extension>, seen: seq<Extension>)
    requires Printable(exts) && Distinct(seen + exts)
    ensures ReadExtensions(PutExtensions(exts), seen) == Some(seen + exts)
    decreases |exts|
  {
    if exts == [] {
      assert seen + exts == seen;
    } else {
      var x, rest := exts[0], exts[1..];
      var data := PutExtensions(exts);
      assert data[0..2] == Put16(x.kind) && data[2..4] == Put16(|x.body|);
      WordOfSlice(data, 0, 2, 0);
      WordOfSlice(data, 2, 4, 0);
      assert data[4..4 + |x.body|] == x.body && data[4 + |x.body|..] == PutExtensions(rest);
      assert (seen + exts)[|seen|] == x;
      assert seen + exts == (seen + [x]) + rest;
      assert !Has(seen, x.kind) by {
        assert forall i :: 0 <= i < |seen| ==> (seen + exts)[i] == seen[i];
      }
      ReadPut(rest, seen + [x]);
    }
  }

  lemma {:induction false} PutRead(data: Bytes, seen: seq<Extension>) returns (read: seq<Extension>)
    requires ReadExtensions(data, seen).Some? && Distinct(seen)
    ensures ReadExtensions(data, seen).value == seen + read && Distinct(seen + read)
    ensures Printable(read) && PutExtensions(read) == data
    decreases |data|
  {
    if data == [] {
      read := [];
      assert seen + read == seen;
    } else {
      var end := 4 + Word(data, 2);
      var x := Extension(Word(data, 0), data[4..end]);
      var rest := PutRead(data[end..], seen + [x]);
      read := [x] + rest;
      assert read[1..] == rest;
      ConcatAssoc(seen, [x], rest);
      PutOne(data);
    }
  }

  lemma PutOne(data: Bytes)
    requires |data| >= 4 && 4 + Word(data, 2) <= |data|
    ensures var end := 4 + Word(data, 2);
            PutExtension(Extension(Word(data, 0), data[4..end])) + data[end..] == data
  {
    Put16OfWord(data, 0);
    Put16OfWord(data, 2);
    assert data == data[0..2] + data[2..4] + data[4..4 + Word(data, 2)] + data[4 + Word(data, 2)..];
  }

  lemma ReadOne(data: Bytes, at: nat, seen: seq<Extension>)
    requires at + 4 <= |data|
    ensures ReadExtensions(data[at..], seen)
         == if at + 4 + Word(data, at + 2) > |data| || Has(seen, Word(data, at)) then None
            else var end := at + 4 + Word(data, at + 2);
                 ReadExtensions(data[end..], seen + [Extension(Word(data, at), data[at + 4..end])])
  {
    hide Has, Word;
    assert data[at..|data|] == data[at..];
    WordOfSlice(data, at, |data|, 0);
    WordOfSlice(data, at, |data|, 2);
    var rest, end := data[at..], at + 4 + Word(data, at + 2);
    if end <= |data| {
      assert rest[4..end - at] == data[at + 4..end] && rest[end - at..] == data[end..];
    }
  }

  // ---- the whole message ----

  /** A hello that has a wire form at all. */
  ghost predicate Framed(h: Hello)
  {
    && |h.random| == 32 && |h.session| < 256
    && Printable(h.extensions) && Distinct(h.extensions) && |PutExtensions(h.extensions)| < 0x1_0000
  }

  /** Beyond its framing, the audit wants TLS 1.3 with one of two ciphers and a well-sized key share. */
  predicate Accepted(h: Hello)
  {
    && (h.cipher == 0x1301 || h.cipher == 0x1302)
    && Lookup(h.extensions, VERSION) == Some([3, 4])
    && Lookup(h.extensions, KEY_SHARE).Some? && ShareOk(Lookup(h.extensions, KEY_SHARE).value)
  }

  function Read24(data: Bytes, at: nat): nat
    requires at + 3 <= |data|
  {
    var high: int := data[at];
    high * 0x1_0000 + Word(data, at + 1)
  }

  function Put24(n: nat): (out: Bytes)
    requires n < 0x100_0000
    ensures |out| == 3 && Read24(out, 0) == n
  {
    [n / 0x1_0000] + Put16(n % 0x1_0000)
  }

  lemma Put24OfRead(data: Bytes, at: nat)
    requires at + 3 <= |data|
    ensures Put24(Read24(data, at)) == data[at..at + 3]
  {
    hide Put16, Word;
    Put16OfWord(data, at + 1);
    assert data[at..at + 3] == [data[at]] + data[at + 1..at + 3];
  }

  /** Session, cipher, no compression, and the extensions behind their length. */
  ghost function PutTail(h: Hello): Bytes
    requires Framed(h)
  {
    var exts := PutExtensions(h.extensions);
    [|h.session|] + (h.session + (Put16(h.cipher) + ([0] + (Put16(|exts|) + exts))))
  }

  function ReadTail(random: Bytes, data: Bytes): Option<Hello>
    requires |data| > 0
  {
    var at := 1 + (data[0] as int);
    if at + 5 > |data| || data[at + 2] != 0 || at + 5 + Word(data, at + 3) != |data| then None
    else
      var exts := ReadExtensions(data[at + 5..], []);
      if exts.None? then None else Some(Hello(random, data[1..at], Word(data, at), exts.value))
  }

  lemma PutReadTail(h: Hello)
    requires Framed(h)
    ensures |PutTail(h)| > 0 && ReadTail(h.random, PutTail(h)) == Some(h)
  {
    hide PutExtensions, ReadExtensions, Put16, Word;
    var data, exts := PutTail(h), PutExtensions(h.extensions);
    var at := 1 + |h.session|;
    TailSlices(h.session, Put16(h.cipher), Put16(|exts|), exts);
    WordOfSlice(data, at, at + 2, 0);
    WordOfSlice(data, at + 3, at + 5, 0);
    assert [] + h.extensions == h.extensions;
    ReadPut(h.extensions, []);
  }

  lemma TailSlices(session: Bytes, cipher: Bytes, length: Bytes, exts: Bytes)
    requires |session| < 256 && |cipher| == |length| == 2
    ensures var data: Bytes, at := [|session|] + (session + (cipher + ([0] + (length + exts)))), 1 + |session|;
            && data[0] == |session| && data[1..at] == session && data[at..at + 2] == cipher
            && data[at + 2] == 0 && data[at + 3..at + 5] == length && data[at + 5..] == exts
            && |data| == at + 5 + |exts|
  {
    var data: Bytes, at := [|session|] + (session + (cipher + ([0] + (length + exts)))), 1 + |session|;
    var behind := cipher + ([0] + (length + exts));
    assert data[1..at] == session && data[at..] == behind;
    assert data[at..at + 2] == behind[..2] && data[at + 3..at + 5] == behind[3..5] && data[at + 5..] == behind[5..];
  }

  lemma ReadPutTail(random: Bytes, data: Bytes)
    requires |random| == 32 && |data| > 0 && ReadTail(random, data).Some?
    ensures Framed(ReadTail(random, data).value) && PutTail(ReadTail(random, data).value) == data
  {
    hide PutExtensions, ReadExtensions, Put16, Word, Printable, Distinct;
    var h, at := ReadTail(random, data).value, 1 + (data[0] as int);
    var read := PutRead(data[at + 5..], []);
    assert h.extensions == read by {
      assert [] + read == read;
    }
    Put16OfWord(data, at);
    Put16OfWord(data, at + 3);
    TailPieces(data, at);
  }

  lemma TailPieces(data: Bytes, at: nat)
    requires 1 <= at && at + 5 <= |data|
    ensures [data[0]] + (data[1..at] + (data[at..at + 2] + ([data[at + 2]] + (data[at + 3..at + 5] + data[at + 5..])))) == data
  {
    SliceThenRest(data, at + 3, at + 5);
    assert [data[at + 2]] + data[at + 3..] == data[at + 2..];
    SliceThenRest(data, at, at + 2);
    SliceThenRest(data, 1, at);
    assert [data[0]] + data[1..] == data;
  }

  /** The handshake message: type 2, a 24-bit length, version 0x0303, the random and the tail. */
  ghost function Print(h: Hello): Bytes
    requires Framed(h)
  {
    [2] + (Put24(34 + |PutTail(h)|) + ([3, 3] + (h.random + PutTail(h))))
  }

  function ReadHello(msg: Bytes): Option<Hello>
  {
    if |msg| < 39 || msg[0] != 2 || Read24(msg, 1) != |msg| - 4 || msg[4..6] != [3, 3] then None
    else ReadTail(msg[6..38], msg[38..])
  }

  lemma PrintRead(h: Hello)
    requires Framed(h)
    ensures ReadHello(Print(h)) == Some(h)
  {
    TailShort(h);
    hide PutTail, ReadTail, Put24, Read24;
    var msg := Print(h);
    PutReadTail(h);
    HeadSlices(Put24(34 + |PutTail(h)|), h.random, PutTail(h));
    Read24OfSlice(msg, 1);
  }

  lemma TailShort(h: Hello)
    requires Framed(h)
    ensures 34 + |PutTail(h)| < 0x100_0000
  {
  }

  lemma HeadSlices(length: Bytes, random: Bytes, tail: Bytes)
    requires |length| == 3 && |random| == 32
    ensures var msg := [2] + (length + ([3, 3] + (random + tail)));
            && |msg| == 38 + |tail| && msg[0] == 2 && msg[1..4] == length
            && msg[4..6] == [3, 3] && msg[6..38] == random && msg[38..] == tail
  {
    var behind := length + ([3, 3] + (random + tail));
    var msg := [2] + behind;
    assert msg[1..] == behind;
    assert msg[1..4] == behind[..3] && msg[4..6] == behind[3..5];
    assert msg[6..38] == behind[5..37] && msg[38..] == behind[37..];
  }

  lemma Read24OfSlice(data: Bytes, at: nat)
    requires at + 3 <= |data|
    ensures Read24(data[at..at + 3], 0) == Read24(data, at)
  {
  }

  lemma ReadPrint(msg: Bytes)
    requires ReadHello(msg).Some?
    ensures Framed(ReadHello(msg).value) && Print(ReadHello(msg).value) == msg
  {
    ReadPutTail(msg[6..38], msg[38..]);
    Put24OfRead(msg, 1);
    HeadPieces(msg);
  }

  lemma HeadPieces(msg: Bytes)
    requires 38 <= |msg|
    ensures [msg[0]] + (msg[1..4] + (msg[4..6] + (msg[6..38] + msg[38..]))) == msg
  {
    SliceThenRest(msg, 6, 38);
    SliceThenRest(msg, 4, 6);
    SliceThenRest(msg, 1, 4);
    assert [msg[0]] + msg[1..] == msg;
  }

  function Report(h: Hello): Info
    requires Accepted(h)
  {
    Info(h.cipher, Word(Lookup(h.extensions, KEY_SHARE).value, 0), Kinds(h.extensions))
  }

  /** The audit's answer for a record; every failed assertion, index or key error is `None`. */
  function Parse(record: Bytes): Option<Info>
  {
    if |record| < 6 || record[0] != 0x16 then None
    else
      var h := ReadHello(record[5..]);
      if h.None? || !Accepted(h.value) then None else Some(Report(h.value))
  }

  /** Every acceptable hello, behind any record header of type 0x16, is reported as it is. */
  lemma PrintedIsAccepted(header: Bytes, h: Hello)
    requires |header| == 5 && header[0] == 0x16 && Framed(h) && Accepted(h)
    ensures Parse(header + Print(h)) == Some(Report(h))
  {
    assert (header + Print(h))[5..] == Print(h);
    PrintRead(h);
  }

  /** Nothing else is accepted: an accepted record is a printed hello with no byte left over. */
  lemma AcceptedIsPrinted(record: Bytes) returns (h: Hello)
    requires Parse(record).Some?
    ensures Framed(h) && Accepted(h) && record[5..] == Print(h) && Parse(record) == Some(Report(h))
  {
    h := ReadHello(record[5..]).value;
    ReadPrint(record[5..]);
  }

  lemma TailOfMessage(msg: Bytes)
    requires |msg| >= 39
    ensures ReadTail(msg[6..38], msg[38..])
         == var at := 39 + (msg[38] as int);
            if at + 5 > |msg| || msg[at + 2] != 0 || at + 5 + Word(msg, at + 3) != |msg| then None
            else
              var exts := ReadExtensions(msg[at + 5..], []);
              if exts.None? then None else Some(Hello(msg[6..38], msg[39..at], Word(msg, at), exts.value))
  {
    hide Word, ReadExtensions;
    var data, at := msg[38..], 39 + (msg[38] as int);
    assert msg[38..|msg|] == data;
    if at + 5 <= |msg| {
      WordOfSlice(msg, 38, |msg|, at - 38);
      WordOfSlice(msg, 38, |msg|, at - 35);
      assert data[1..at - 38] == msg[39..at] && data[at - 33..] == msg[at + 5..];
    }
  }

  /** The audit's walk over the message; indexing past the end fails like an assertion does. */
  method ReadMessage(msg: Bytes) returns (h: Option<Hello>)
    ensures h == ReadHello(msg)
  {
    hide Word, ReadExtensions, ReadTail, Read24;
    if |msg| < 4 || msg[0] != 2 || Read24(msg, 1) != |msg| - 4 {
      return None;
    }
    if |msg| <= 38 || msg[4..6] != [3, 3] {
      return None;
    }
    var offset := 39 + (msg[38] as int);
    TailOfMessage(msg);
    if offset + 5 > |msg| || msg[offset + 2] != 0 {
      return None;
    }
    var cipher, length := Word(msg, offset), Word(msg, offset + 3);
    if offset + 5 + length != |msg| {
      return None;
    }
    var exts := ReadAll(msg, offset + 5);
    if exts.None? {
      return None;
    }
    return Some(Hello(msg[6..38], msg[39..offset], cipher, exts.value));
  }

  method ServerHelloInfo(record: Bytes) returns (info: Option<Info>)
    ensures info == Parse(record)
  {
    if |record| < 6 || record[0] != 0x16 {
      return None;
    }
    var h := ReadMessage(record[5..]);
    if h.None? || (h.value.cipher != 0x1301 && h.value.cipher != 0x1302) {
      return None;
    }
    var exts := h.value.extensions;
    if Lookup(exts, VERSION) != Some([3, 4]) || Lookup(exts, KEY_SHARE).None? {
      return None;
    }
    var share := Lookup(exts, KEY_SHARE).value;
    if !ShareOk(share) {
      return None;
    }
    return Some(Info(h.value.cipher, Word(share, 0), Kinds(exts)));
  }

  method ReadAll(msg: Bytes, start: nat) returns (exts: Option<seq<Extension>>)
    requires start <= |msg|
    ensures exts == ReadExtensions(msg[start..], [])
  {
    hide ReadExtensions, Word, Has;
    var offset, found := start, [];
    while offset < |msg|
      invariant start <= offset <= |msg|
      invariant ReadExtensions(msg[offset..], found) == ReadExtensions(msg[start..], [])
    {
      ReadShort(msg[offset..], found);
      if |msg| - offset < 4 {
        return None;
      }
      var kind, size := Word(msg, offset), Word(msg, offset + 2);
      ReadOne(msg, offset, found);
      if offset + 4 + size > |msg| || Has(found, kind) {
        return None;
      }
      found := found + [Extension(kind, msg[offset + 4..offset + 4 + size])];
      offset := offset + 4 + size;
    }
    ReadShort(msg[offset..], found);
    return Some(found);
  }

  lemma ReadShort(data: Bytes, seen: seq<Extension>)
    ensures data == [] ==> ReadExtensions(data, seen) == Some(seen)
    ensures 0 < |data| < 4 ==> ReadExtensions(data, seen) == None
  {
  }
}
