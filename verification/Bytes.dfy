/** Byte strings and the big-endian integers every wire format here is built from. */
module Bytes {

  type Byte = b: int | 0 <= b < 256

  type Bytes = seq<Byte>

  type U16 = n: int | 0 <= n < 0x1_0000

  type U32 = n: int | 0 <= n < 0x1_0000_0000

  datatype Option<+T> = None | Some(value: T) {
    function GetOr(default: T): T
    {
      if Some? then value else default
    }
  }

  /** The two bytes at `at`, most significant first. */
  function Word(data: Bytes, at: nat): (n: U16)
    requires at + 2 <= |data|
  {
    var high: int := data[at];
    high * 256 + data[at + 1]
  }

  function Long(data: Bytes, at: nat): (n: U32)
    requires at + 4 <= |data|
  {
    var high: int := Word(data, at);
    high * 0x1_0000 + Word(data, at + 2)
  }

  /** The inverse of `Word`: two bytes that read back as `n`, and the only two that do. */
  function Put16(n: U16): (out: Bytes)
    ensures |out| == 2 && Word(out, 0) == n
  {
    [n / 256, n % 256]
  }

  function Put32(n: U32): (out: Bytes)
    ensures |out| == 4 && Long(out, 0) == n
  {
    Put16(n / 0x1_0000) + Put16(n % 0x1_0000)
  }

  lemma Put16OfWord(data: Bytes, at: nat)
    requires at + 2 <= |data|
    ensures Put16(Word(data, at)) == data[at..at + 2]
  {
  }

  lemma Put32OfLong(data: Bytes, at: nat)
    requires at + 4 <= |data|
    ensures Put32(Long(data, at)) == data[at..at + 4]
  {
    Put16OfWord(data, at);
    Put16OfWord(data, at + 2);
    assert Long(data, at) / 0x1_0000 == Word(data, at) && Long(data, at) % 0x1_0000 == Word(data, at + 2);
    assert data[at..at + 4] == data[at..at + 2] + data[at + 2..at + 4];
  }

  /** Reading inside a slice is reading at the shifted position of the whole. */
  lemma WordOfSlice(data: Bytes, from: nat, to: nat, at: nat)
    requires from <= to <= |data| && at + 2 <= to - from
    ensures Word(data[from..to], at) == Word(data, from + at)
  {
  }

  lemma LongOfSlice(data: Bytes, from: nat, to: nat, at: nat)
    requires from <= to <= |data| && at + 4 <= to - from
    ensures Long(data[from..to], at) == Long(data, from + at)
  {
  }

  lemma ConcatAssoc<T>(a: seq<T>, b: seq<T>, c: seq<T>)
    ensures (a + b) + c == a + (b + c)
  {
  }

  lemma SliceThenRest<T>(s: seq<T>, i: nat, j: nat)
    requires i <= j <= |s|
    ensures s[i..j] + s[j..] == s[i..]
  {
  }

  function Flatten<T>(parts: seq<seq<T>>): seq<T>
  {
    if parts == [] then [] else parts[0] + Flatten(parts[1..])
  }

  lemma {:induction false} FlattenConcat<T>(a: seq<seq<T>>, b: seq<seq<T>>)
    ensures Flatten(a + b) == Flatten(a) + Flatten(b)
  {
    if a == [] {
      assert a + b == b;
    } else {
      FlattenConcat(a[1..], b);
      assert (a + b)[0] == a[0] && (a + b)[1..] == a[1..] + b;
      ConcatAssoc(a[0], Flatten(a[1..]), Flatten(b));
    }
  }
}
