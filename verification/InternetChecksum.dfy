/**
 The Internet checksum (RFC 1071) as the packet builders compute it, the headers they patch with
 it, and what a receiver that recomputes it finds.
 */
module InternetChecksum {
  import opened Bytes
  import opened Permutations

  // ---- the sum and its folding ----

  /** The sum of the big-endian words, an odd last byte being padded with zero. */
  function Sum(data: Bytes): nat
  {
    if data == [] then 0
    else if |data| == 1 then data[0] * 256
    else Word(data, 0) + Sum(data[2..])
  }

  /** The value between 1 and 65535 that is congruent to `n`, except that zero stays zero. */
  function Residue(n: nat): (r: U16)
  {
    if n == 0 then 0 else 1 + (n - 1) % 65535
  }

  function Checksum(data: Bytes): U16
  {
    65535 - Residue(Sum(data))
  }

  /** One turn of the folding loop keeps the value modulo 65535, and keeps it from vanishing. */
  lemma FoldStep(n: nat)
    requires n > 65535
    ensures n % 65536 + n / 65536 < n
    ensures Residue(n % 65536 + n / 65536) == Residue(n)
  {
    var high, low := n / 65536, n % 65536;
    var next := low + high;
    assert n - 1 == next - 1 + 65535 * high;
    AddMultiple(next - 1, high);
  }

  lemma AddMultiple(a: nat, k: nat)
    ensures (a + 65535 * k) % 65535 == a % 65535
  {
    var q, r := a / 65535, a % 65535;
    assert a + 65535 * k == 65535 * (q + k) + r;
    Remainder(65535 * (q + k) + r, q + k, r);
  }

  lemma Remainder(n: nat, q: nat, r: nat)
    requires n == 65535 * q + r && r < 65535
    ensures n % 65535 == r
  {
    assert 65535 * (n / 65535 - q) == r - n % 65535;
  }

  method ComputeChecksum(data: Bytes) returns (c: U16)
    ensures c == Checksum(data)
  {
    var value := Sum(data);
    while value > 65535
      invariant value >= 0 && Residue(value) == Residue(Sum(data))
    {
      FoldStep(value);
      value := value % 65536 + value / 65536;
    }
    return 65535 - value;
  }

  // ---- what verification by recomputing accepts ----

  lemma VerifiesExactlyWhen(data: Bytes)
    ensures Checksum(data) == 0 <==> Sum(data) > 0 && Sum(data) % 65535 == 0
  {
    var n := Sum(data);
    if n > 0 {
      var q, r := (n - 1) / 65535, (n - 1) % 65535;
      assert n - 1 == 65535 * q + r;
      if r == 65534 {
        Remainder(n, q + 1, 0);
      } else {
        Remainder(n, q, r + 1);
      }
    }
  }

  function Patch(data: Bytes, at: nat, w: U16): (out: Bytes)
    requires at + 2 <= |data|
    ensures |out| == |data| && Word(out, at) == w
  {
    data[..at] + Put16(w) + data[at + 2..]
  }

  lemma {:induction false} SumOfPatch(data: Bytes, at: nat, w: U16)
    requires at % 2 == 0 && at + 2 <= |data|
    ensures Sum(Patch(data, at, w)) == Sum(data) - Word(data, at) + w
    decreases at
  {
    var out := Patch(data, at, w);
    if at == 0 {
      assert out[2..] == data[2..];
    } else {
      SumOfPatch(data[2..], at - 2, w);
      assert out[2..] == Patch(data[2..], at - 2, w);
      assert Word(out, 0) == Word(data, 0);
    }
  }

  /** Writing the checksum into its zeroed field makes the whole verify. */
  lemma PatchVerifies(data: Bytes, at: nat)
    requires at % 2 == 0 && at + 2 <= |data| && Word(data, at) == 0
    ensures Checksum(Patch(data, at, Checksum(data))) == 0
  {
    var out := Patch(data, at, Checksum(data));
    SumOfPatch(data, at, Checksum(data));
    VerifiesExactlyWhen(out);
    Complement(Sum(data));
  }

  /** Sending 65535 for a computed zero (section 8.1 of RFC 8200) verifies as well, and is never zero. */
  lemma PatchNonzeroVerifies(data: Bytes, at: nat)
    requires at % 2 == 0 && at + 2 <= |data| && Word(data, at) == 0
    ensures Nonzero(Checksum(data)) != 0 && Checksum(Patch(data, at, Nonzero(Checksum(data)))) == 0
  {
    var out := Patch(data, at, Nonzero(Checksum(data)));
    SumOfPatch(data, at, Nonzero(Checksum(data)));
    VerifiesExactlyWhen(out);
    Complement(Sum(data));
    if Checksum(data) == 0 {
      VerifiesExactlyWhen(data);
      AddMultiple(Sum(data), 1);
    }
  }

  function Nonzero(c: U16): U16
  {
    if c == 0 then 65535 else c
  }

  lemma Complement(n: nat)
    ensures n + 65535 - Residue(n) > 0 && (n + 65535 - Residue(n)) % 65535 == 0
  {
    if n > 0 {
      var q := (n - 1) / 65535;
      assert n == 65535 * q + Residue(n);
      Remainder(n + 65535 - Residue(n), q + 1, 0);
    }
  }

  /**
   Changing one aligned word of data that verifies goes unnoticed exactly when the new word is
   congruent to the old one, that is the same or 0 for 65535 or the reverse, and something is left.
   */
  lemma ChangeUnnoticedExactlyWhen(data: Bytes, at: nat, w: U16)
    requires at % 2 == 0 && at + 2 <= |data| && Checksum(data) == 0
    ensures Checksum(Patch(data, at, w)) == 0 <==>
      (w == Word(data, at) || {w, Word(data, at)} == {0, 65535}) && Sum(Patch(data, at, w)) > 0
  {
    var out, old_ := Patch(data, at, w), Word(data, at);
    SumOfPatch(data, at, w);
    VerifiesExactlyWhen(data);
    VerifiesExactlyWhen(out);
    var q := Sum(data) / 65535;
    assert Sum(data) == 65535 * q;
    if Sum(out) % 65535 == 0 {
      var p := Sum(out) / 65535;
      assert Sum(out) == 65535 * p;
      assert w - old_ == 65535 * (p - q);
      assert p - q == -1 || p - q == 0 || p - q == 1;
    } else if w == 65535 && old_ == 0 {
      Remainder(Sum(out), q + 1, 0);
    } else if w == 0 && old_ == 65535 {
      Remainder(Sum(out), q - 1, 0);
    }
  }

  // ---- word order ----

  function Words(data: Bytes): seq<U16>
  {
    if data == [] then []
    else if |data| == 1 then var high: int := data[0]; [high * 256]
    else [Word(data, 0)] + Words(data[2..])
  }

  function Total(ws: seq<U16>): nat
  {
    if ws == [] then 0 else ws[0] + Total(ws[1..])
  }

  lemma {:induction false} SumIsTotal(data: Bytes)
    ensures Sum(data) == Total(Words(data))
    decreases |data|
  {
    if |data| > 1 {
      SumIsTotal(data[2..]);
    }
  }

  lemma {:induction false} TotalConcat(a: seq<U16>, b: seq<U16>)
    ensures Total(a + b) == Total(a) + Total(b)
  {
    if a == [] {
      assert a + b == b;
    } else {
      TotalConcat(a[1..], b);
      assert (a + b)[1..] == a[1..] + b;
    }
  }

  lemma TotalTakeOut(ws: seq<U16>, i: nat)
    requires i < |ws|
    ensures Total(ws) == ws[i] + Total(ws[..i] + ws[i + 1..])
  {
    var front, back := ws[..i], ws[i + 1..];
    assert ws == front + ([ws[i]] + back);
    TotalConcat(front, back);
    TotalConcat(front, [ws[i]] + back);
  }

  lemma {:induction false} TotalOfPermuted(a: seq<U16>, b: seq<U16>)
    requires multiset(a) == multiset(b)
    ensures Total(a) == Total(b)
    decreases |a|
  {
    SameSize(a, b);
    if a != [] {
      var i := FindFirst(a, b);
      TotalTakeOut(b, i);
      TotalOfPermuted(a[1..], b[..i] + b[i + 1..]);
    }
  }

  /** The order of the words does not matter. */
  lemma OrderIgnored(a: Bytes, b: Bytes)
    requires multiset(Words(a)) == multiset(Words(b))
    ensures Checksum(a) == Checksum(b)
  {
    SumIsTotal(a);
    SumIsTotal(b);
    TotalOfPermuted(Words(a), Words(b));
  }
}
