/** Embedding an IPv4 address in an IPv6 prefix of 96 bits (section 2.2 of RFC 6052). */
module Nat64 {
  import opened Bytes

  /** The network address 2001:db8:29:ffff:: as a number. */
  const PREFIX: nat := 0x2001_0db8_0029_ffff_0000_0000_0000_0000

  function Pow(base: nat, k: nat): nat
  {
    if k == 0 then 1 else base * Pow(base, k - 1)
  }

  /** Bitwise or. */
  function BitOr(a: nat, b: nat): nat
    decreases a + b
  {
    if a == 0 && b == 0 then 0
    else 2 * BitOr(a / 2, b / 2) + if a % 2 == 1 || b % 2 == 1 then 1 else 0
  }

  /** `n` in `size` bytes, most significant first. */
  function PutBig(n: nat, size: nat): (out: Bytes)
    ensures |out| == size
    decreases size
  {
    if size == 0 then [] else PutBig(n / 256, size - 1) + [n % 256]
  }

  lemma {:induction false} OrNothing(a: nat)
    ensures BitOr(a, 0) == a
    decreases a
  {
    if a != 0 {
      OrNothing(a / 2);
    }
  }

  /** Bits above position `k` and bits below it do not meet. */
  lemma {:induction false} OrIsSum(high: nat, low: nat, k: nat)
    requires low < Pow(2, k)
    ensures BitOr(high * Pow(2, k), low) == high * Pow(2, k) + low
    decreases k
  {
    if k == 0 {
      OrNothing(high);
    } else {
      var half := high * Pow(2, k - 1);
      assert high * Pow(2, k) == 2 * half;
      OrIsSum(high, low / 2, k - 1);
    }
  }

  lemma {:induction false} PutBigParts(high: nat, low: nat, a: nat, b: nat)
    requires low < Pow(256, b)
    ensures PutBig(high * Pow(256, b) + low, a + b) == PutBig(high, a) + PutBig(low, b)
    decreases b
  {
    if b == 0 {
      assert PutBig(high, a) + [] == PutBig(high, a);
    } else {
      var n, power := high * Pow(256, b) + low, high * Pow(256, b - 1);
      assert n == 256 * power + low;
      assert n / 256 == power + low / 256 && n % 256 == low % 256;
      PutBigParts(high, low / 256, a, b - 1);
      ConcatAssoc(PutBig(high, a), PutBig(low / 256, b - 1), [low % 256]);
    }
  }

  /** The address as the DNS64 server puts it in an answer. */
  function Synthesize(v4: U32): (v6: Bytes)
    ensures |v6| == 16
  {
    PutBig(BitOr(PREFIX, v4), 16)
  }

  lemma Powers()
    ensures Pow(2, 32) == 0x1_0000_0000 && Pow(256, 4) == 0x1_0000_0000
  {
    assert Pow(2, 4) == 16;
    assert Pow(2, 8) == 256;
    assert Pow(2, 12) == 4096;
    assert Pow(2, 16) == 0x1_0000;
    assert Pow(2, 20) == 0x10_0000;
    assert Pow(2, 24) == 0x100_0000;
    assert Pow(2, 28) == 0x1000_0000;
    assert Pow(2, 32) == 0x1_0000_0000;
    assert Pow(256, 2) == 0x1_0000;
  }

  /**
   Or-ing the address into the prefix is adding it, the first twelve bytes are those of the
   prefix, and the last four are the IPv4 address.
   */
  lemma SynthesizeEmbeds(v4: U32)
    ensures BitOr(PREFIX, v4) == PREFIX + v4
    ensures Synthesize(v4)[..12] == PutBig(PREFIX, 16)[..12]
    ensures Synthesize(v4)[12..] == Put32(v4) && Long(Synthesize(v4), 12) == v4
  {
    Powers();
    var high := PREFIX / 0x1_0000_0000;
    assert high * Pow(2, 32) == PREFIX && high * Pow(256, 4) == PREFIX;
    OrIsSum(high, v4, 32);
    PutBigParts(high, v4, 12, 4);
    PutBigParts(high, 0, 12, 4);
    FourBytes(v4);
  }

  lemma FourBytes(n: U32)
    ensures PutBig(n, 4) == Put32(n)
  {
    assert PutBig(n, 4) == PutBig(n / 256 / 256, 2) + [n / 256 % 256] + [n % 256];
    assert PutBig(n / 256 / 256, 2) == [n / 256 / 256 / 256 % 256] + [n / 256 / 256 % 256];
    assert n / 0x1_0000 == n / 256 / 256 && n % 0x1_0000 / 256 == n / 256 % 256;
  }
}
