/** The UDP packets the lab tools build by hand, checked as a receiver checks them. */
module Packets {
  import opened Bytes
  import opened InternetChecksum

  const UDP_PAYLOAD: Bytes := [81, 49, 54, 85, 80, 33]

  /** An IPv4 header for UDP without options, its checksum field zero. */
  function Ip4Header(total: U16, ident: U16, source: Bytes, target: Bytes): (h: Bytes)
    requires |source| == 4 && |target| == 4
    ensures |h| == 20 && Word(h, 2) == total && Word(h, 10) == 0 && h[12..16] == source && h[16..] == target
  {
    [0x45, 0] + Put16(total) + Put16(ident) + Put16(0) + [64, 17] + Put16(0) + source + target
  }

  function UdpHeader(from: U16, target: U16, length: U16): (h: Bytes)
    ensures |h| == 8 && Word(h, 4) == length && Word(h, 6) == 0
  {
    Put16(from) + Put16(target) + Put16(length) + Put16(0)
  }

  /** What the IPv6 checksum covers besides the datagram (section 8.1 of RFC 8200). */
  function Pseudo(source: Bytes, target: Bytes, length: U32): (p: Bytes)
    requires |source| == 16 && |target| == 16
    ensures |p| == 40
  {
    source + target + (Put32(length) + [0, 0, 0, 17])
  }

  /** Overwrites the two bytes at `at` with the checksum of the buffer. */
  method WriteChecksum(buffer: array<Byte>, at: nat)
    requires at % 2 == 0 && at + 2 <= buffer.Length && Word(buffer[..], at) == 0
    modifies buffer
    ensures buffer[..] == Patch(old(buffer[..]), at, Checksum(old(buffer[..])))
    ensures Checksum(buffer[..]) == 0
  {
    var c := ComputeChecksum(buffer[..]);
    PatchVerifies(buffer[..], at);
    buffer[at], buffer[at + 1] := c / 256, c % 256;
  }

  /** A header that verifies and differs from the plain one in the checksum field only. */
  method BuildIp4Header(total: U16, ident: U16, source: Bytes, target: Bytes) returns (h: Bytes)
    requires |source| == 4 && |target| == 4
    ensures |h| == 20 && Checksum(h) == 0
    ensures h[..10] == Ip4Header(total, ident, source, target)[..10]
    ensures h[12..] == source + target
  {
    var plain := Ip4Header(total, ident, source, target);
    var buffer := new Byte[20](i requires 0 <= i < 20 => plain[i]);
    assert buffer[..] == plain;
    WriteChecksum(buffer, 10);
    h := buffer[..];
    PatchKeeps(plain, 10, Checksum(plain));
    Ip4HeaderEnds(total, ident, source, target);
  }

  lemma PatchKeeps(data: Bytes, at: nat, w: U16)
    requires at + 2 <= |data|
    ensures Patch(data, at, w)[..at] == data[..at] && Patch(data, at, w)[at + 2..] == data[at + 2..]
  {
  }

  lemma Ip4HeaderEnds(total: U16, ident: U16, source: Bytes, target: Bytes)
    requires |source| == 4 && |target| == 4
    ensures Ip4Header(total, ident, source, target)[12..] == source + target
  {
  }

  method BuildPacket4(source: Bytes, target: Bytes) returns (p: Bytes)
    requires |source| == 4 && |target| == 4
    ensures |p| == 34 && Checksum(p[..20]) == 0 && Word(p, 2) == |p|
    ensures p[12..16] == source && p[16..20] == target
    ensures p[20..28] == UdpHeader(35000, 25816, |p| - 20) && p[28..] == UDP_PAYLOAD
  {
    var h := BuildIp4Header(34, 0, source, target);
    var udp := UdpHeader(35000, 25816, 14);
    WordOfSlice(h, 0, 10, 2);
    WordOfSlice(Ip4Header(34, 0, source, target), 0, 10, 2);
    p := h + (udp + UDP_PAYLOAD);
    assert p[..20] == h && p[20..] == udp + UDP_PAYLOAD;
    assert p[12..16] == h[12..][..4] && p[16..20] == h[12..][4..];
    assert p[20..28] == udp && p[28..] == UDP_PAYLOAD;
  }

  /** A receiver that rebuilds the pseudo-header from the packet's own fields accepts it. */
  method BuildPacket6(source: Bytes, target: Bytes) returns (p: Bytes)
    requires |source| == 16 && |target| == 16
    ensures |p| == 54 && Word(p, 4) == |p| - 40 && p[8..24] == source && p[24..40] == target
    ensures Checksum(Pseudo(p[8..24], p[24..40], Word(p, 4)) + p[40..]) == 0 && Word(p, 46) != 0
  {
    var udp := UdpHeader(35000, 25816, 14) + UDP_PAYLOAD;
    var pseudo := Pseudo(source, target, 14);
    WordOfSlice(udp, 0, 8, 6);
    ZeroField(pseudo, udp);
    var c := ComputeChecksum(pseudo + udp);
    var sealed := Patch(udp, 6, Nonzero(c));
    PatchNonzeroVerifies(pseudo + udp, 46);
    PatchBehind(pseudo, udp, 6, Nonzero(c));
    var h := Put32(0x6000_0000) + Put16(14) + [17, 64];
    p := h + source + target + sealed;
    Layout(h, source, target, sealed);
  }

  lemma ZeroField(pseudo: Bytes, udp: Bytes)
    requires |pseudo| == 40 && |udp| == 14
    ensures Word(pseudo + udp, 46) == Word(udp, 6)
  {
  }

  lemma PatchBehind(front: Bytes, data: Bytes, at: nat, w: U16)
    requires at + 2 <= |data|
    ensures front + Patch(data, at, w) == Patch(front + data, |front| + at, w)
  {
  }

  lemma Layout(h: Bytes, source: Bytes, target: Bytes, rest: Bytes)
    requires |h| == 8 && |source| == 16 && |target| == 16 && |rest| == 14
    ensures (h + source + target + rest)[8..24] == source && (h + source + target + rest)[24..40] == target
    ensures (h + source + target + rest)[40..] == rest && Word(h + source + target + rest, 4) == Word(h, 4)
    ensures Word(h + source + target + rest, 46) == Word(rest, 6)
  {
  }
}
