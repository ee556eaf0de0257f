/**
The engine's packet: a 12-byte head and a payload at the front of a larger buffer.

    byte 0   flags e (0x80, encrypted), s (0x40, gateway), x (0x20, extension), then the version
    byte 1   protocol             byte 2   transport protocol
    byte 3   first TTL (high nibble), remaining TTL (low nibble)
    4..8     source               8..12    destination

Here a packet is the sequence of its valid bytes.
*/
module Packets {
  import opened Net

  const HEAD_LEN := 12
  const ENCRYPTED := 0x80
  const GATEWAY := 0x40
  const EXTENSION := 0x20
  const MAX_TTL := 15
  /** The room kept behind a packet that is to be encrypted. */
  const ENCRYPTION_RESERVED := 60

  /** A packet always has its whole head. */
  type Packet = p: seq<byte> | |p| >= HEAD_LEN witness seq(12, _ => 0)

  predicate IsFlag(flag: int) {
    flag == ENCRYPTED || flag == GATEWAY || flag == EXTENSION
  }

  predicate HasFlag(p: Packet, flag: int)
    requires IsFlag(flag)
  {
    p[0] / flag % 2 == 1
  }

  /** The first byte with one flag set or cleared. */
  function FlagByte(b: byte, flag: int, on: bool): byte
    requires IsFlag(flag)
  {
    if b / flag % 2 == 1 then (if on then b else b - flag) else if on then b + flag else b
  }

  function Version(p: Packet): byte {
    p[0] % 0x10
  }

  /** The first byte is its four leading bits and the version. */
  lemma BitsOfByte(b: byte)
    ensures b == 0x80 * (b / 0x80 % 2) + 0x40 * (b / 0x40 % 2) + 0x20 * (b / 0x20 % 2) + 0x10 * (b / 0x10 % 2) + b % 0x10
  {
  }

  lemma ByteOfBits(e: nat, g: nat, x: nat, r: nat, v: nat)
    requires e < 2 && g < 2 && x < 2 && r < 2 && v < 0x10
    ensures var b := 0x80 * e + 0x40 * g + 0x20 * x + 0x10 * r + v;
            b / 0x80 % 2 == e && b / 0x40 % 2 == g && b / 0x20 % 2 == x && b / 0x10 % 2 == r && b % 0x10 == v
  {
  }

  /** Setting or clearing a flag touches that flag alone. */
  lemma FlagByteBits(b: byte, flag: int, on: bool)
    requires IsFlag(flag)
    ensures var r := FlagByte(b, flag, on);
      && r / 0x80 % 2 == (if flag == 0x80 then if on then 1 else 0 else b / 0x80 % 2)
      && r / 0x40 % 2 == (if flag == 0x40 then if on then 1 else 0 else b / 0x40 % 2)
      && r / 0x20 % 2 == (if flag == 0x20 then if on then 1 else 0 else b / 0x20 % 2)
      && r / 0x10 % 2 == b / 0x10 % 2
      && r % 0x10 == b % 0x10
  {
    var e, g, x, r, v := b / 0x80 % 2, b / 0x40 % 2, b / 0x20 % 2, b / 0x10 % 2, b % 0x10;
    var bit := if on then 1 else 0;
    BitsOfByte(b);
    if flag == 0x80 {
      ByteOfBits(bit, g, x, r, v);
    } else if flag == 0x40 {
      ByteOfBits(e, bit, x, r, v);
    } else {
      ByteOfBits(e, g, bit, r, v);
    }
  }

  /** The packet with one flag set or cleared; its other flags, the fourth leading bit and the version
      stay. */
  function WithFlag(p: Packet, flag: int, on: bool): (r: Packet)
    requires IsFlag(flag)
    ensures |r| == |p| && r[1..] == p[1..]
    ensures Version(r) == Version(p) && r[0] / 0x10 % 2 == p[0] / 0x10 % 2
    ensures HasFlag(r, flag) == on
    ensures forall other :: IsFlag(other) && other != flag ==> HasFlag(r, other) == HasFlag(p, other)
  {
    FlagByteBits(p[0], flag, on);
    p[0 := FlagByte(p[0], flag, on)]
  }

  /** Keeps the flags. */
  function WithDefaultVersion(p: Packet): (r: Packet)
    ensures |r| == |p| && r[1..] == p[1..]
    ensures Version(r) == 2 && r[0] / 0x10 == p[0] / 0x10
  {
    p[0 := p[0] / 0x10 * 0x10 + 2]
  }

  function Ttl(p: Packet): (ttl: byte)
    ensures ttl <= MAX_TTL
  {
    p[3] % 0x10
  }

  function SourceTtl(p: Packet): (ttl: byte)
    ensures ttl <= MAX_TTL
  {
    p[3] / 0x10
  }

  function WithTtl(p: Packet, ttl: byte): (r: Packet)
    requires ttl <= MAX_TTL
    ensures Ttl(r) == ttl && SourceTtl(r) == SourceTtl(p)
    ensures |r| == |p| && r[..3] == p[..3] && r[4..] == p[4..]
  {
    p[3 := p[3] / 0x10 * 0x10 + ttl]
  }

  /** One hop less, as an unsigned byte: a spent TTL wraps around. */
  function Lessened(ttl: byte): (r: byte)
    ensures (r + 1) % 0x100 == ttl
  {
    if ttl == 0 then 0xff else ttl - 1
  }

  function Source(p: Packet): (ip: Ipv4Addr)
    ensures Octets(ip) == p[4..8]
  {
    Ipv4Addr(p[4], p[5], p[6], p[7])
  }

  function Destination(p: Packet): (ip: Ipv4Addr)
    ensures Octets(ip) == p[8..12]
  {
    Ipv4Addr(p[8], p[9], p[10], p[11])
  }

  function Head(p: Packet): seq<byte> {
    p[..HEAD_LEN]
  }

  function Payload(p: Packet): seq<byte> {
    p[HEAD_LEN..]
  }

  /** The part of the head that no relay may change: it goes into nonces and fingers. */
  function HeadTag(p: Packet): (tag: seq<byte>)
    ensures |tag| == 12
  {
    p[4..8] + p[8..12] + [p[1], p[2], if HasFlag(p, GATEWAY) then 1 else 0, SourceTtl(p)]
  }

  /** Addresses are equal if their octets are. */
  lemma SameOctets(a: Ipv4Addr, b: Ipv4Addr)
    requires Octets(a) == Octets(b)
    ensures a == b
  {
  }

  /** Both TTLs share byte 3, the first one in the high half. */
  lemma TtlByte(p: Packet)
    ensures p[3] == SourceTtl(p) * 0x10 + Ttl(p)
  {
  }

  /** Two packets have the same tag exactly if they agree on both protocols, both addresses, the gateway
      flag and the first TTL: no more enters it, and no less. */
  lemma SameTagExactly(p: Packet, q: Packet)
    ensures HeadTag(p) == HeadTag(q)
      <==> && p[1..3] == q[1..3] && p[4..12] == q[4..12]
           && p[0] / 0x40 % 2 == q[0] / 0x40 % 2 && p[3] / 0x10 == q[3] / 0x10
  {
    var s, t := HeadTag(p), HeadTag(q);
    assert p[4..12] == s[..8] && q[4..12] == t[..8];
    assert s == p[4..12] + s[8..] && t == q[4..12] + t[8..];
    assert s[8] == p[1] == p[1..3][0] && s[9] == p[2] == p[1..3][1] && s[11] == p[3] / 0x10;
    assert t[8] == q[1] == q[1..3][0] && t[9] == q[2] == q[1..3][1] && t[11] == q[3] / 0x10;
    assert s[10] == p[0] / 0x40 % 2 && t[10] == q[0] / 0x40 % 2;
  }

  /** Neither the remaining TTL, nor the encryption flag, nor the payload enters the tag. */
  lemma HeadTagIgnores(p: Packet, q: Packet, ttl: byte, encrypted: bool)
    requires ttl <= MAX_TTL
    requires Head(q) == Head(WithFlag(WithTtl(p, ttl), ENCRYPTED, encrypted))
    ensures HeadTag(q) == HeadTag(p)
  {
    var r := WithFlag(WithTtl(p, ttl), ENCRYPTED, encrypted);
    assert forall i :: 0 <= i < HEAD_LEN ==> q[i] == Head(q)[i] == Head(r)[i] == r[i];
    assert forall i :: 4 <= i < |p| ==> r[i] == p[i];
    assert q[4..8] == p[4..8] && q[8..12] == p[8..12];
  }
}
