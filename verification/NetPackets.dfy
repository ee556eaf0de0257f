/**
The packet as the engine holds it: a buffer with some room at the end, of which the first `dataLen`
bytes are the packet.  Everything is written in place.
*/
module NetPackets {
  import opened Wrappers
  import opened Net
  import opened Packets
  import opened Bits

  function Overwritten(s: seq<byte>, at: nat, data: seq<byte>): (r: seq<byte>)
    requires at + |data| <= |s|
    ensures |r| == |s|
    ensures forall i :: 0 <= i < |s| ==> r[i] == if at <= i < at + |data| then data[i - at] else s[i]
  {
    s[..at] + data + s[at + |data|..]
  }

  /** Writing right behind a known prefix extends it. */
  lemma Appended(s: seq<byte>, at: nat, data: seq<byte>)
    requires at + |data| <= |s|
    ensures Overwritten(s, at, data)[..at + |data|] == s[..at] + data
  {
  }

  /** `b << 4` in eight bits. */
  function HighNibble(b: byte): (r: byte)
    ensures r == b % 0x10 * 0x10
  {
    var low: int := b % 0x10;
    assert b * 0x10 == b / 0x10 * 0x100 + low * 0x10;
    b * 0x10 % 0x100
  }

  /** `ttl << 4 | ttl` in eight bits. */
  function BothTtls(ttl: byte): byte {
    OrBytes(HighNibble(ttl), ttl)
  }

  lemma BothTtlsOf(ttl: byte)
    requires ttl <= MAX_TTL
    ensures BothTtls(ttl) == ttl * 0x10 + ttl
  {
    assert HighNibble(ttl) == ttl * 0x10;
    OrNibbles(ttl, ttl);
  }

  lemma BothTtlsSet(p: Packet, ttl: byte)
    requires ttl <= MAX_TTL
    ensures Ttl(p[3 := BothTtls(ttl)]) == SourceTtl(p[3 := BothTtls(ttl)]) == ttl
  {
    var both: int, low: int := BothTtls(ttl), ttl;
    BothTtlsOf(ttl);
    assert both == low * 0x10 + low;
    assert both / 0x10 == low && both % 0x10 == low;
  }

  class NetPacket {
    const buffer: array<byte>
    var dataLen: nat

    ghost predicate Valid()
      reads this
    {
      HEAD_LEN <= dataLen <= buffer.Length
    }

    /** The packet held. */
    function View(): (p: Packet)
      requires Valid()
      reads this, buffer
      ensures |p| == dataLen
    {
      buffer[..dataLen]
    }

    /** The first `dataLen` bytes of a buffer. */
    constructor (dataLen: nat, buffer: array<byte>)
      requires HEAD_LEN <= dataLen <= buffer.Length
      ensures Valid() && this.buffer == buffer && this.dataLen == dataLen
    {
      this.buffer := buffer;
      this.dataLen := dataLen;
    }

    /** Keeps room at the end of the buffer for what encryption adds. */
    static method NewEncrypt(buffer: array<byte>) returns (p: Option<NetPacket>)
      ensures p.Some? <==> buffer.Length >= HEAD_LEN + ENCRYPTION_RESERVED
      ensures p.Some? ==> fresh(p.value) && p.value.Valid() && p.value.buffer == buffer
      ensures p.Some? ==> p.value.dataLen + ENCRYPTION_RESERVED == buffer.Length
    {
      if HEAD_LEN + ENCRYPTION_RESERVED > buffer.Length {
        return None;
      }
      var packet := new NetPacket(buffer.Length - ENCRYPTION_RESERVED, buffer);
      return Some(packet);
    }

    /** Copies `data` into the buffer. */
    method Write(at: nat, data: seq<byte>)
      requires at + |data| <= buffer.Length
      modifies buffer
      ensures buffer[..] == Overwritten(old(buffer[..]), at, data)
    {
      for i := 0 to |data|
        invariant forall j :: 0 <= j < buffer.Length ==>
          buffer[j] == if at <= j < at + i then data[j - at] else old(buffer[j])
      {
        buffer[at + i] := data[i];
      }
    }

    method SetFlag(flag: int, on: bool)
      requires Valid() && IsFlag(flag)
      modifies buffer
      ensures View() == WithFlag(old(View()), flag, on)
      ensures buffer[dataLen..] == old(buffer[dataLen..])
    {
      buffer[0] := FlagByte(buffer[0], flag, on);
    }

    method SetDefaultVersion()
      requires Valid()
      modifies buffer
      ensures View() == WithDefaultVersion(old(View()))
      ensures buffer[dataLen..] == old(buffer[dataLen..])
    {
      buffer[0] := buffer[0] / 0x10 * 0x10 + 2;
    }

    /** Sets both the first and the remaining TTL. */
    method FirstSetTtl(ttl: byte)
      requires Valid()
      modifies buffer
      ensures View() == old(View())[3 := BothTtls(ttl)]
      ensures ttl <= MAX_TTL ==> Ttl(View()) == SourceTtl(View()) == ttl
      ensures buffer[dataLen..] == old(buffer[dataLen..])
    {
      if ttl <= MAX_TTL {
        BothTtlsSet(View(), ttl);
      }
      buffer[3] := BothTtls(ttl);
    }

    /** Keeps the lower four bits of the new TTL. */
    method SetTtl(ttl: byte)
      requires Valid()
      modifies buffer
      ensures View() == WithTtl(old(View()), ttl % 0x10)
      ensures buffer[dataLen..] == old(buffer[dataLen..])
    {
      buffer[3] := buffer[3] / 0x10 * 0x10 + ttl % 0x10;
    }

    /** Takes one from the remaining TTL; a spent one wraps around. */
    method IncrTtl() returns (ttl: byte)
      requires Valid()
      modifies buffer
      ensures ttl == Lessened(Ttl(old(View())))
      ensures View() == WithTtl(old(View()), ttl % 0x10)
      ensures buffer[dataLen..] == old(buffer[dataLen..])
    {
      ttl := Lessened(buffer[3] % 0x10);
      SetTtl(ttl);
    }

    method SetProtocols(protocol: byte, transportProtocol: byte)
      requires Valid()
      modifies buffer
      ensures View() == old(View())[1 := protocol][2 := transportProtocol]
      ensures buffer[dataLen..] == old(buffer[dataLen..])
    {
      buffer[1], buffer[2] := protocol, transportProtocol;
    }

    method SetSource(ip: Ipv4Addr)
      requires Valid()
      modifies buffer
      ensures View() == Overwritten(old(View()), 4, Octets(ip))
      ensures buffer[dataLen..] == old(buffer[dataLen..])
    {
      buffer[4], buffer[5], buffer[6], buffer[7] := ip.o0, ip.o1, ip.o2, ip.o3;
    }

    method SetDestination(ip: Ipv4Addr)
      requires Valid()
      modifies buffer
      ensures View() == Overwritten(old(View()), 8, Octets(ip))
      ensures buffer[dataLen..] == old(buffer[dataLen..])
    {
      buffer[8], buffer[9], buffer[10], buffer[11] := ip.o0, ip.o1, ip.o2, ip.o3;
    }

    method SetDataLen(newLen: nat) returns (ok: bool)
      requires Valid()
      modifies this`dataLen
      ensures ok <==> HEAD_LEN <= newLen <= buffer.Length
      ensures dataLen == if ok then newLen else old(dataLen)
    {
      ok := HEAD_LEN <= newLen <= buffer.Length;
      if ok {
        dataLen := newLen;
      }
    }
  }
}
