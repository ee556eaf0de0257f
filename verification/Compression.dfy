/**
Payload compression and the extension tail that announces it.

A compressed packet has the extension flag set and ends in four bytes: the algorithm, two zeros and
the type of the tail, which is zero as well.  The compressors themselves are functions with laws.
*/
module Compression {
  import opened Wrappers
  import opened Net
  import opened Packets
  import opened NetPackets

  const TAIL_LEN := 4
  /** Shorter packets are not worth compressing. */
  const MIN_COMPRESSED := 128
  /** Compression has to save more than this, tail included. */
  const MIN_SAVED := 16

  datatype Algorithm = Lz4 | Zstd {
    function Byte(): byte {
      if Lz4? then 1 else 2
    }
  }

  function AlgorithmOf(b: byte): Option<Algorithm> {
    if b == 1 then Some(Lz4) else if b == 2 then Some(Zstd) else None
  }

  /** Compression into limited room may fail for any reason; decompression fails only for lack of
      room, or on input that compression did not produce. */
  datatype Codec = Codec(
    compress: (Algorithm, seq<byte>, nat) -> Option<seq<byte>>,
    decompress: (Algorithm, seq<byte>, nat) -> Option<seq<byte>>)
  {
    ghost predicate Lawful() {
      && (forall a, x, room :: compress(a, x, room).Some? ==> |compress(a, x, room).value| <= room)
      && (forall a, y, room :: decompress(a, y, room).Some? ==> |decompress(a, y, room).value| <= room)
      && forall a, x, room, room' :: compress(a, x, room).Some? ==>
           decompress(a, compress(a, x, room).value, room') == if |x| <= room' then Some(x) else None
    }
  }

  // ----- what the operations compute

  function Tail(a: Algorithm): (t: seq<byte>)
    ensures |t| == TAIL_LEN
  {
    [a.Byte(), 0, 0, 0]
  }

  /** The packet with the extension flag set and a tail behind the payload. */
  function Extended(p: Packet, a: Algorithm): Packet {
    WithFlag(p, EXTENSION, true) + Tail(a)
  }

  datatype Outcome = Failed | Kept | Shrunk(packet: Packet)

  /** Compressing into a buffer `out`, whose head stays but for the extension flag. */
  function Compressed(k: Codec, a: Option<Algorithm>, p: Packet, out: seq<byte>): (r: Outcome)
    requires k.Lawful() && |out| >= HEAD_LEN
    ensures r.Shrunk? ==> |r.packet| < |p| - MIN_SAVED && |r.packet| <= |out|
  {
    if a == None || |p| < MIN_COMPRESSED then Kept
    else
      var z := k.compress(a.value, Payload(p), |out| - HEAD_LEN);
      if z.None? || HEAD_LEN + |z.value| + TAIL_LEN > |out| then Failed
      else
        var q := Extended(Head(out) + z.value, a.value);
        if |q| >= |p| - MIN_SAVED then Kept else Shrunk(q)
  }

  /** Takes a tail off again: the packet before it was extended, and the algorithm byte. */
  function SplitTail(p: Packet): Option<(Packet, byte)> {
    if !HasFlag(p, EXTENSION) || |p| < HEAD_LEN + TAIL_LEN || p[|p| - 1] != 0 then None
    else Some((WithFlag(p[..|p| - TAIL_LEN], EXTENSION, false), p[|p| - TAIL_LEN]))
  }

  function Decompressed(k: Codec, p: Packet, room: nat): Option<Packet> {
    var split := SplitTail(p);
    if split.None? then None
    else
      var (q, b) := split.value;
      if AlgorithmOf(b).None? then None
      else
        var x := k.decompress(AlgorithmOf(b).value, Payload(q), room);
        if x.None? then None else Some(Head(q) + x.value)
  }

  // ----- their properties

  lemma SplitExtended(p: Packet, a: Algorithm)
    ensures SplitTail(Extended(p, a)) == Some((WithFlag(p, EXTENSION, false), a.Byte()))
    ensures AlgorithmOf(a.Byte()) == Some(a)
  {
    var e := Extended(p, a);
    assert e[..|e| - TAIL_LEN] == WithFlag(p, EXTENSION, true);
    assert WithFlag(WithFlag(p, EXTENSION, true), EXTENSION, false) == WithFlag(p, EXTENSION, false);
  }

  /** What was shrunk comes out whole again if there is room for it, under whatever head it arrives
      with, and is refused otherwise. */
  lemma DecompressUndoesCompress(k: Codec, a: Option<Algorithm>, p: Packet, out: seq<byte>, q: Packet, room: nat)
    requires k.Lawful() && |out| >= HEAD_LEN
    requires Compressed(k, a, p, out).Shrunk?
    requires HasFlag(q, EXTENSION) && Payload(q) == Payload(Compressed(k, a, p, out).packet)
    ensures Decompressed(k, q, room)
            == if |Payload(p)| <= room then Some(Head(WithFlag(q, EXTENSION, false)) + Payload(p)) else None
  {
    var z := k.compress(a.value, Payload(p), |out| - HEAD_LEN).value;
    assert Payload(q) == Payload(Extended(Head(out) + z, a.value)) == z + Tail(a.value);
    var small: Packet := Head(q) + z;
    assert q == small + Tail(a.value);
    assert q == Extended(small, a.value);
    SplitExtended(small, a.value);
    assert Payload(WithFlag(small, EXTENSION, false)) == z;
    assert Head(WithFlag(small, EXTENSION, false)) == Head(WithFlag(q, EXTENSION, false));
  }

  /** The number of an algorithm in a tail. */
  ghost predicate IsNumber(a: Algorithm, b: byte) {
    b == match a case Lz4 => 1 case Zstd => 2
  }

  /** Packets of 128 bytes or more are compressed.  That fails if the compressor does or if head, data and
      tail do not fit `out`; the result is used exactly if it saves more than 16 bytes, and then consists of
      the head of `out` with the extension flag, the data, and the four bytes of the tail. */
  lemma CompressedExactly(k: Codec, a: Option<Algorithm>, p: Packet, out: seq<byte>)
    requires k.Lawful() && |out| >= HEAD_LEN
    ensures var r := Compressed(k, a, p, out);
      if a.None? || |p| < 128 then r.Kept?
      else
        var z := k.compress(a.value, p[12..], |out| - 12);
        && (r.Failed? <==> z.None? || |z.value| + 16 > |out|)
        && (r.Shrunk? <==> z.Some? && |z.value| + 16 <= |out| && |z.value| + 32 < |p|)
        && (r.Shrunk? ==>
              && |r.packet| == |z.value| + 16
              && r.packet[..12] == WithFlag(out, EXTENSION, true)[..12]
              && r.packet[12..|r.packet| - 4] == z.value
              && IsNumber(a.value, r.packet[|r.packet| - 4]) && r.packet[|r.packet| - 3..] == [0, 0, 0])
  {
    if a.Some? && |p| >= 128 {
      var z := k.compress(a.value, Payload(p), |out| - HEAD_LEN);
      if z.Some? {
        var q := Extended(Head(out) + z.value, a.value);
        assert q[..12] == WithFlag(out, EXTENSION, true)[..12];
        assert q[12..|q| - 4] == z.value;
        assert q[|q| - 3..] == [0, 0, 0];
      }
    }
  }

  /** A packet is decompressed exactly if it has the extension flag, a tail of type zero with the number of
      an algorithm, and data that the algorithm accepts; it keeps its head but for the flag. */
  lemma DecompressedExactly(k: Codec, p: Packet, room: nat)
    ensures var r := Decompressed(k, p, room);
      if |p| < 16 then r.None?
      else
        var b, data := p[|p| - 4], p[12..|p| - 4];
        && (r.Some? <==>
              && p[0] / 0x20 % 2 == 1 && p[|p| - 1] == 0
              && exists a :: IsNumber(a, b) && k.decompress(a, data, room).Some?)
        && (r.Some? ==> forall a :: IsNumber(a, b) ==>
              && k.decompress(a, data, room).Some?
              && r.value == WithFlag(p, EXTENSION, false)[..12] + k.decompress(a, data, room).value)
  {
    var b := if |p| >= 16 then p[|p| - 4] else 0;
    assert forall a :: IsNumber(a, b) <==> AlgorithmOf(b) == Some(a);
    if |p| >= 16 {
      var q := WithFlag(p[..|p| - 4], EXTENSION, false);
      assert Payload(q) == p[12..|p| - 4];
      assert Head(q) == WithFlag(p, EXTENSION, false)[..12];
    }
  }

  // ----- the laws can be met by codecs that do compress

  function Zeros(n: nat): (z: seq<byte>)
    ensures |z| == n
  {
    seq(n, _ => 0)
  }

  /** Compresses nothing but runs of zeros, to their length in one byte. */
  function RunLength(): Codec {
    Codec(
      (a, x, room) => if room > 0 && |x| < 0x100 && x == Zeros(|x|) then Some([|x|]) else None,
      (a, y, room) => if |y| == 1 && y[0] <= room then Some(Zeros(y[0])) else None)
  }

  lemma RunLengthIsLawful()
    ensures RunLength().Lawful()
  {
    var k := RunLength();
    forall a: Algorithm, x: seq<byte>, room: nat, room': nat | k.compress(a, x, room).Some?
      ensures k.decompress(a, k.compress(a, x, room).value, room') == if |x| <= room' then Some(x) else None
    {
      assert k.compress(a, x, room).value == [|x|];
    }
    forall a: Algorithm, y: seq<byte>, room: nat | k.decompress(a, y, room).Some?
      ensures |k.decompress(a, y, room).value| <= room
    {
      assert k.decompress(a, y, room).value == Zeros(y[0]);
    }
  }

  lemma SomeCodecCompresses()
    ensures RunLength().Lawful()
    ensures exists p: Packet, out :: |out| >= HEAD_LEN && Compressed(RunLength(), Some(Lz4), p, out).Shrunk?
  {
    RunLengthIsLawful();
    var p, out := Zeros(212), Zeros(212);
    assert Payload(p) == Zeros(200);
    assert RunLength().compress(Lz4, Payload(p), 200) == Some([200]);
    assert Compressed(RunLength(), Some(Lz4), p, out).Shrunk?;
  }

  // ----- the operations on packets in place

  /** Extends a packet if its buffer has room for the tail. */
  method AppendTail(p: NetPacket, a: Algorithm) returns (ok: bool)
    requires p.Valid()
    modifies p`dataLen, p.buffer
    ensures p.Valid()
    ensures ok <==> old(p.dataLen) + TAIL_LEN <= p.buffer.Length
    ensures ok ==> p.View() == Extended(old(p.View()), a)
    ensures !ok ==> p.buffer[..] == old(p.buffer[..])
  {
    var len := p.dataLen;
    ok := p.SetDataLen(len + TAIL_LEN);
    if ok {
      ghost var before, rest := p.View(), p.buffer[p.dataLen..];
      p.SetFlag(EXTENSION, true);
      assert p.buffer[..] == WithFlag(before, EXTENSION, true) + rest;
      assert WithFlag(before, EXTENSION, true)[..len] == WithFlag(old(p.View()), EXTENSION, true);
      p.Write(len, [0, 0, 0, 0]);
      p.Write(len, [a.Byte()]);
      assert p.View() == p.buffer[..][..p.dataLen];
    }
  }

  /** Compresses into `out`: no result on error, else whether `out` is the packet to send. */
  method Compress(k: Codec, a: Option<Algorithm>, input: NetPacket, out: NetPacket) returns (r: Option<bool>)
    requires k.Lawful() && input.Valid() && out.Valid() && input.buffer != out.buffer && input != out
    modifies out`dataLen, out.buffer
    ensures out.Valid()
    ensures match Compressed(k, a, input.View(), old(out.buffer[..]))
            case Failed => r == None
            case Kept => r == Some(false)
            case Shrunk(q) => r == Some(true) && out.View() == q
    ensures out.buffer[0] == old(out.buffer[0]) || out.buffer[0] == FlagByte(old(out.buffer[0]), EXTENSION, true)
  {
    ghost var buf := out.buffer[..];
    if a == None || input.dataLen < MIN_COMPRESSED {
      return Some(false);
    }
    var z := k.compress(a.value, Payload(input.View()), out.buffer.Length - HEAD_LEN);
    if z.None? {
      return None;
    }
    out.Write(HEAD_LEN, z.value);
    var _ := out.SetDataLen(HEAD_LEN + |z.value|);
    assert out.View() == out.buffer[..][..out.dataLen] == Head(buf) + z.value;
    var ok := AppendTail(out, a.value);
    if !ok {
      return None;
    }
    r := Some(out.dataLen < input.dataLen - MIN_SAVED);
  }

  /** Leaves the packet of a head and a payload in `out`. */
  method Restore(out: NetPacket, head: seq<byte>, payload: seq<byte>)
    requires out.Valid() && |head| == HEAD_LEN && HEAD_LEN + |payload| <= out.buffer.Length
    modifies out`dataLen, out.buffer
    ensures out.Valid() && out.View() == head + payload
  {
    var _ := out.SetDataLen(HEAD_LEN + |payload|);
    out.Write(HEAD_LEN, payload);
    out.Write(0, head);
    assert out.View() == out.buffer[..][..out.dataLen];
  }

  /** Takes the tail off a packet and restores the payload into `out`; answers whether there was a tail,
      and nothing on error. */
  method HandleExtensionTail(k: Codec, p: NetPacket, out: NetPacket) returns (r: Option<bool>)
    requires k.Lawful() && p.Valid() && out.Valid() && p.buffer != out.buffer && p != out
    modifies p`dataLen, p.buffer, out`dataLen, out.buffer
    ensures p.Valid() && out.Valid()
    ensures !HasFlag(old(p.View()), EXTENSION) ==> r == Some(false) && p.View() == old(p.View())
    ensures HasFlag(old(p.View()), EXTENSION) ==>
              match Decompressed(k, old(p.View()), out.buffer.Length - HEAD_LEN)
              case None => r == None
              case Some(x) => r == Some(true) && out.View() == x
  {
    ghost var whole := p.View();
    if !HasFlag(p.View(), EXTENSION) {
      return Some(false);
    }
    if p.dataLen == HEAD_LEN || p.buffer[p.dataLen - 1] != 0 {
      return None;
    }
    var ok := p.SetDataLen(p.dataLen - TAIL_LEN);
    if !ok {
      return None;
    }
    var b := p.buffer[p.dataLen];
    p.SetFlag(EXTENSION, false);
    assert p.View() == WithFlag(whole[..|whole| - TAIL_LEN], EXTENSION, false);
    if AlgorithmOf(b).None? {
      return None;
    }
    var x := k.decompress(AlgorithmOf(b).value, Payload(p.View()), out.buffer.Length - HEAD_LEN);
    if x.None? {
      return None;
    }
    Restore(out, Head(p.View()), x.value);
    r := Some(true);
  }
}
