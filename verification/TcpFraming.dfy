/**
Packets on a TCP stream: four bytes of head, a zero and the length, before each packet.
*/
module TcpFraming {
  import opened Wrappers
  import opened Net

  const BUFFER_SIZE := 65536
  const TCP_MAX_PACKET_SIZE := 0xff_ffff
  const FRAME_HEAD := 4
  const MIN_PACKET := 12

  // ----- one frame

  function LengthBytes(len: nat): (h: seq<byte>)
    requires len <= TCP_MAX_PACKET_SIZE
    ensures |h| == FRAME_HEAD && h[0] == 0
    ensures var high: int, middle: int, low: int := h[1], h[2], h[3];
            high * 0x1_0000 + middle * 0x100 + low == len
  {
    [0, len / 0x1_0000 % 0x100, len / 0x100 % 0x100, len % 0x100]
  }

  function LengthOf(head: seq<byte>): nat
    requires |head| == FRAME_HEAD
  {
    var high: int, middle: int, low: int := head[1], head[2], head[3];
    high * 0x1_0000 + middle * 0x100 + low
  }

  lemma LengthSurvives(len: nat)
    requires len <= TCP_MAX_PACKET_SIZE
    ensures LengthOf(LengthBytes(len)) == len
  {
  }

  /** The bytes a writer puts on the stream; refused beyond three bytes of length. */
  function Frame(p: seq<byte>): Option<seq<byte>> {
    if |p| > TCP_MAX_PACKET_SIZE then None else Some(LengthBytes(|p|) + p)
  }

  /** What a reader takes. */
  predicate Readable(p: seq<byte>) {
    MIN_PACKET <= |p| <= BUFFER_SIZE
  }

  // ----- a stream

  /** How a reader ends: waiting for more bytes, or giving up on the stream. */
  datatype End = Waiting | BadHead | BadLength

  /** The packets a reader delivers from what has arrived, how it ends, and what it has not used. */
  datatype Reading = Reading(packets: seq<seq<byte>>, end: End, rest: seq<byte>)

  function Before(p: seq<byte>, r: Reading): Reading {
    r.(packets := [p] + r.packets)
  }

  function Read(stream: seq<byte>): Reading
    decreases |stream|
  {
    if |stream| < FRAME_HEAD then Reading([], Waiting, stream)
    else
      var head, body := stream[..FRAME_HEAD], stream[FRAME_HEAD..];
      var len := LengthOf(head);
      if head[0] != 0 then Reading([], BadHead, stream)
      else if !(MIN_PACKET <= len <= BUFFER_SIZE) then Reading([], BadLength, stream)
      else if |body| < len then Reading([], Waiting, stream)
      else Before(body[..len], Read(body[len..]))
  }

  /** The frames of a list of packets, up to the first one the writer refuses. */
  function Written(packets: seq<seq<byte>>): seq<byte> {
    if packets == [] || Frame(packets[0]).None? then []
    else Frame(packets[0]).value + Written(packets[1..])
  }

  // ----- reader and writer

  /** The writer task: it stops at the first packet it cannot write. */
  method TcpWrite(packets: seq<seq<byte>>) returns (stream: seq<byte>, all: bool)
    ensures stream == Written(packets)
    ensures all <==> forall k :: 0 <= k < |packets| ==> |packets[k]| <= TCP_MAX_PACKET_SIZE
  {
    stream := [];
    assert packets[0..] == packets;
    for i := 0 to |packets|
      invariant Written(packets) == stream + Written(packets[i..])
      invariant forall k :: 0 <= k < i ==> |packets[k]| <= TCP_MAX_PACKET_SIZE
    {
      var p := packets[i];
      WrittenFrom(packets, i, stream);
      if |p| > TCP_MAX_PACKET_SIZE {
        return stream, false;
      }
      stream := stream + LengthBytes(|p|);
      stream := stream + p;
    }
    all := true;
  }

  lemma WrittenFrom(packets: seq<seq<byte>>, i: nat, stream: seq<byte>)
    requires i < |packets|
    ensures stream + Written(packets[i..])
         == if Frame(packets[i]).None? then stream
            else stream + LengthBytes(|packets[i]|) + packets[i] + Written(packets[i + 1..])
  {
    assert packets[i..][1..] == packets[i + 1..];
  }

  function Behind(packets: seq<seq<byte>>, r: Reading): Reading {
    r.(packets := packets + r.packets)
  }

  /** What is read from a position on. */
  function ReadFrom(stream: seq<byte>, pos: nat): Reading
    requires pos <= |stream|
  {
    Read(stream[pos..])
  }

  lemma NothingReadYet(stream: seq<byte>)
    ensures ReadFrom(stream, 0) == Read(stream) == Behind([], ReadFrom(stream, 0))
  {
    assert stream[0..] == stream;
    assert [] + Read(stream).packets == Read(stream).packets;
  }

  /** A whole frame of good length at `pos`. */
  predicate HasFrame(stream: seq<byte>, pos: nat, len: nat) {
    && pos + FRAME_HEAD + len <= |stream|
    && stream[pos] == 0 && LengthOf(stream[pos..pos + FRAME_HEAD]) == len
    && MIN_PACKET <= len <= BUFFER_SIZE
  }

  lemma BehindOneMore(packets: seq<seq<byte>>, p: seq<byte>, r: Reading)
    ensures Behind(packets, Before(p, r)) == Behind(packets + [p], r)
  {
    assert packets + ([p] + r.packets) == packets + [p] + r.packets;
  }

  lemma OneMoreFrame(stream: seq<byte>, pos: nat, p: seq<byte>)
    requires HasFrame(stream, pos, |p|) && p == stream[pos + FRAME_HEAD..pos + FRAME_HEAD + |p|]
    ensures ReadFrom(stream, pos) == Before(p, ReadFrom(stream, pos + FRAME_HEAD + |p|))
  {
    var left, next := stream[pos..], pos + FRAME_HEAD + |p|;
    var body := left[FRAME_HEAD..];
    assert left[..FRAME_HEAD] == stream[pos..pos + FRAME_HEAD];
    assert body[..|p|] == p;
    assert body[|p|..] == stream[next..];
  }

  lemma ReadOn(stream: seq<byte>, packets: seq<seq<byte>>, pos: nat, p: seq<byte>, next: nat)
    requires HasFrame(stream, pos, |p|) && p == stream[pos + FRAME_HEAD..pos + FRAME_HEAD + |p|]
    requires next == pos + FRAME_HEAD + |p|
    ensures Behind(packets, ReadFrom(stream, pos)) == Behind(packets + [p], ReadFrom(stream, next))
  {
    OneMoreFrame(stream, pos, p);
    BehindOneMore(packets, p, ReadFrom(stream, next));
  }

  /** Why there is no frame. */
  function EndAt(stream: seq<byte>, pos: nat): End
    requires pos <= |stream|
  {
    if |stream| - pos < FRAME_HEAD then Waiting
    else if stream[pos] != 0 then BadHead
    else if MIN_PACKET <= LengthOf(stream[pos..pos + FRAME_HEAD]) <= BUFFER_SIZE then Waiting
    else BadLength
  }

  lemma NoMoreFrames(stream: seq<byte>, pos: nat)
    requires pos <= |stream|
    requires |stream| - pos >= FRAME_HEAD ==> !HasFrame(stream, pos, LengthOf(stream[pos..pos + FRAME_HEAD]))
    ensures ReadFrom(stream, pos) == Reading([], EndAt(stream, pos), stream[pos..])
  {
    var left := stream[pos..];
    if |left| >= FRAME_HEAD {
      assert left[..FRAME_HEAD] == stream[pos..pos + FRAME_HEAD];
    }
  }

  lemma BehindLast(packets: seq<seq<byte>>, end: End, rest: seq<byte>)
    ensures Behind(packets, Reading([], end, rest)) == Reading(packets, end, rest)
  {
    assert packets + [] == packets;
  }

  /** The reader task over the bytes that will ever arrive: each packet goes to the handler from one
      buffer that is used again and again. */
  method TcpRead(stream: seq<byte>) returns (r: Reading)
    ensures r == Read(stream)
  {
    var buf := new byte[BUFFER_SIZE];
    var pos, packets := 0, [];
    NothingReadYet(stream);
    while true
      invariant 0 <= pos <= |stream|
      invariant ReadFrom(stream, 0) == Behind(packets, ReadFrom(stream, pos))
      decreases |stream| - pos
    {
      var end, p := ReadPacket(stream, pos, buf);
      if end.Some? {
        NoMoreFrames(stream, pos);
        BehindLast(packets, end.value, stream[pos..]);
        return Reading(packets, end.value, stream[pos..]);
      }
      var next := pos + FRAME_HEAD + |p|;
      ReadOn(stream, packets, pos, p, next);
      packets, pos := packets + [p], next;
    }
  }

  /** Reads the frame at `pos` through the buffer, or tells why there is none. */
  method ReadPacket(stream: seq<byte>, pos: nat, buf: array<byte>) returns (end: Option<End>, p: seq<byte>)
    requires pos <= |stream| && buf.Length == BUFFER_SIZE
    modifies buf
    ensures end.None? ==> HasFrame(stream, pos, |p|) && p == stream[pos + FRAME_HEAD..pos + FRAME_HEAD + |p|]
    ensures end.Some? ==>
      && (|stream| - pos >= FRAME_HEAD ==> !HasFrame(stream, pos, LengthOf(stream[pos..pos + FRAME_HEAD])))
      && end.value == EndAt(stream, pos)
  {
    if |stream| - pos < FRAME_HEAD {
      return Some(Waiting), [];
    }
    var head := stream[pos..pos + FRAME_HEAD];
    if head[0] != 0 {
      return Some(BadHead), [];
    }
    var len := LengthOf(head);
    if len < MIN_PACKET || len > buf.Length {
      return Some(BadLength), [];
    }
    if |stream| - pos - FRAME_HEAD < len {
      return Some(Waiting), [];
    }
    ReadExact(buf, stream[pos + FRAME_HEAD..pos + FRAME_HEAD + len]);
    return None, buf[..len];
  }

  /** Fills the front of the buffer. */
  method ReadExact(buf: array<byte>, bytes: seq<byte>)
    requires |bytes| <= buf.Length
    modifies buf
    ensures buf[..|bytes|] == bytes
  {
    for i := 0 to |bytes|
      invariant buf[..i] == bytes[..i]
    {
      buf[i] := bytes[i];
    }
  }

  // ----- round trips

  lemma ReadFrame(p: seq<byte>, more: seq<byte>)
    requires |p| <= TCP_MAX_PACKET_SIZE
    ensures Read(Frame(p).value + more)
         == if Readable(p) then Before(p, Read(more)) else Reading([], BadLength, Frame(p).value + more)
  {
    var stream := Frame(p).value + more;
    LengthSurvives(|p|);
    assert stream[..FRAME_HEAD] == LengthBytes(|p|);
    assert stream[FRAME_HEAD..] == p + more;
    assert (p + more)[..|p|] == p && (p + more)[|p|..] == more;
  }

  /** Reading what was written delivers exactly the packets, in order, with nothing left over, */
  lemma {:induction false} RoundTrip(packets: seq<seq<byte>>)
    requires forall k :: 0 <= k < |packets| ==> 12 <= |packets[k]| <= 65536
    ensures Read(Written(packets)) == Reading(packets, Waiting, [])
  {
    if packets != [] {
      RoundTrip(packets[1..]);
      ReadFrame(packets[0], Written(packets[1..]));
    }
  }

  /** A reader takes no packet from a stream exactly if bytes are missing, the head does not start with a
      zero, or the length is not between 12 and 65536; the last two end it. */
  lemma StopsExactly(stream: seq<byte>)
    ensures Read(stream).packets == [] <==>
      || |stream| < 4 || stream[0] != 0
      || var high: int, middle: int, low: int := stream[1], stream[2], stream[3];
         var len := high * 0x1_0000 + middle * 0x100 + low;
         len < 12 || len > 65536 || |stream| < 4 + len
    ensures |stream| >= 4 ==>
      var high: int, middle: int, low: int := stream[1], stream[2], stream[3];
      var len := high * 0x1_0000 + middle * 0x100 + low;
      && (stream[0] != 0 ==> Read(stream) == Reading([], BadHead, stream))
      && (stream[0] == 0 && !(12 <= len <= 65536) ==> Read(stream) == Reading([], BadLength, stream))
      && (stream[0] == 0 && 12 <= len <= 65536 && |stream| < 4 + len ==> Read(stream) == Reading([], Waiting, stream))
    ensures |stream| < 4 ==> Read(stream) == Reading([], Waiting, stream)
  {
  }

  function ReadablePrefix(packets: seq<seq<byte>>): (n: nat)
    ensures n <= |packets| && forall k :: 0 <= k < n ==> Readable(packets[k])
    ensures n < |packets| ==> !Readable(packets[n])
  {
    if packets == [] || !Readable(packets[0]) then 0 else 1 + ReadablePrefix(packets[1..])
  }

  /** and in general the packets before the first one that is too short or too long for the reader: the
      writer takes lengths the reader does not. */
  lemma {:induction false} DeliversReadable(packets: seq<seq<byte>>)
    ensures Read(Written(packets)).packets == packets[..ReadablePrefix(packets)]
    ensures Read(Written(packets)).end == Waiting
      <==> var n := ReadablePrefix(packets); n == |packets| || |packets[n]| > TCP_MAX_PACKET_SIZE
  {
    if packets != [] && Frame(packets[0]).Some? {
      var p, rest := packets[0], packets[1..];
      ReadFrame(p, Written(rest));
      assert Written(packets) == Frame(p).value + Written(rest);
      if Readable(p) {
        DeliversReadable(rest);
        assert packets[..1 + ReadablePrefix(rest)] == [p] + rest[..ReadablePrefix(rest)];
      }
    }
  }

  /** A packet that is too long for the reader, but not for the writer, ends the stream: neither it nor
      any packet behind it is delivered. */
  lemma TooLongForReader(p: seq<byte>, more: seq<seq<byte>>)
    requires BUFFER_SIZE < |p| <= TCP_MAX_PACKET_SIZE
    ensures Read(Written([p] + more)) == Reading([], BadLength, Written([p] + more))
  {
    assert ([p] + more)[1..] == more;
    ReadFrame(p, Written(more));
  }

  lemma OneByteTooMany() returns (p: seq<byte>)
    ensures |p| == 65537
    ensures Read(Written([p])).packets == [] && Read(Written([p])).end == BadLength
  {
    p := seq(65537, _ => 0);
    TooLongForReader(p, []);
    assert [p] + [] == [p];
  }

  /** What arrived delivers the first packets; the rest of the bytes belongs to the next ones. */
  ghost predicate DeliversPrefix(packets: seq<seq<byte>>, arrived: seq<byte>) {
    var r := Read(arrived);
    r.packets <= packets && r.end == Waiting && Written(r.packets) + r.rest == arrived
  }

  /** Wherever a stream is cut, what has arrived delivers a prefix of the packets: none is damaged and
      none comes early. */
  lemma {:induction false} CutStreamDeliversPrefix(packets: seq<seq<byte>>, n: nat)
    requires forall k :: 0 <= k < |packets| ==> Readable(packets[k])
    requires n <= |Written(packets)|
    ensures DeliversPrefix(packets, Written(packets)[..n])
    decreases |packets|
  {
    if packets != [] {
      var p, rest := packets[0], Written(packets[1..]);
      var frame, cut := Frame(p).value, Written(packets)[..n];
      assert Written(packets) == frame + rest;
      if n < |frame| {
        assert cut == frame[..n];
        CutFrame(p, n);
        assert Written([]) + cut == cut;
      } else {
        assert cut == frame + rest[..n - |frame|];
        CutStreamDeliversPrefix(packets[1..], n - |frame|);
        PrefixGrows(p, packets[1..], rest[..n - |frame|]);
        assert [p] + packets[1..] == packets;
      }
    }
  }

  lemma PrefixGrows(p: seq<byte>, packets: seq<seq<byte>>, arrived: seq<byte>)
    requires Readable(p) && DeliversPrefix(packets, arrived)
    ensures DeliversPrefix([p] + packets, Frame(p).value + arrived)
  {
    ReadFrame(p, arrived);
    WrittenFirst(p, Read(arrived));
  }

  lemma CutFrame(p: seq<byte>, n: nat)
    requires Readable(p) && n < |Frame(p).value|
    ensures Read(Frame(p).value[..n]) == Reading([], Waiting, Frame(p).value[..n])
  {
    var cut := Frame(p).value[..n];
    LengthSurvives(|p|);
    if n >= FRAME_HEAD {
      assert cut[..FRAME_HEAD] == LengthBytes(|p|);
    }
  }

  lemma WrittenFirst(p: seq<byte>, r: Reading)
    requires Readable(p)
    ensures Written([p] + r.packets) + r.rest == Frame(p).value + (Written(r.packets) + r.rest)
  {
    assert ([p] + r.packets)[1..] == r.packets;
  }
}
