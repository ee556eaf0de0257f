/**
From the sender's buffer to the receiver's: address the packet, compress it if that pays, encrypt
it; then, after any number of relays, decrypt it and undo the compression.
*/
module Pipeline {
  import opened Wrappers
  import opened Net
  import opened Packets
  import opened NetPackets
  import opened Ciphers
  import opened CipherMethods
  import opened Compression
  import opened Relays
  import opened RouteTables

  const IP_TURN := 4
  const IPV4 := 4
  const FIRST_TTL := 6

  /** A packet under the head of IP traffic; only its flags are left from before. */
  function Addressed(p: Packet, src: Ipv4Addr, dst: Ipv4Addr): (r: Packet)
    ensures |r| == |p|
  {
    [WithDefaultVersion(p)[0], IP_TURN, IPV4, FIRST_TTL * 0x10 + FIRST_TTL] + Octets(src) + Octets(dst) + Payload(p)
  }

  /** The receiver finds both addresses where they were written. */
  lemma AddressedTo(p: Packet, src: Ipv4Addr, dst: Ipv4Addr)
    ensures var q := Addressed(p, src, dst);
      && Source(q) == src && Destination(q) == dst && q[4..8] == Octets(src) && q[8..12] == Octets(dst)
      && q[1] == 4 && q[2] == 4 && q[3] == 0x66
  {
    var q := Addressed(p, src, dst);
    assert q[4..8] == Octets(src);
    assert q[8..12] == Octets(dst);
    SameOctets(Source(q), src);
    SameOctets(Destination(q), dst);
  }

  // ----- the first byte

  /** The bits of the first byte that neither encryption nor compression touches. */
  predicate SameRest(a: byte, b: byte) {
    a / GATEWAY % 2 == b / GATEWAY % 2 && a / 0x10 % 2 == b / 0x10 % 2
  }

  lemma AddressedFacts(p: Packet, src: Ipv4Addr, dst: Ipv4Addr)
    ensures var q := Addressed(p, src, dst);
      && Payload(q) == Payload(p) && q[0] % 0x10 == 2 && Ttl(q) == SourceTtl(q) == FIRST_TTL
      && (forall flag :: IsFlag(flag) ==> HasFlag(q, flag) == HasFlag(p, flag))
      && SameRest(q[0], p[0])
  {
    var q, r := Addressed(p, src, dst), WithDefaultVersion(p);
    assert q[0] == r[0];
    HighBits(r[0], p[0]);
  }

  /** The high half of a byte decides its four leading bits. */
  lemma HighBits(a: byte, b: byte)
    requires a / 0x10 == b / 0x10
    ensures a / 0x80 == b / 0x80 && a / 0x40 == b / 0x40 && a / 0x20 == b / 0x20
  {
    assert a / 0x20 == a / 0x10 / 2 && a / 0x40 == a / 0x10 / 4 && a / 0x80 == a / 0x10 / 8;
    assert b / 0x20 == b / 0x10 / 2 && b / 0x40 == b / 0x10 / 4 && b / 0x80 == b / 0x10 / 8;
  }

  /** The flags a step of the sender leaves alone, where it may set the extension flag or not. */
  predicate Drifted(c: Cipher, was: byte, b: byte, mayExtend: bool) {
    && SameRest(b, was)
    && (mayExtend || b / EXTENSION % 2 == was / EXTENSION % 2)
    && (c.mode.Plain? ==> b / ENCRYPTED % 2 == was / ENCRYPTED % 2)
  }

  /** Buffers a sender may use: flags clear, as in a buffer of zeros. */
  predicate Ready(c: Cipher, buf0: byte, aux0: byte) {
    && buf0 / EXTENSION % 2 == 0
    && SameRest(buf0, aux0)
    && (c.mode.Plain? ==> buf0 / ENCRYPTED % 2 == 0 && aux0 / ENCRYPTED % 2 == 0)
  }

  lemma VersionDrifts(c: Cipher, p: Packet, src: Ipv4Addr, dst: Ipv4Addr)
    ensures Drifted(c, p[0], Addressed(p, src, dst)[0], false)
  {
    AddressedFacts(p, src, dst);
    var q := Addressed(p, src, dst);
    assert HasFlag(q, ENCRYPTED) == HasFlag(p, ENCRYPTED) && HasFlag(q, EXTENSION) == HasFlag(p, EXTENSION);
  }

  lemma ExtensionDrifts(c: Cipher, b: byte)
    ensures Drifted(c, b, FlagByte(b, EXTENSION, true), true)
  {
    FlagByteBits(b, EXTENSION, true);
  }

  lemma EncryptionDrifts(c: Cipher, buf: seq<byte>, len: nat, random: seq<byte>)
    requires c.Valid() && Encryptable(c, buf, len, random) && Encrypted(c, buf, len, random).Some?
    ensures Drifted(c, buf[0], Encrypted(c, buf, len, random).value[0], false)
  {
    if !c.mode.Plain? {
      EncryptedIsSecret(c, buf, len, random, 0);
      assert Encrypted(c, buf, len, random).value[0] == FlagByte(buf[0], ENCRYPTED, true);
      FlagByteBits(buf[0], ENCRYPTED, true);
    }
  }

  // ----- the sender

  method Address(p: NetPacket, src: Ipv4Addr, dst: Ipv4Addr)
    requires p.Valid()
    modifies p.buffer
    ensures p.View() == Addressed(old(p.View()), src, dst)
    ensures p.buffer[p.dataLen..] == old(p.buffer[p.dataLen..])
  {
    AddressedStepByStep(p.View(), src, dst);
    p.SetDefaultVersion();
    p.SetProtocols(IP_TURN, IPV4);
    p.FirstSetTtl(FIRST_TTL);
    p.SetSource(src);
    p.SetDestination(dst);
  }

  lemma AddressedStepByStep(p: Packet, src: Ipv4Addr, dst: Ipv4Addr)
    ensures var h := WithDefaultVersion(p)[1 := IP_TURN][2 := IPV4][3 := FIRST_TTL * 0x10 + FIRST_TTL];
            Overwritten(Overwritten(h, 4, Octets(src)), 8, Octets(dst)) == Addressed(p, src, dst)
  {
  }

  /** `full` is a buffer whose first `n` bytes go to encryption: the packet itself, or its compressed
      form in the auxiliary buffer. */
  ghost predicate Produced(k: Codec, a: Option<Algorithm>, buf: seq<byte>, len: nat, aux: seq<byte>,
                           src: Ipv4Addr, dst: Ipv4Addr, full: seq<byte>, n: nat)
    requires k.Lawful() && HEAD_LEN <= len <= |buf| && |aux| >= HEAD_LEN
  {
    match Compressed(k, a, Addressed(buf[..len], src, dst), aux)
    case Failed => false
    case Kept => n == len && full == Addressed(buf[..len], src, dst) + buf[len..]
    case Shrunk(q) => n == |q| && |full| == |aux| && full[..n] == Addressed(q, src, dst)
  }

  lemma FailureDrifts(c: Cipher, b: byte, marked: bool)
    requires marked ==> !c.mode.Plain?
    ensures Drifted(c, b, if marked then FlagByte(b, ENCRYPTED, true) else b, false)
  {
    FlagByteBits(b, ENCRYPTED, true);
  }

  method Encrypt(c: Cipher, p: NetPacket, random: seq<byte>) returns (ok: bool)
    requires c.Valid() && p.Valid() && |random| == BLOCK
    modifies p`dataLen, p.buffer
    ensures p.Valid()
    ensures var x := Encrypted(c, old(p.buffer[..]), old(p.dataLen), random);
            ok == x.Some? && (ok ==> p.View() == x.value)
    ensures Drifted(c, old(p.buffer[0]), p.buffer[0], false)
  {
    ghost var full, n, head := p.buffer[..], p.dataLen, p.buffer[..HEAD_LEN];
    ok := EncryptIpv4(c, p, random);
    if ok {
      EncryptionDrifts(c, full, n, random);
      assert p.buffer[0] == p.View()[0];
    } else {
      FailureDrifts(c, head[0], c.mode.AesEcb? && PaddedLen(n) <= 5120 && HEAD_LEN + PaddedLen(n) <= p.buffer.Length);
      assert p.buffer[0] == p.buffer[..HEAD_LEN][0];
    }
  }

  /** What the sender made of a packet it addressed in `buf`: nothing exactly if the auxiliary buffer is
      too short, compression fails or encryption fails. */
  ghost predicate Made(c: Cipher, k: Codec, a: Option<Algorithm>, buf: seq<byte>, len: nat, aux: seq<byte>,
                       src: Ipv4Addr, dst: Ipv4Addr, random: seq<byte>, full: seq<byte>, n: nat, made: Option<Packet>)
    requires c.Valid() && k.Lawful() && HEAD_LEN <= len <= |buf| && |random| == BLOCK
  {
    || (&& |aux| >= HEAD_LEN && HEAD_LEN <= n <= |full|
        && Produced(k, a, buf, len, aux, src, dst, full, n)
        && Encrypted(c, full, n, random) == made)
    || ((|aux| < HEAD_LEN || Compressed(k, a, Addressed(buf[..len], src, dst), aux).Failed?) && made.None?)
  }

  /** So there is a packet exactly if the auxiliary buffer has room for a head and neither compression nor
      encryption fails; it is then the encrypted form of what the sender produced. */
  lemma MadeExactly(c: Cipher, k: Codec, a: Option<Algorithm>, buf: seq<byte>, len: nat, aux: seq<byte>,
                    src: Ipv4Addr, dst: Ipv4Addr, random: seq<byte>, full: seq<byte>, n: nat, made: Option<Packet>)
    requires c.Valid() && k.Lawful() && HEAD_LEN <= len <= |buf| && |random| == BLOCK
    requires Made(c, k, a, buf, len, aux, src, dst, random, full, n, made)
    ensures var able := |aux| >= 12 && !Compressed(k, a, Addressed(buf[..len], src, dst), aux).Failed?;
      && (able ==> 12 <= n <= |full| && Produced(k, a, buf, len, aux, src, dst, full, n))
      && (made.Some? <==> able && Encrypted(c, full, n, random).Some?)
      && (made.Some? ==> made == Encrypted(c, full, n, random))
  {
  }

  /** Compresses an addressed packet into `auxiliary` if that pays, and addresses the result. */
  method CompressTo(k: Codec, a: Option<Algorithm>, p: NetPacket, auxiliary: NetPacket,
                    src: Ipv4Addr, dst: Ipv4Addr, ghost c: Cipher) returns (out: Option<NetPacket>)
    requires k.Lawful() && p.Valid() && auxiliary.Valid() && p.buffer != auxiliary.buffer && p != auxiliary
    modifies auxiliary`dataLen, auxiliary.buffer
    ensures auxiliary.Valid()
    ensures match Compressed(k, a, p.View(), old(auxiliary.buffer[..]))
            case Failed => out == None
            case Kept => out == Some(p)
            case Shrunk(q) => out == Some(auxiliary) && auxiliary.View() == Addressed(q, src, dst)
    ensures Drifted(c, old(auxiliary.buffer[0]), auxiliary.buffer[0], true)
  {
    ExtensionDrifts(c, auxiliary.buffer[0]);
    var r := Compress(k, a, p, auxiliary);
    if r == None {
      return None;
    }
    out := Some(p);
    if r.value {
      VersionDrifts(c, auxiliary.View(), src, dst);
      Address(auxiliary, src, dst);
      assert auxiliary.View()[0] == auxiliary.buffer[0];
      out := Some(auxiliary);
    }
  }

  /** Compresses and encrypts a packet that was addressed in the first `len` bytes of `buf`. */
  method CompressAndEncrypt(c: Cipher, k: Codec, a: Option<Algorithm>, p: NetPacket, aux: array<byte>,
                            src: Ipv4Addr, dst: Ipv4Addr, random: seq<byte>, ghost buf: seq<byte>)
    returns (sent: Option<NetPacket>, ghost full: seq<byte>, ghost n: nat)
    requires c.Valid() && k.Lawful() && p.Valid() && p.buffer != aux && |random| == BLOCK
    requires p.dataLen <= |buf| && p.buffer[..] == Addressed(buf[..p.dataLen], src, dst) + buf[p.dataLen..]
    modifies p`dataLen, p.buffer, aux
    ensures sent.Some? ==> sent.value.Valid()
    ensures Made(c, k, a, buf, old(p.dataLen), old(aux[..]), src, dst, random, full, n,
                 if sent.Some? then Some(sent.value.View()) else None)
    ensures Drifted(c, old(p.buffer[0]), p.buffer[0], false)
    ensures aux.Length > 0 ==> Drifted(c, old(aux[0]), aux[0], true)
  {
    if aux.Length < HEAD_LEN {
      return None, [], 0;
    }
    ghost var was := aux[..];
    assert p.View() == p.buffer[..][..p.dataLen] == Addressed(buf[..p.dataLen], src, dst);
    var auxiliary := new NetPacket(aux.Length, aux);
    var out := CompressTo(k, a, p, auxiliary, src, dst, c);
    if out == None {
      return None, [], 0;
    }
    full, n := out.value.buffer[..], out.value.dataLen;
    assert full[..n] == out.value.View();
    assert Produced(k, a, buf, p.dataLen, was, src, dst, full, n);
    var ok := Encrypt(c, out.value, random);
    sent := if ok then Some(out.value) else None;
  }

  // ----- the receiver

  /** `room` is how much payload the spare buffer of the receiver holds. */
  function Received(c: Cipher, k: Codec, y: Packet, room: nat): Option<Packet>
    requires c.Valid()
  {
    var p := Decrypted(c, y);
    if p.Some? && HasFlag(p.value, EXTENSION) then Decompressed(k, p.value, room) else p
  }

  /** Leaves the packet to deliver in `p`, or in `extend`; a packet that decrypts counts as a sign of life
      of the route it came by. */
  method Receive(c: Cipher, k: Codec, routes: RouteTable, key: RouteKey, now: int, p: NetPacket, extend: NetPacket)
    returns (delivered: Option<NetPacket>)
    requires c.Valid() && k.Lawful() && routes.Valid()
    requires p.Valid() && extend.Valid() && p.buffer != extend.buffer && p != extend
    modifies p`dataLen, p.buffer, extend`dataLen, extend.buffer, routes`table
    ensures delivered.Some? ==> delivered.value in {p, extend} && delivered.value.Valid()
    ensures match Received(c, k, old(p.View()), extend.buffer.Length - HEAD_LEN)
            case None => delivered == None
            case Some(x) => delivered.Some? && delivered.value.View() == x
    ensures routes.Valid()
    ensures routes.table == match Decrypted(c, old(p.View()))
                            case None => old(routes.table)
                            case Some(d) => WithTouched(old(routes.table), Source(d), key, now)
  {
    var ok := DecryptIpv4(c, p);
    if !ok {
      return None;
    }
    routes.UpdateReadTime(Source(p.View()), key, now);
    delivered := Some(p);
    if HasFlag(p.View(), EXTENSION) {
      var tail := HandleExtensionTail(k, p, extend);
      delivered := if tail == Some(true) then Some(extend) else if tail == Some(false) then Some(p) else None;
    }
  }

  // ----- end to end

  /** Exactly when the receiver gets back what was sent. */
  ghost predicate Intact(c: Cipher, k: Codec, a: Option<Algorithm>, buf: seq<byte>, len: nat, aux: seq<byte>,
                         src: Ipv4Addr, dst: Ipv4Addr, room: nat)
    requires k.Lawful() && HEAD_LEN <= len <= |buf| && |aux| >= HEAD_LEN
  {
    // nobody set the extension flag but the compressor
    && buf[0] / EXTENSION % 2 == 0
    && match Compressed(k, a, Addressed(buf[..len], src, dst), aux)
       case Shrunk(q) =>
         // the spare buffer has the other flags of the first one, and the receiver has room
         && Sendable(c, aux[0], |q|)
         && SameRest(aux[0], buf[0])
         && len - HEAD_LEN <= room
       case _ => Sendable(c, buf[0], len)
  }

  /** Without a cipher nobody marked the packet as encrypted, and AES-CBC padding stays in its limit. */
  predicate Sendable(c: Cipher, first: byte, len: nat)
    requires len >= HEAD_LEN
  {
    (c.mode.Plain? ==> first / ENCRYPTED % 2 == 0) && !PaddingOverflows(c, len)
  }

  /** Of two first bytes with the same version, one loses its extension flag and both the encryption
      flag: what makes them equal. */
  lemma SameFirstByte(b: byte, b': byte)
    requires b % 0x10 == b' % 0x10
    ensures FlagByte(b, ENCRYPTED, false) == FlagByte(FlagByte(b', ENCRYPTED, false), EXTENSION, false)
      <==> b / EXTENSION % 2 == 0 && SameRest(b', b)
  {
    var x, z := FlagByte(b, ENCRYPTED, false), FlagByte(b', ENCRYPTED, false);
    var y := FlagByte(z, EXTENSION, false);
    FlagByteBits(b, ENCRYPTED, false);
    FlagByteBits(b', ENCRYPTED, false);
    FlagByteBits(z, EXTENSION, false);
    BitsOfByte(x);
    BitsOfByte(y);
  }

  /** Two addressed packets, one of which lost its extension flag, arrive with the same head exactly
      if their other flags agree. */
  lemma SameHead(p: Packet, q: Packet, src: Ipv4Addr, dst: Ipv4Addr, ttl: byte)
    requires ttl <= MAX_TTL
    ensures var x, y := Delivered(Addressed(p, src, dst), ttl),
                     WithFlag(Delivered(Addressed(q, src, dst), ttl), EXTENSION, false);
            Head(x) == Head(y) <==> !HasFlag(p, EXTENSION) && SameRest(q[0], p[0])
  {
    var p', q' := Addressed(p, src, dst), Addressed(q, src, dst);
    var x, y := Delivered(p', ttl), WithFlag(Delivered(q', ttl), EXTENSION, false);
    AddressedFacts(p, src, dst);
    AddressedFacts(q, src, dst);
    SameFirstByte(p'[0], q'[0]);
    assert Head(x)[0] == x[0] && Head(y)[0] == y[0];
    if x[0] == y[0] {
      assert x[1..12] == y[1..12];
      assert Head(x) == [x[0]] + x[1..12] && Head(y) == [y[0]] + y[1..12];
    }
  }

  /** An uncompressed packet whose extension flag was set from the start is never delivered. */
  lemma KeptArrives(c: Cipher, k: Codec, p: Packet, room: nat, ttl: byte)
    requires c.Valid() && ttl <= MAX_TTL
    ensures var d := Delivered(p, ttl);
            ((if HasFlag(d, EXTENSION) then Decompressed(k, d, room) else Some(d)) == Some(d)) <==> !HasFlag(p, EXTENSION)
  {
    var d := Delivered(p, ttl);
    assert HasFlag(d, EXTENSION) == HasFlag(p, EXTENSION);
    var r := Decompressed(k, d, room);
    if HasFlag(d, EXTENSION) && r.Some? {
      var (q, b) := SplitTail(d).value;
      assert !HasFlag(q, EXTENSION) && r.value[0] == q[0];
    }
  }

  lemma ShrunkArrives(k: Codec, a: Option<Algorithm>, p: Packet, aux: seq<byte>, src: Ipv4Addr, dst: Ipv4Addr,
                      room: nat, ttl: byte)
    requires k.Lawful() && |aux| >= HEAD_LEN && ttl <= MAX_TTL
    requires Compressed(k, a, Addressed(p, src, dst), aux).Shrunk?
    ensures var q := Compressed(k, a, Addressed(p, src, dst), aux).packet;
            var d := Delivered(Addressed(q, src, dst), ttl);
            && HasFlag(d, EXTENSION)
            && ((Decompressed(k, d, room) == Some(Delivered(Addressed(p, src, dst), ttl)))
                <==> (|Payload(p)| <= room && !HasFlag(p, EXTENSION) && SameRest(q[0], p[0])))
  {
    var p' := Addressed(p, src, dst);
    var q := Compressed(k, a, p', aux).packet;
    var q' := Addressed(q, src, dst);
    var d, x := Delivered(q', ttl), Delivered(p', ttl);
    AddressedFacts(p, src, dst);
    AddressedFacts(q, src, dst);
    assert Payload(d) == Payload(q') == Payload(q);
    assert HasFlag(d, EXTENSION) == HasFlag(q', EXTENSION) == HasFlag(q, EXTENSION);
    DecompressUndoesCompress(k, a, p', aux, d, room);
    SameHead(p, q, src, dst, ttl);
    assert Payload(x) == Payload(p') == Payload(p);
    assert x == Head(x) + Payload(x);
    if |Payload(p)| <= room {
      var r := Head(WithFlag(d, EXTENSION, false)) + Payload(p');
      assert r == x <==> r[..HEAD_LEN] == x[..HEAD_LEN];
    }
  }

  /** For every payload, compressor, cipher and number of relays: the receiver ends up with the packet
      that was sent, original payload and all, under the head it was sent with but for the TTL the
      relays left, exactly if the packet was `Intact`. */
  lemma EndToEnd(c: Cipher, k: Codec, a: Option<Algorithm>, buf: seq<byte>, len: nat, aux: seq<byte>,
                 src: Ipv4Addr, dst: Ipv4Addr, random: seq<byte>, full: seq<byte>, n: nat, ttl: byte, room: nat)
    requires c.Valid() && k.Lawful() && HEAD_LEN <= len <= |buf| && |aux| >= HEAD_LEN && |random| == BLOCK
    requires ttl <= MAX_TTL && HEAD_LEN <= n <= |full|
    requires Produced(k, a, buf, len, aux, src, dst, full, n)
    requires Encrypted(c, full, n, random).Some?
    ensures Received(c, k, Relayed(Encrypted(c, full, n, random).value, ttl), room)
            == Some(Delivered(Addressed(buf[..len], src, dst), ttl))
            <==> Intact(c, k, a, buf, len, aux, src, dst, room)
  {
    var p, y := buf[..len], Relayed(Encrypted(c, full, n, random).value, ttl);
    RoundTrip(c, full, n, random, ttl);
    assert DecryptsTo(c, y, full[..n], ttl);
    if Compressed(k, a, Addressed(p, src, dst), aux).Shrunk? {
      ShrunkEnds(c, k, a, y, p, aux, src, dst, ttl, room);
    } else {
      assert full[..n] == Addressed(p, src, dst);
      KeptEnds(c, k, y, p, src, dst, ttl, room);
    }
  }

  /** What decryption makes of a packet sealed from `p`. */
  predicate DecryptsTo(c: Cipher, y: Packet, p: Packet, ttl: byte)
    requires c.Valid() && ttl <= MAX_TTL
  {
    Decrypted(c, y) == if (c.mode.Plain? && HasFlag(p, ENCRYPTED)) || PaddingOverflows(c, |p|) then None
                       else Some(Delivered(p, ttl))
  }

  lemma KeptEnds(c: Cipher, k: Codec, y: Packet, p: Packet, src: Ipv4Addr, dst: Ipv4Addr, ttl: byte, room: nat)
    requires c.Valid() && ttl <= MAX_TTL && DecryptsTo(c, y, Addressed(p, src, dst), ttl)
    ensures Received(c, k, y, room) == Some(Delivered(Addressed(p, src, dst), ttl))
      <==> !HasFlag(p, EXTENSION) && Sendable(c, p[0], |p|)
  {
    AddressedFacts(p, src, dst);
    KeptArrives(c, k, Addressed(p, src, dst), room, ttl);
  }

  lemma ShrunkEnds(c: Cipher, k: Codec, a: Option<Algorithm>, y: Packet, p: Packet, aux: seq<byte>,
                   src: Ipv4Addr, dst: Ipv4Addr, ttl: byte, room: nat)
    requires c.Valid() && k.Lawful() && |aux| >= HEAD_LEN && ttl <= MAX_TTL
    requires Compressed(k, a, Addressed(p, src, dst), aux).Shrunk?
    requires DecryptsTo(c, y, Addressed(Compressed(k, a, Addressed(p, src, dst), aux).packet, src, dst), ttl)
    ensures Received(c, k, y, room) == Some(Delivered(Addressed(p, src, dst), ttl))
      <==> && !HasFlag(p, EXTENSION) && SameRest(aux[0], p[0]) && |p| - HEAD_LEN <= room
           && Sendable(c, aux[0], |Compressed(k, a, Addressed(p, src, dst), aux).packet|)
  {
    var q := Compressed(k, a, Addressed(p, src, dst), aux).packet;
    AddressedFacts(q, src, dst);
    FlagByteBits(aux[0], EXTENSION, true);
    assert q[0] == FlagByte(aux[0], EXTENSION, true);
    ShrunkArrives(k, a, p, aux, src, dst, room, ttl);
  }

  /** For instance: a packet from a buffer with the extension flag set is lost, here without a cipher and
      without compression. */
  lemma FlaggedPacketIsLost(c: Cipher, k: Codec, src: Ipv4Addr, dst: Ipv4Addr, random: seq<byte>, ttl: byte, room: nat)
    requires c.Valid() && c.mode.Plain? && k.Lawful() && |random| == BLOCK && ttl <= MAX_TTL
    ensures var buf: seq<byte> := [EXTENSION] + Zeros(11);
            var full := Addressed(buf, src, dst);
            && Produced(k, None, buf, 12, buf, src, dst, full, 12)
            && Encrypted(c, full, 12, random) == Some(full)
            && Received(c, k, Relayed(full, ttl), room) == None
  {
    var buf: seq<byte> := [EXTENSION] + Zeros(11);
    var full := Addressed(buf, src, dst);
    assert buf[..12] == buf && buf[12..] == [] && full + [] == full && full[..12] == full;
    AddressedFacts(buf, src, dst);
    var d := Relayed(full, ttl);
    assert HasFlag(d, EXTENSION) && !HasFlag(d, ENCRYPTED);
  }

  /** A sender that starts from buffers of zeros may use the same two buffers again and again: they
      stay ready whatever is sent, */
  lemma ReadyAgain(c: Cipher, buf0: byte, aux0: byte, buf1: byte, aux1: byte)
    requires Ready(c, buf0, aux0) && Drifted(c, buf0, buf1, false) && Drifted(c, aux0, aux1, true)
    ensures Ready(c, buf1, aux1)
  {
  }

  /** and from ready buffers every packet that can be encrypted arrives, unless AES-CBC padding
      overflows or the receiver lacks the room to decompress it. */
  lemma ReadyArrives(c: Cipher, k: Codec, a: Option<Algorithm>, buf: seq<byte>, len: nat, aux: seq<byte>,
                     src: Ipv4Addr, dst: Ipv4Addr, random: seq<byte>, full: seq<byte>, n: nat, ttl: byte, room: nat)
    requires c.Valid() && k.Lawful() && HEAD_LEN <= len <= |buf| && |aux| >= HEAD_LEN && |random| == BLOCK
    requires ttl <= MAX_TTL && HEAD_LEN <= n <= |full|
    requires Produced(k, a, buf, len, aux, src, dst, full, n)
    requires Encrypted(c, full, n, random).Some? && Ready(c, buf[0], aux[0])
    requires !PaddingOverflows(c, n) && len - HEAD_LEN <= room
    ensures Received(c, k, Relayed(Encrypted(c, full, n, random).value, ttl), room)
         == Some(Delivered(Addressed(buf[..len], src, dst), ttl))
  {
    EndToEnd(c, k, a, buf, len, aux, src, dst, random, full, n, ttl, room);
  }

  lemma ProducedTtl(k: Codec, a: Option<Algorithm>, buf: seq<byte>, len: nat, aux: seq<byte>,
                    src: Ipv4Addr, dst: Ipv4Addr, full: seq<byte>, n: nat)
    requires k.Lawful() && HEAD_LEN <= len <= |buf| && |aux| >= HEAD_LEN
    requires HEAD_LEN <= n <= |full| && Produced(k, a, buf, len, aux, src, dst, full, n)
    ensures full[3] == FIRST_TTL * 0x10 + FIRST_TTL
  {
    assert full[..n][3] == full[3];
  }

  /** A packet leaves with both TTLs at their first value. */
  lemma SentTtl(c: Cipher, k: Codec, a: Option<Algorithm>, buf: seq<byte>, len: nat, aux: seq<byte>,
                src: Ipv4Addr, dst: Ipv4Addr, random: seq<byte>, full: seq<byte>, n: nat)
    requires c.Valid() && k.Lawful() && HEAD_LEN <= len <= |buf| && |aux| >= HEAD_LEN && |random| == BLOCK
    requires HEAD_LEN <= n <= |full| && Produced(k, a, buf, len, aux, src, dst, full, n)
    requires Encrypted(c, full, n, random).Some?
    ensures Ttl(Encrypted(c, full, n, random).value) == SourceTtl(Encrypted(c, full, n, random).value) == FIRST_TTL
  {
    ProducedTtl(k, a, buf, len, aux, src, dst, full, n);
    EncryptionKeepsHead(c, full, n, random);
    assert Encrypted(c, full, n, random).value[1..12][2] == full[1..12][2];
  }

  lemma EncryptionKeepsHead(c: Cipher, full: seq<byte>, n: nat, random: seq<byte>)
    requires c.Valid() && Encryptable(c, full, n, random) && Encrypted(c, full, n, random).Some?
    ensures var x := Encrypted(c, full, n, random).value;
            x[1..12] == full[1..12] && x[0] / GATEWAY % 2 == full[0] / GATEWAY % 2
  {
    var x := Encrypted(c, full, n, random).value;
    EncryptionDrifts(c, full, n, random);
    if c.mode.Plain? {
      assert x == full[..n];
    } else {
      EncryptedIsSecret(c, full, n, random, 0);
      var q := WithFlag(full[..n], ENCRYPTED, true);
      assert Head(x) == Head(q);
      assert x[1..12] == Head(x)[1..] == Head(q)[1..] == q[1..][..11] == full[1..12];
    }
  }

  /** From buffers without the gateway flag: what is sent to `dst` arrives after d relays exactly if node d
      is the one it is for, the nodes before it are not but can reach it, and d is at most five. */
  lemma SentArrives(c: Cipher, k: Codec, a: Option<Algorithm>, buf: seq<byte>, len: nat, aux: seq<byte>,
                    src: Ipv4Addr, dst: Ipv4Addr, random: seq<byte>, full: seq<byte>, n: nat,
                    visits: seq<Visit>, d: nat)
    requires c.Valid() && k.Lawful() && HEAD_LEN <= len <= |buf| && |aux| >= HEAD_LEN && |random| == BLOCK
    requires HEAD_LEN <= n <= |full| && Produced(k, a, buf, len, aux, src, dst, full, n)
    requires Encrypted(c, full, n, random).Some?
    requires buf[0] / GATEWAY % 2 == aux[0] / GATEWAY % 2 == 0
    ensures
      var o := Trip(Encrypted(c, full, n, random).value, visits);
      o.end == Arrived && o.forwards == d
      <==> && d < |visits| && d <= 5 && IsFor(visits[d].device, dst)
           && forall i :: 0 <= i < d ==> !IsFor(visits[i].device, dst) && Reaches(visits[i], dst, 5 - i)
  {
    var x := Encrypted(c, full, n, random).value;
    ProducedHead(k, a, buf, len, aux, src, dst, full, n);
    EncryptionKeepsHead(c, full, n, random);
    assert x[8..12] == x[1..12][7..] == full[1..12][7..] == full[8..12];
    assert x[3] == x[1..12][2] == full[1..12][2] == full[3];
    ArrivesAt(x, dst, visits, d);
  }

  lemma ProducedHead(k: Codec, a: Option<Algorithm>, buf: seq<byte>, len: nat, aux: seq<byte>,
                     src: Ipv4Addr, dst: Ipv4Addr, full: seq<byte>, n: nat)
    requires k.Lawful() && HEAD_LEN <= len <= |buf| && |aux| >= HEAD_LEN
    requires HEAD_LEN <= n <= |full| && Produced(k, a, buf, len, aux, src, dst, full, n)
    requires buf[0] / GATEWAY % 2 == aux[0] / GATEWAY % 2 == 0
    ensures full[8..12] == Octets(dst) && full[3] == 0x66 && full[0] / GATEWAY % 2 == 0
  {
    var p := buf[..len];
    AddressedTo(p, src, dst);
    AddressedFacts(p, src, dst);
    var shrunk := Compressed(k, a, Addressed(p, src, dst), aux);
    if shrunk.Shrunk? {
      AddressedTo(shrunk.packet, src, dst);
      AddressedFacts(shrunk.packet, src, dst);
      FlagByteBits(aux[0], EXTENSION, true);
      assert shrunk.packet[0] == FlagByte(aux[0], EXTENSION, true);
      assert full[..n][8..12] == full[8..12] && full[..n][0] == full[0] && full[..n][3] == full[3];
    }
  }

  /** Sent from ready buffers and relayed by any nodes whatsoever, a packet that arrives is delivered
      as it was sent, with one hop less for every relay, of which there are at most five. */
  lemma SentRelayedReceived(c: Cipher, k: Codec, a: Option<Algorithm>, buf: seq<byte>, len: nat, aux: seq<byte>,
                            src: Ipv4Addr, dst: Ipv4Addr, random: seq<byte>, full: seq<byte>, n: nat,
                            visits: seq<Visit>, room: nat)
    requires c.Valid() && k.Lawful() && HEAD_LEN <= len <= |buf| && |aux| >= HEAD_LEN && |random| == BLOCK
    requires HEAD_LEN <= n <= |full| && Produced(k, a, buf, len, aux, src, dst, full, n)
    requires Encrypted(c, full, n, random).Some? && Ready(c, buf[0], aux[0])
    requires !PaddingOverflows(c, n) && len - HEAD_LEN <= room
    ensures var o := Trip(Encrypted(c, full, n, random).value, visits);
            && o.forwards < FIRST_TTL
            && Received(c, k, o.packet, room) == Some(Delivered(Addressed(buf[..len], src, dst), FIRST_TTL - o.forwards))
  {
    var x := Encrypted(c, full, n, random).value;
    var o := Trip(x, visits);
    SentTtl(c, k, a, buf, len, aux, src, dst, random, full, n);
    HopsAreBounded(x, visits);
    var ttl: byte := FIRST_TTL - o.forwards;
    assert o.packet == Relayed(x, ttl);
    ReadyArrives(c, k, a, buf, len, aux, src, dst, random, full, n, ttl, room);
  }
}
