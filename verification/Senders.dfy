/**
The sender of IP packets: which way a packet for an address goes, and in what form.  A peer behind
WireGuard is reached through the server, which gets the packet under its own cipher.
*/
module Senders {
  import opened Wrappers
  import opened Net
  import opened Bits
  import opened Packets
  import opened NetPackets
  import opened Ciphers
  import opened Compression
  import opened Relays
  import opened ExternalRoutes
  import opened Pipeline

  const WG_IPV4 := 5
  const COPY_SIZE := 65536

  datatype Status = Online | Offline

  datatype Peer = Peer(status: Status, wireGuard: bool)

  datatype CurrentDevice = CurrentDevice(device: Device, netmask: Ipv4Addr, network: Ipv4Addr) {
    predicate NotInNetwork(ip: Ipv4Addr) {
      And(Number(ip), Number(netmask)) != Number(network)
    }

    predicate IsBroadcast(ip: Ipv4Addr) {
      ip == BROADCAST || ip == device.broadcastIp
    }
  }

  datatype IpPacketSender = IpPacketSender(
    current: CurrentDevice, codec: Codec, algorithm: Option<Algorithm>,
    clientCipher: Cipher, serverCipher: Cipher,
    peers: map<Ipv4Addr, Peer>, allowWireGuard: bool)
  {
    ghost predicate Valid() {
      codec.Lawful() && clientCipher.Valid() && serverCipher.Valid()
    }

    function Source(): Ipv4Addr {
      current.device.virtualIp
    }
  }

  // ----- which way

  /** Where a packet for `dest` goes: behind a gateway, or to everybody. */
  function Resolved(table: seq<Entry>, dest: Ipv4Addr): Ipv4Addr {
    var gateway := Lookup(table, Number(dest));
    var dst := if gateway.Some? then gateway.value else dest;
    if IsMulticast(dst) then BROADCAST else dst
  }

  /** Nowhere; over WireGuard; or to the peers, with or without a copy to those behind WireGuard. */
  datatype Way = Nowhere | OverWireGuard | ToPeers(copy: bool)

  predicate AnyOverWireGuard(peers: map<Ipv4Addr, Peer>) {
    exists ip :: ip in peers && peers[ip].status.Online? && peers[ip].wireGuard
  }

  function WayTo(s: IpPacketSender, dst: Ipv4Addr): Way {
    if !s.allowWireGuard then ToPeers(false)
    else if s.current.IsBroadcast(dst) then ToPeers(AnyOverWireGuard(s.peers))
    else if dst in s.peers && s.peers[dst].wireGuard then
      if s.peers[dst].status.Offline? then Nowhere else OverWireGuard
    else ToPeers(false)
  }

  lemma ResolvedExactly(table: seq<Entry>, dest: Ipv4Addr)
    ensures var found := Lookup(table, Number(dest));
            var way := if found.Some? then found.value else dest;
            Resolved(table, dest) == if 224 <= way.o0 <= 239 then Ipv4Addr(255, 255, 255, 255) else way
  {
  }

  /** A packet goes nowhere exactly if it is for a peer behind WireGuard that is offline, over WireGuard
      exactly if it is for one that is not, and with a copy exactly if it is for everybody and some peer
      behind WireGuard is online; all that only if WireGuard is allowed. */
  lemma WayExactly(s: IpPacketSender, dst: Ipv4Addr)
    ensures var everybody := dst == Ipv4Addr(255, 255, 255, 255) || dst == s.current.device.broadcastIp;
            var behind := s.allowWireGuard && !everybody && dst in s.peers && s.peers[dst].wireGuard;
      && (WayTo(s, dst) == Nowhere <==> behind && s.peers[dst].status == Offline)
      && (WayTo(s, dst) == OverWireGuard <==> behind && s.peers[dst].status == Online)
      && (WayTo(s, dst) == ToPeers(true) <==>
            && s.allowWireGuard && everybody
            && exists ip :: ip in s.peers && s.peers[ip].status == Online && s.peers[ip].wireGuard)
  {
  }

  /** With a mask of `len` bits, exactly the addresses that agree with the gateway in the first `len` bits are
      in the network. */
  lemma InNetworkExactly(current: CurrentDevice, len: nat, gateway: Ipv4Addr, ip: Ipv4Addr)
    requires len <= BITS && Number(current.netmask) == PrefixMask(len)
    requires Number(current.network) == And(Number(current.netmask), Number(gateway))
    ensures Pow2(BITS - len) > 0
    ensures !current.NotInNetwork(ip) <==> Number(ip) / Pow2(BITS - len) == Number(gateway) / Pow2(BITS - len)
  {
    ContainsPrefix(len, Number(gateway), gateway, Number(ip));
    AndCommutes(BITS, Number(ip), Number(current.netmask));
  }

  // ----- in what form

  /** A packet addressed to the server, for a peer behind WireGuard. */
  function Marked(p: Packet): (r: Packet)
    ensures |r| == |p|
  {
    WithFlag(p[2 := WG_IPV4], GATEWAY, true)
  }

  /** The buffer with a marked copy of a packet, from which only payload and addresses are taken. */
  function CopyOf(p: Packet): (r: seq<byte>)
    requires |p| <= COPY_SIZE
    ensures |r| == COPY_SIZE
  {
    Marked(Addressed(Zeros(HEAD_LEN) + Payload(p), Packets.Source(p), Destination(p))) + Zeros(COPY_SIZE - |p|)
  }

  /** What the server gets of such a copy, if its cipher can encrypt it. */
  function Copied(c: Cipher, p: Packet, random: seq<byte>): Option<Packet>
    requires c.Valid() && |random| == BLOCK
  {
    if |p| > COPY_SIZE then None else Encrypted(c, CopyOf(p), |p|, random)
  }

  /** What the server gets of the first `len` bytes of a buffer. */
  function Wired(c: Cipher, buf: seq<byte>, len: nat, src: Ipv4Addr, dst: Ipv4Addr, random: seq<byte>): Option<Packet>
    requires c.Valid() && Encryptable(c, buf, len, random)
  {
    Encrypted(c, Marked(Addressed(buf[..len], src, dst)) + buf[len..], len, random)
  }

  /** A marked packet says so to the server and keeps everything else. */
  lemma MarkedExactly(p: Packet)
    ensures var q := Marked(p);
      && q[2] == 5 && q[0] / 0x40 % 2 == 1 && q[1] == p[1] && q[3..] == p[3..]
      && q[0] / 0x80 % 2 == p[0] / 0x80 % 2 && q[0] / 0x20 % 2 == p[0] / 0x20 % 2 && q[0] % 0x20 == p[0] % 0x20
  {
    var r: Packet := p[2 := WG_IPV4];
    assert HasFlag(Marked(p), ENCRYPTED) == HasFlag(r, ENCRYPTED);
    assert HasFlag(Marked(p), EXTENSION) == HasFlag(r, EXTENSION);
    assert Marked(p)[1..] == r[1..];
    assert Marked(p)[3..] == Marked(p)[1..][2..] == r[1..][2..] == p[3..];
  }

  /** A copy has the payload and the addresses of the packet, under a head of its own. */
  lemma CopyExactly(p: Packet)
    requires |p| <= COPY_SIZE
    ensures var q := CopyOf(p);
      && |q| == 65536 && q[12..|p|] == p[12..] && q[4..12] == p[4..12]
      && q[0] == 0x42 && q[1] == 4 && q[2] == 5 && q[3] == 0x66
  {
    var blank: Packet := Zeros(HEAD_LEN) + Payload(p);
    var a := Addressed(blank, Packets.Source(p), Destination(p));
    AddressedTo(blank, Packets.Source(p), Destination(p));
    MarkedExactly(a);
    assert CopyOf(p) == Marked(a) + Zeros(COPY_SIZE - |p|);
    assert Marked(a)[0] == FlagByte(a[0], GATEWAY, true) && a[0] == 2;
    SameBehind(Marked(a), a, 3, 4, 8);
    SameBehind(Marked(a), a, 3, 8, 12);
    SameBehind(Marked(a), a, 3, 12, |p|);
    assert a[12..|p|] == Payload(p);
    JoinedSlices(Marked(a), p);
    assert CopyOf(p)[4..12] == Marked(a)[4..12];
    assert CopyOf(p)[12..|p|] == Marked(a)[12..|p|];
  }

  lemma SameBehind(q: seq<byte>, a: seq<byte>, at: nat, from: nat, to: nat)
    requires at <= from <= to <= |a| == |q| && q[at..] == a[at..]
    ensures q[from..to] == a[from..to]
  {
    forall i | from <= i < to ensures q[i] == a[i] {
      assert q[i] == q[at..][i - at] && a[i] == a[at..][i - at];
    }
  }

  lemma JoinedSlices(q: seq<byte>, p: seq<byte>)
    requires |q| >= 12 && |p| >= 12 && q[4..8] == p[4..8] && q[8..12] == p[8..12]
    ensures q[4..12] == p[4..12]
  {
    assert q[4..12] == q[4..8] + q[8..12] && p[4..12] == p[4..8] + p[8..12];
  }

  /** What a server with the same cipher makes of a packet that a peer sent to `dst` over WireGuard. */
  ghost predicate IsForWireGuard(y: Packet, src: Ipv4Addr, dst: Ipv4Addr, payload: seq<byte>) {
    && y[0] / 0x40 % 2 == 1 && y[0] / 0x80 % 2 == 0 && y[1] == 4 && y[2] == 5 && y[3] == 0x66
    && y[4..8] == Octets(src) && y[8..12] == Octets(dst) && y[12..] == payload
  }

  lemma MarkedIsForWireGuard(p: Packet, src: Ipv4Addr, dst: Ipv4Addr)
    ensures IsForWireGuard(Delivered(Marked(Addressed(p, src, dst)), FIRST_TTL), src, dst, p[12..])
  {
    var a := Addressed(p, src, dst);
    var m := Marked(a);
    var y := Delivered(m, FIRST_TTL);
    AddressedTo(p, src, dst);
    MarkedExactly(a);
    WithTtlTwice(m, 0, 0);
    assert m[3] == m[3..][0] == a[3..][0] == a[3];
    assert y == WithFlag(WithTtl(m, FIRST_TTL), ENCRYPTED, false);
    assert y[1..] == m[1..];
    SameBehind(m, a, 3, 4, 8);
    SameBehind(m, a, 3, 8, 12);
    SameBehind(m, a, 3, 12, |p|);
    SameBehind(y, m, 1, 4, 8);
    SameBehind(y, m, 1, 8, 12);
    SameBehind(y, m, 1, 12, |p|);
    assert y[1] == y[1..][0] == m[1] && y[2] == y[1..][1] == m[2] && y[3] == y[1..][2] == m[3];
  }

  /** A packet goes over WireGuard exactly if its buffer has room for what the server's cipher adds and it is
      within the limit; the server gets it back with its addresses, its payload and the mark. */
  lemma WiredArrives(c: Cipher, buf: seq<byte>, len: nat, src: Ipv4Addr, dst: Ipv4Addr, random: seq<byte>)
    requires c.Valid() && Encryptable(c, buf, len, random)
    ensures Wired(c, buf, len, src, dst, random).Some? <==> |buf| - len >= Growth(c, len) && WithinLimit(c, len)
    ensures Wired(c, buf, len, src, dst, random).Some? && !PaddingOverflows(c, len)
            && (c.mode.Plain? ==> buf[0] / 0x80 % 2 == 0) ==>
      && Decrypted(c, Wired(c, buf, len, src, dst, random).value).Some?
      && IsForWireGuard(Decrypted(c, Wired(c, buf, len, src, dst, random).value).value, src, dst, buf[12..len])
  {
    var p := buf[..len];
    var m := Marked(Addressed(p, src, dst));
    ServerGetsBack(c, m + buf[len..], len, random, p, src, dst);
    assert p[12..] == buf[12..len];
    AddressedFacts(p, src, dst);
    MarkedExactly(Addressed(p, src, dst));
    assert HasFlag(Addressed(p, src, dst), ENCRYPTED) == HasFlag(p, ENCRYPTED);
  }

  lemma ServerGetsBack(c: Cipher, full: seq<byte>, len: nat, random: seq<byte>,
                       p: Packet, src: Ipv4Addr, dst: Ipv4Addr)
    requires c.Valid() && Encryptable(c, full, len, random) && full[..len] == Marked(Addressed(p, src, dst))
    ensures Encrypted(c, full, len, random).Some? <==> |full| - len >= Growth(c, len) && WithinLimit(c, len)
    ensures Encrypted(c, full, len, random).Some? && !PaddingOverflows(c, len)
            && (c.mode.Plain? ==> full[0] / 0x80 % 2 == 0) ==>
      && Decrypted(c, Encrypted(c, full, len, random).value).Some?
      && IsForWireGuard(Decrypted(c, Encrypted(c, full, len, random).value).value, src, dst, p[12..])
  {
    EncryptsExactly(c, full, len, random);
    if Encrypted(c, full, len, random).Some? {
      var x := Encrypted(c, full, len, random).value;
      RoundTrip(c, full, len, random, FIRST_TTL);
      EncryptionKeepsHead(c, full, len, random);
      AddressedTo(p, src, dst);
      MarkedExactly(Addressed(p, src, dst));
      assert x[3] == x[1..12][2] == full[1..12][2] == full[..len][3] == full[..len][3..][0] == Addressed(p, src, dst)[3..][0];
      TtlByte(x);
      WithTtlTwice(x, 0, 0);
      assert Relayed(x, FIRST_TTL) == x;
      assert full[0] == full[..len][0];
      MarkedIsForWireGuard(p, src, dst);
    }
  }

  /** The same of a copy, which has 65536 bytes to grow in. */
  lemma CopyArrives(c: Cipher, p: Packet, random: seq<byte>)
    requires c.Valid() && |random| == BLOCK
    ensures Copied(c, p, random).Some? <==> |p| <= 65536 && 65536 - |p| >= Growth(c, |p|) && WithinLimit(c, |p|)
    ensures Copied(c, p, random).Some? && !PaddingOverflows(c, |p|) ==>
      && Decrypted(c, Copied(c, p, random).value).Some?
      && IsForWireGuard(Decrypted(c, Copied(c, p, random).value).value, Packets.Source(p), Destination(p), p[12..])
  {
    if |p| <= COPY_SIZE {
      var blank: Packet := Zeros(HEAD_LEN) + Payload(p);
      CopyExactly(p);
      ServerGetsBack(c, CopyOf(p), |p|, random, blank, Packets.Source(p), Destination(p));
      assert blank[12..] == p[12..];
    }
  }

  method Mark(p: NetPacket)
    requires p.Valid()
    modifies p.buffer
    ensures p.View() == Marked(old(p.View()))
    ensures p.buffer[p.dataLen..] == old(p.buffer[p.dataLen..])
  {
    p.Write(2, [WG_IPV4]);
    p.SetFlag(GATEWAY, true);
  }

  /** Sends a packet to the server in place. */
  method SendToWg(c: Cipher, p: NetPacket, random: seq<byte>) returns (ok: bool)
    requires c.Valid() && p.Valid() && |random| == BLOCK
    modifies p`dataLen, p.buffer
    ensures p.Valid()
    ensures var x := Encrypted(c, Marked(old(p.View())) + old(p.buffer[p.dataLen..]), old(p.dataLen), random);
            ok == x.Some? && (ok ==> p.View() == x.value)
    ensures p.buffer[0] / GATEWAY % 2 == 1
  {
    Mark(p);
    assert p.buffer[..] == p.View() + p.buffer[p.dataLen..];
    assert p.buffer[0] == p.View()[0];
    assert HasFlag(p.View(), GATEWAY);
    ok := Encrypt(c, p, random);
  }

  /** A marked copy in a buffer of its own. */
  method Copy(p: NetPacket) returns (q: NetPacket)
    requires p.Valid() && p.dataLen <= COPY_SIZE
    ensures fresh(q) && fresh(q.buffer) && q.Valid() && q.dataLen == p.dataLen && q.buffer[..] == CopyOf(p.View())
  {
    var buffer := new byte[COPY_SIZE](_ => 0);
    q := new NetPacket(p.dataLen, buffer);
    assert q.View() == Zeros(p.dataLen) && q.buffer[q.dataLen..] == Zeros(COPY_SIZE - p.dataLen);
    Address(q, Packets.Source(p.View()), Destination(p.View()));
    Mark(q);
    assert q.buffer[..] == q.View() + q.buffer[q.dataLen..];
    CopyStepByStep(p.View(), q.View(), Zeros(COPY_SIZE - p.dataLen));
    q.Write(HEAD_LEN, Payload(p.View()));
  }

  lemma CopyStepByStep(p: Packet, q: Packet, rest: seq<byte>)
    requires q == Marked(Addressed(Zeros(|p|), Packets.Source(p), Destination(p))) && |p| <= COPY_SIZE
    requires rest == Zeros(COPY_SIZE - |p|)
    ensures Overwritten(q + rest, HEAD_LEN, Payload(p)) == CopyOf(p)
  {
    var r := Marked(Addressed(Zeros(HEAD_LEN) + Payload(p), Packets.Source(p), Destination(p)));
    assert Head(q) == Head(r);
    assert r == Head(r) + Payload(p);
  }

  /** Sends a copy to the server. */
  method SendToWgBroadcast(c: Cipher, p: NetPacket, random: seq<byte>) returns (copy: Option<NetPacket>)
    requires c.Valid() && p.Valid() && |random| == BLOCK
    ensures copy.Some? ==> fresh(copy.value) && fresh(copy.value.buffer) && copy.value.Valid()
    ensures var x := Copied(c, p.View(), random);
            copy.Some? == x.Some? && (copy.Some? ==> copy.value.View() == x.value)
  {
    if p.dataLen > COPY_SIZE {
      return None;
    }
    var q := Copy(p);
    var ok := Encrypt(c, q, random);
    copy := if ok then Some(q) else None;
  }

  // ----- sending

  /** An error, nothing to send, or the packet and who gets it. */
  datatype Sending = Broken | Nothing | ToServer(packet: NetPacket) | ToPeer(packet: NetPacket)
  {
    /** The packet, if there is one, is valid and holds `x`. */
    ghost predicate Holds(x: Packet)
      reads if this.ToServer? || this.ToPeer? then {packet, packet.buffer} else {}
    {
      (ToServer? || ToPeer?) && packet.Valid() && packet.View() == x
    }
  }

  /** What becomes of a packet that was made for the peers. */
  ghost predicate SentToPeers(current: CurrentDevice, dst: Ipv4Addr, made: Option<Packet>, sending: Sending)
    reads if sending.ToServer? || sending.ToPeer? then {sending.packet, sending.packet.buffer} else {}
  {
    match made
    case None => sending.Broken?
    case Some(x) =>
      if current.IsBroadcast(dst) then sending.ToServer? && sending.Holds(x)
      else if current.NotInNetwork(dst) then sending.Nothing?
      else sending.ToPeer? && sending.Holds(x)
  }

  /** An error exactly if nothing was made; otherwise by way of the server for everybody, to the peer inside
      the network, and not at all outside. */
  lemma SentToPeersExactly(current: CurrentDevice, dst: Ipv4Addr, made: Option<Packet>, sending: Sending)
    requires SentToPeers(current, dst, made, sending)
    ensures var everybody := dst == Ipv4Addr(255, 255, 255, 255) || dst == current.device.broadcastIp;
      && (sending.Broken? <==> made.None?)
      && (sending.ToServer? <==> made.Some? && everybody)
      && (sending.Nothing? <==> made.Some? && !everybody && current.NotInNetwork(dst))
      && (sending.ToPeer? <==> made.Some? && !everybody && !current.NotInNetwork(dst))
      && (sending.ToServer? || sending.ToPeer? ==> sending.packet.Valid() && sending.packet.View() == made.value)
  {
  }

  method Resolve(routes: ExternalRoute, dest: Ipv4Addr) returns (dst: Ipv4Addr)
    ensures dst == Resolved(routes.routeTable, dest)
  {
    dst := dest;
    var gateway := routes.Route(Number(dest));
    if gateway.Some? {
      dst := gateway.value;
    }
    if IsMulticast(dst) {
      dst := BROADCAST;
    }
  }

  /** Addresses the first `len` bytes of a buffer. */
  method Prepare(buf: array<byte>, len: nat, src: Ipv4Addr, dst: Ipv4Addr, ghost c: Cipher) returns (p: NetPacket)
    requires HEAD_LEN <= len <= buf.Length
    modifies buf
    ensures fresh(p) && p.Valid() && p.buffer == buf && p.dataLen == len
    ensures buf[..] == Addressed(old(buf[..])[..len], src, dst) + old(buf[..])[len..]
    ensures Drifted(c, old(buf[0]), buf[0], false)
  {
    p := new NetPacket(len, buf);
    assert p.View() == buf[..][..len];
    VersionDrifts(c, p.View(), src, dst);
    Address(p, src, dst);
    assert p.buffer[0] == p.View()[0];
    assert buf[..] == p.View() + buf[len..];
  }

  /** Makes an addressed packet ready for the peers, and says who gets it. */
  method SendToPeers(s: IpPacketSender, p: NetPacket, aux: array<byte>, dst: Ipv4Addr, random: seq<byte>,
                     ghost buf: seq<byte>)
    returns (sending: Sending, ghost made: Option<Packet>, ghost full: seq<byte>, ghost n: nat)
    requires s.Valid() && p.Valid() && p.buffer != aux && |random| == BLOCK
    requires p.dataLen <= |buf| && p.buffer[..] == Addressed(buf[..p.dataLen], s.Source(), dst) + buf[p.dataLen..]
    modifies p`dataLen, p.buffer, aux
    ensures Made(s.clientCipher, s.codec, s.algorithm, buf, old(p.dataLen), old(aux[..]), s.Source(), dst, random,
                 full, n, made)
    ensures SentToPeers(s.current, dst, made, sending)
    ensures Drifted(s.clientCipher, old(p.buffer[0]), p.buffer[0], false)
    ensures aux.Length > 0 ==> Drifted(s.clientCipher, old(aux[0]), aux[0], true)
  {
    var sent;
    sent, full, n := CompressAndEncrypt(s.clientCipher, s.codec, s.algorithm, p, aux, s.Source(), dst, random, buf);
    made := None;
    if sent.None? {
      sending := Broken;
      return;
    }
    made := Some(sent.value.View());
    if s.current.IsBroadcast(dst) {
      sending := ToServer(sent.value);
    } else if s.current.NotInNetwork(dst) {
      sending := Nothing;
    } else {
      sending := ToPeer(sent.value);
    }
  }

  /** Sends a prepared packet its way; `made` is what the peers are to get, from the first `n` bytes of
      `full`, and `buf` is the buffer before it was prepared. */
  method Dispatch(s: IpPacketSender, p: NetPacket, aux: array<byte>, dst: Ipv4Addr, random: seq<byte>,
                  random': seq<byte>, ghost buf: seq<byte>)
    returns (sending: Sending, copy: Option<NetPacket>, ghost made: Option<Packet>, ghost full: seq<byte>, ghost n: nat)
    requires s.Valid() && p.Valid() && p.buffer != aux && |random| == |random'| == BLOCK
    requires p.dataLen <= |buf| && p.buffer[..] == Addressed(buf[..p.dataLen], s.Source(), dst) + buf[p.dataLen..]
    modifies p`dataLen, p.buffer, aux
    ensures match WayTo(s, dst)
      case Nowhere => sending.Nothing? && copy.None?
      case OverWireGuard =>
        var wired := Wired(s.serverCipher, buf, old(p.dataLen), s.Source(), dst, random');
        && copy.None?
        && if wired.None? then sending.Broken?
           else sending.ToServer? && sending.packet.Valid() && Some(sending.packet.View()) == wired
      case ToPeers(withCopy) =>
        var wanted := Copied(s.serverCipher, Addressed(buf[..old(p.dataLen)], s.Source(), dst), random');
        if withCopy && wanted.None? then sending.Broken? && copy.None?
        else
          && copy.Some? == withCopy
          && (withCopy ==> copy.value.Valid() && Some(copy.value.View()) == wanted)
          && Made(s.clientCipher, s.codec, s.algorithm, buf, old(p.dataLen), old(aux[..]), s.Source(), dst, random,
                  full, n, made)
          && SentToPeers(s.current, dst, made, sending)
    ensures !WayTo(s, dst).OverWireGuard? ==> Drifted(s.clientCipher, old(p.buffer[0]), p.buffer[0], false)
    ensures aux.Length > 0 ==> Drifted(s.clientCipher, old(aux[0]), aux[0], true)
  {
    sending, copy, made, full, n := Nothing, None, None, [], 0;
    assert p.View() == p.buffer[..][..p.dataLen] && p.buffer[p.dataLen..] == buf[p.dataLen..];
    match WayTo(s, dst) {
      case Nowhere =>
      case OverWireGuard =>
        var ok := SendToWg(s.serverCipher, p, random');
        sending := if ok then ToServer(p) else Broken;
      case ToPeers(withCopy) =>
        if withCopy {
          copy := SendToWgBroadcast(s.serverCipher, p, random');
          if copy == None {
            sending := Broken;
            return;
          }
        }
        sending, made, full, n := SendToPeers(s, p, aux, dst, random, buf);
    }
  }

  /** Sends the first `len` bytes of `buf` to `dest`, if this peer has an address of its own. */
  method SendIp(s: IpPacketSender, routes: ExternalRoute, buf: array<byte>, len: nat, aux: array<byte>,
                dest: Ipv4Addr, random: seq<byte>, random': seq<byte>)
    returns (sending: Sending, copy: Option<NetPacket>, ghost made: Option<Packet>, ghost full: seq<byte>, ghost n: nat)
    requires s.Valid() && buf != aux && |random| == |random'| == BLOCK
    modifies buf, aux
    ensures s.Source() == UNSPECIFIED ==>
              sending.Nothing? && copy.None? && buf[..] == old(buf[..]) && aux[..] == old(aux[..])
    ensures s.Source() != UNSPECIFIED && !(HEAD_LEN <= len <= buf.Length) ==> sending.Broken? && copy.None?
    ensures s.Source() != UNSPECIFIED && HEAD_LEN <= len <= buf.Length ==>
      var dst := Resolved(routes.routeTable, dest);
      match WayTo(s, dst)
      case Nowhere => sending.Nothing? && copy.None?
      case OverWireGuard =>
        var wired := Wired(s.serverCipher, old(buf[..]), len, s.Source(), dst, random');
        && copy.None?
        && if wired.None? then sending.Broken?
           else sending.ToServer? && sending.packet.Valid() && Some(sending.packet.View()) == wired
      case ToPeers(withCopy) =>
        var wanted := Copied(s.serverCipher, Addressed(old(buf[..])[..len], s.Source(), dst), random');
        if withCopy && wanted.None? then sending.Broken? && copy.None?
        else
          && copy.Some? == withCopy
          && (withCopy ==> copy.value.Valid() && Some(copy.value.View()) == wanted)
          && Made(s.clientCipher, s.codec, s.algorithm, old(buf[..]), len, old(aux[..]), s.Source(), dst, random,
                  full, n, made)
          && SentToPeers(s.current, dst, made, sending)
    ensures buf.Length > 0 && !WayTo(s, Resolved(routes.routeTable, dest)).OverWireGuard? ==>
              Drifted(s.clientCipher, old(buf[0]), buf[0], false)
    ensures aux.Length > 0 ==> Drifted(s.clientCipher, old(aux[0]), aux[0], true)
  {
    if s.Source() == UNSPECIFIED {
      return Nothing, None, None, [], 0;
    }
    var dst := Resolve(routes, dest);
    if !(HEAD_LEN <= len <= buf.Length) {
      return Broken, None, None, [], 0;
    }
    ghost var was := buf[..];
    var p := Prepare(buf, len, s.Source(), dst, s.clientCipher);
    sending, copy, made, full, n := Dispatch(s, p, aux, dst, random, random', was);
  }

  // ----- the buffers afterwards

  /** A packet sent over WireGuard leaves its mark in the buffer: the next one from there that is not
      compressed is not relayed by anybody, */
  lemma StaleMarkStopsRelays(c: Cipher, buf: seq<byte>, len: nat, src: Ipv4Addr, dst: Ipv4Addr, random: seq<byte>,
                             visits: seq<Visit>)
    requires c.Valid() && HEAD_LEN <= len <= |buf| && |random| == BLOCK && buf[0] / GATEWAY % 2 == 1
    requires Encrypted(c, Addressed(buf[..len], src, dst) + buf[len..], len, random).Some?
    ensures Trip(Encrypted(c, Addressed(buf[..len], src, dst) + buf[len..], len, random).value, visits).forwards == 0
  {
    var p, full := buf[..len], Addressed(buf[..len], src, dst) + buf[len..];
    AddressedFacts(p, src, dst);
    assert HasFlag(p, GATEWAY) && full[0] == Addressed(p, src, dst)[0];
    EncryptionDrifts(c, full, len, random);
  }

  /** unless its head is cleared.  Whoever does so before each packet has ready buffers for good, since
      sending over WireGuard leaves the auxiliary buffer alone. */
  lemma {:induction false} ReadyOnceCleared(c: Cipher, aux: seq<byte>)
    requires aux != [] && Ready(c, 0, aux[0])
    requires forall i :: 0 <= i < |aux| - 1 ==> Drifted(c, aux[i], aux[i + 1], true)
    ensures Ready(c, 0, aux[|aux| - 1])
  {
    if |aux| > 1 {
      ReadyOnceCleared(c, aux[..|aux| - 1]);
      ReadyAgain(c, 0, aux[|aux| - 2], 0, aux[|aux| - 1]);
    }
  }
}
