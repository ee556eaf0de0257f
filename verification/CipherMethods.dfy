/**
The ciphers at work on a packet in place: each method does to the buffer what the function of the
same mode says.  A packet that could not be encrypted or decrypted is dropped by the callers; what
is left of its payload is not specified.
*/
module CipherMethods {
  import opened Wrappers
  import opened Net
  import opened Packets
  import opened NetPackets
  import opened Ciphers

  // ----- parts of a buffer

  lemma SliceOfPrefix(s: seq<byte>, head: seq<byte>, body: seq<byte>, rest: seq<byte>)
    requires |head| + |body| + |rest| <= |s| && s[..|head| + |body| + |rest|] == head + (body + rest)
    ensures s[|head|..|head| + |body|] == body
  {
    var t := s[..|head| + |body| + |rest|];
    assert t[|head|..|head| + |body|] == body;
    assert s[|head|..|head| + |body|] == t[|head|..|head| + |body|];
  }

  /** A random number written behind the payload and some filler. */
  lemma RandomAppended(buf: seq<byte>, len: nat, at: nat, random: seq<byte>)
    requires HEAD_LEN <= len <= at && at + |random| <= |buf|
    ensures Overwritten(buf, at, random)[HEAD_LEN..at + |random|] == buf[HEAD_LEN..len] + buf[len..at] + random
  {
  }

  // ----- steps shared by the modes

  /** Puts a random number behind the payload and some filler; returns what is to be encrypted. */
  method AppendRandom(p: NetPacket, at: nat, random: seq<byte>, ghost plain: Packet, ghost filler: seq<byte>)
    returns (body: seq<byte>)
    requires |plain| + |filler| == at && at + |random| <= p.buffer.Length
    requires p.buffer[..|plain|] == plain && p.buffer[|plain|..at] == filler
    modifies p.buffer
    ensures body == Payload(plain) + filler + random && |body| == at + |random| - HEAD_LEN
    ensures p.buffer[..HEAD_LEN] == Head(plain)
  {
    RandomAppended(p.buffer[..], |plain|, at, random);
    assert p.buffer[..][HEAD_LEN..|plain|] == Payload(plain);
    assert p.buffer[..][|plain|..at] == filler;
    p.Write(at, random);
    body := p.buffer[..][HEAD_LEN..at + |random|];
  }

  /** Writes a body in two parts over the payload. */
  method WriteSealed(p: NetPacket, ct: seq<byte>, t: seq<byte>, ghost head: seq<byte>)
    requires HEAD_LEN + |ct| + |t| <= p.buffer.Length && p.buffer[..HEAD_LEN] == head
    modifies p.buffer
    ensures p.buffer[..HEAD_LEN + |ct| + |t|] == head + (ct + t) && p.buffer[..HEAD_LEN] == head
    ensures p.buffer[HEAD_LEN + |ct| + |t|..] == old(p.buffer[HEAD_LEN + |ct| + |t|..])
  {
    p.Write(HEAD_LEN, ct);
    p.Write(HEAD_LEN + |ct|, t);
  }

  method WriteBlocks(p: NetPacket, ct: seq<byte>, ghost head: seq<byte>)
    requires HEAD_LEN + |ct| <= p.buffer.Length && p.buffer[..HEAD_LEN] == head
    modifies p.buffer
    ensures p.buffer[..HEAD_LEN + |ct|] == head + ct && p.buffer[..HEAD_LEN] == head
    ensures p.buffer[HEAD_LEN + |ct|..] == old(p.buffer[HEAD_LEN + |ct|..])
  {
    p.Write(HEAD_LEN, ct);
  }

  /** Writes the finger of the first `upTo` bytes at the end of the packet, if there is one. */
  method SetFinger(c: Cipher, p: NetPacket, tag: seq<byte>, upTo: nat,
                   ghost head: seq<byte>, ghost body: seq<byte>, ghost rest: seq<byte>)
    requires c.Valid() && p.Valid() && p.dataLen >= HEAD_LEN + c.FingerLen()
    requires |head| == HEAD_LEN && upTo == HEAD_LEN + |body|
    requires p.buffer[..p.dataLen - c.FingerLen()] == head + (body + rest)
    modifies p.buffer
    ensures p.View() == head + (body + rest + c.Finger(tag, body))
  {
    var end := p.dataLen - c.FingerLen();
    SliceOfPrefix(p.buffer[..], head, body, rest);
    assert p.buffer[HEAD_LEN..upTo] == p.buffer[..][HEAD_LEN..upTo];
    if c.finger.Some? {
      var finger := c.Finger(tag, p.buffer[HEAD_LEN..upTo]);
      Appended(p.buffer[..], end, finger);
      p.Write(end, finger);
      assert p.View() == p.buffer[..][..p.dataLen];
    }
  }

  /** Marks a finished packet as encrypted. */
  method SetEncrypted(p: NetPacket, ghost plain: Packet, ghost body: seq<byte>)
    requires p.Valid() && p.View() == Head(plain) + body
    modifies p.buffer
    ensures p.View() == Secret(plain, body)
  {
    p.SetFlag(ENCRYPTED, true);
  }

  /** Adds the finger of a whole body and marks the packet: the end of four of the modes. */
  method Finish(c: Cipher, p: NetPacket, tag: seq<byte>, ghost plain: Packet, ghost en: seq<byte>)
    requires c.Valid() && p.Valid() && tag == HeadTag(plain)
    requires p.dataLen == HEAD_LEN + |en| + c.FingerLen()
    requires p.buffer[..HEAD_LEN + |en|] == Head(plain) + en
    modifies p.buffer
    ensures p.View() == Secret(plain, Fingered(c, plain, en))
  {
    assert en + [] == en;
    SetFinger(c, p, tag, p.dataLen - c.FingerLen(), Head(plain), en, []);
    SetEncrypted(p, plain, Fingered(c, plain, en));
  }

  /** Puts what was decrypted in place of the payload, keeps the first bytes and clears the mark. */
  method Reveal(p: NetPacket, plain: seq<byte>, keep: nat, ghost secret: Packet)
    requires p.Valid() && keep <= |plain| <= p.dataLen - HEAD_LEN
    requires Head(p.View()) == Head(secret)
    modifies p`dataLen, p.buffer
    ensures p.Valid() && p.View() == Revealed(secret, plain[..keep])
  {
    assert p.View()[..HEAD_LEN] == p.buffer[..HEAD_LEN];
    WriteBlocks(p, plain, Head(secret));
    ghost var written := p.View();
    assert written[..HEAD_LEN + |plain|] == Head(secret) + plain;
    p.SetFlag(ENCRYPTED, false);
    ghost var cleared := p.View();
    var _ := p.SetDataLen(HEAD_LEN + keep);
    assert p.View() == cleared[..HEAD_LEN + keep];
    assert cleared[..HEAD_LEN + |plain|] == WithFlag(written[..HEAD_LEN + |plain|], ENCRYPTED, false);
  }

  /** Compares the finger a packet carries with the one of its body. */
  method FingerMatches(c: Cipher, tag: seq<byte>, en: seq<byte>, carried: seq<byte>) returns (ok: bool)
    requires c.Valid() && |carried| == c.FingerLen()
    ensures ok <==> c.Finger(tag, en) == carried
  {
    ok := true;
    if c.finger.Some? {
      ok := c.Finger(tag, en) == carried;
    }
  }

  // ----- encryption

  method EncryptGcm(c: Cipher, p: NetPacket, random: seq<byte>) returns (ok: bool)
    requires c.Valid() && p.Valid() && |random| == BLOCK
    modifies p`dataLen, p.buffer
    ensures p.Valid()
    ensures var x := GcmEncrypted(c, old(p.buffer[..]), old(p.dataLen), random);
            ok == x.Some? && (ok ==> p.View() == x.value)
    ensures !ok ==> p.buffer[..HEAD_LEN] == old(p.buffer[..HEAD_LEN])
  {
    if p.buffer.Length - p.dataLen < AES_GCM_RESERVED {
      return false;
    }
    ghost var buf, plain: Packet := p.buffer[..], p.buffer[..p.dataLen];
    ghost var filler := buf[p.dataLen..p.dataLen + FINGER_RESERVED - c.FingerLen()];
    var tag := HeadTag(p.View());
    ok := p.SetDataLen(p.dataLen + AES_GCM_RESERVED);
    if p.dataLen - HEAD_LEN > MAX_SECRET {
      return false;
    }
    assert p.buffer[..|plain|] == plain && p.buffer[|plain|..|plain| + |filler|] == filler;
    SealGcm(c, p, tag, random, plain, filler);
    Finish(c, p, tag, plain, GcmSecret(c, plain, filler, random));
  }

  method SealGcm(c: Cipher, p: NetPacket, tag: seq<byte>, random: seq<byte>,
                 ghost plain: Packet, ghost filler: seq<byte>)
    requires c.Valid() && p.Valid() && |random| == BLOCK && |filler| + c.FingerLen() == FINGER_RESERVED
    requires tag == HeadTag(plain) && p.dataLen == |plain| + AES_GCM_RESERVED
    requires p.buffer[..|plain|] == plain && p.buffer[|plain|..|plain| + |filler|] == filler
    modifies p.buffer
    ensures p.buffer[..p.dataLen - c.FingerLen()] == Head(plain) + GcmSecret(c, plain, filler, random)
  {
    var end := p.dataLen - c.FingerLen() - TAG_RESERVED;
    var body := AppendRandom(p, end - RANDOM_RESERVED, random[..4], plain, filler);
    var (ct, t) := c.suite.Seal(tag, body);
    WriteSealed(p, ct, t, Head(plain));
  }

  method EncryptPoly(c: Cipher, p: NetPacket, random: seq<byte>) returns (ok: bool)
    requires c.Valid() && p.Valid() && |random| == BLOCK
    modifies p`dataLen, p.buffer
    ensures p.Valid()
    ensures var x := PolyEncrypted(c, old(p.buffer[..]), old(p.dataLen), random);
            ok == x.Some? && (ok ==> p.View() == x.value)
    ensures !ok ==> p.buffer[..HEAD_LEN] == old(p.buffer[..HEAD_LEN])
  {
    ghost var plain: Packet := p.buffer[..p.dataLen];
    var tag, dataLen := HeadTag(p.View()), p.dataLen;
    ok := p.SetDataLen(dataLen + TAG_RESERVED + RANDOM_RESERVED + c.FingerLen());
    if !ok || p.dataLen - HEAD_LEN > MAX_SECRET {
      return false;
    }
    p.Write(dataLen + TAG_RESERVED, random[..4]);
    var nonce := Nonce(tag, random[..4]);
    assert p.buffer[HEAD_LEN..dataLen] == Payload(plain);
    var (ct, t) := c.suite.Seal(nonce, p.buffer[HEAD_LEN..dataLen]);
    ghost var behind := p.buffer[dataLen + TAG_RESERVED..];
    WriteSealed(p, ct, t, Head(plain));
    assert behind[..RANDOM_RESERVED] == random[..4];
    WithRandom(p, dataLen + TAG_RESERVED, behind, Head(plain), ct + t, random[..4]);
    SetFinger(c, p, tag, dataLen + TAG_RESERVED, Head(plain), ct + t, random[..4]);
    SetEncrypted(p, plain, PolyBody(c, plain, random));
  }

  lemma WithRandom(p: NetPacket, at: nat, behind: seq<byte>, head: seq<byte>, body: seq<byte>, random: seq<byte>)
    requires at + |random| <= p.buffer.Length && p.buffer[at..] == behind && random <= behind
    requires p.buffer[..at] == head + body
    ensures p.buffer[..at + |random|] == head + (body + random)
  {
    assert p.buffer[..at + |random|] == p.buffer[..at] + p.buffer[at..][..|random|];
  }

  method EncryptStream(c: Cipher, p: NetPacket, random: seq<byte>) returns (ok: bool)
    requires c.Valid() && p.Valid() && |random| == BLOCK
    modifies p`dataLen, p.buffer
    ensures p.Valid()
    ensures var x := StreamEncrypted(c, old(p.buffer[..]), old(p.dataLen), random);
            ok == x.Some? && (ok ==> p.View() == x.value)
    ensures !ok ==> p.buffer[..HEAD_LEN] == old(p.buffer[..HEAD_LEN])
  {
    ghost var plain: Packet := p.buffer[..p.dataLen];
    var tag, dataLen := HeadTag(p.View()), p.dataLen;
    ok := p.SetDataLen(dataLen + RANDOM_RESERVED + c.FingerLen());
    if !ok || p.dataLen - HEAD_LEN > MAX_SECRET {
      return false;
    }
    p.Write(dataLen, random[..4]);
    assert p.buffer[HEAD_LEN..dataLen] == Payload(plain);
    var ct := c.suite.Keystream(Nonce(tag, random[..4]), p.buffer[HEAD_LEN..dataLen]);
    ghost var behind := p.buffer[dataLen..];
    WriteBlocks(p, ct, Head(plain));
    assert behind[..RANDOM_RESERVED] == random[..4];
    WithRandom(p, dataLen, behind, Head(plain), ct, random[..4]);
    SetFinger(c, p, tag, dataLen, Head(plain), ct, random[..4]);
    SetEncrypted(p, plain, StreamBody(c, plain, random));
  }

  method EncryptCbc(c: Cipher, p: NetPacket, random: seq<byte>) returns (ok: bool)
    requires c.Valid() && p.Valid() && |random| == BLOCK
    modifies p`dataLen, p.buffer
    ensures p.Valid()
    ensures var x := CbcEncrypted(c, old(p.buffer[..]), old(p.dataLen), random);
            ok == x.Some? && (ok ==> p.View() == x.value)
    ensures !ok ==> p.buffer[..HEAD_LEN] == old(p.buffer[..HEAD_LEN])
  {
    ghost var buf, len := p.buffer[..], p.dataLen;
    ghost var plain: Packet, x := buf[..len], CbcEncrypted(c, buf, len, random);
    assert |buf| == p.buffer.Length && |plain| == len && p.View() == plain;
    var tag, f := HeadTag(p.View()), c.FingerLen();
    var paddedLen := PaddedLen(p.dataLen - HEAD_LEN + RANDOM_RESERVED);
    assert x.Some? == CbcAccepts(f, paddedLen, len, |buf|);
    var body;
    ok, body := ExtendCbc(p, f, paddedLen, random[..4], plain);
    if ok {
      WriteCbc(c, p, tag, body, random, plain);
      ok := p.SetDataLen(HEAD_LEN + paddedLen + f);
      ok := ok && (f > 0 ==> p.dataLen - HEAD_LEN <= MAX_SECRET);
    }
    assert ok == x.Some?;
    if ok {
      Finish(c, p, tag, plain, CbcSecret(c, plain, random));
    }
  }

  method WriteCbc(c: Cipher, p: NetPacket, tag: seq<byte>, body: seq<byte>,
                  ghost random: seq<byte>, ghost plain: Packet)
    requires c.Valid() && tag == HeadTag(plain) && |random| == BLOCK && body == Payload(plain) + random[..4]
    requires HEAD_LEN + PaddedLen(|body|) <= p.buffer.Length && p.buffer[..HEAD_LEN] == Head(plain)
    modifies p.buffer
    ensures p.buffer[..HEAD_LEN + PaddedLen(|body|)] == Head(plain) + CbcSecret(c, plain, random)
    ensures p.buffer[..HEAD_LEN] == Head(plain)
  {
    WriteBlocks(p, c.suite.CbcEncrypt(c.CbcIv(tag), Pad(body)), Head(plain));
  }

  /** Makes room for the random number and the finger, appends the former, and looks whether the
      padding will fit the buffer; returns what is to be padded. */
  method ExtendCbc(p: NetPacket, f: nat, paddedLen: nat, random: seq<byte>, ghost plain: Packet)
    returns (ok: bool, body: seq<byte>)
    requires p.Valid() && |random| == RANDOM_RESERVED
    requires |plain| == p.dataLen && p.buffer[..p.dataLen] == plain
    modifies p`dataLen, p.buffer
    ensures p.Valid()
    ensures ok <==> && |plain| + RANDOM_RESERVED + f <= p.buffer.Length
                    && |plain| - HEAD_LEN + RANDOM_RESERVED + f <= MAX_SECRET
                    && HEAD_LEN + paddedLen <= p.buffer.Length
    ensures ok ==> body == Payload(plain) + random && |body| == |plain| - HEAD_LEN + RANDOM_RESERVED
    ensures p.buffer[..HEAD_LEN] == Head(plain)
  {
    var dataLen := p.dataLen;
    body := [];
    assert p.buffer[..dataLen][..HEAD_LEN] == p.buffer[..HEAD_LEN];
    ok := p.SetDataLen(dataLen + RANDOM_RESERVED + f);
    if !ok || p.dataLen - HEAD_LEN > MAX_SECRET {
      return false, [];
    }
    body := AppendRandom(p, dataLen, random, plain, []);
    assert Payload(plain) + [] + random == Payload(plain) + random;
    ok := HEAD_LEN + paddedLen <= p.buffer.Length;
  }

  /** If the blocks fit the buffer, but not the finger behind them, the packet has been marked already when
      that comes out. */
  method EncryptEcb(c: Cipher, p: NetPacket, random: seq<byte>) returns (ok: bool)
    requires c.Valid() && p.Valid() && |random| == BLOCK
    modifies p`dataLen, p.buffer
    ensures p.Valid()
    ensures var x := EcbEncrypted(c, old(p.buffer[..]), old(p.dataLen), random);
            ok == x.Some? && (ok ==> p.View() == x.value)
    ensures !ok ==> var blocks := PaddedLen(old(p.dataLen));
                    p.buffer[..HEAD_LEN] == Head(if blocks <= 5120 && HEAD_LEN + blocks <= p.buffer.Length
                                                 then WithFlag(old(p.View()), ENCRYPTED, true) else old(p.View()))
  {
    ghost var plain: Packet := p.buffer[..p.dataLen];
    // the cipher writes to an array of its own
    if PaddedLen(p.dataLen) > ECB_BUFFER {
      return false;
    }
    var ct := c.suite.EcbEncrypt(Pad(p.View()));
    ok := p.SetDataLen(HEAD_LEN + |ct|);
    if !ok {
      return false;
    }
    WriteBlocks(p, ct, Head(plain));
    SetEncrypted(p, plain, ct);
    ok := FinishEcb(c, p, plain, ct);
  }

  /** Adds the finger to a packet that has been marked. */
  method FinishEcb(c: Cipher, p: NetPacket, ghost plain: Packet, ghost ct: seq<byte>) returns (ok: bool)
    requires c.Valid() && p.Valid() && p.View() == Secret(plain, ct)
    modifies p`dataLen, p.buffer
    ensures p.Valid()
    ensures ok <==> HEAD_LEN + |ct| + c.FingerLen() <= p.buffer.Length
    ensures ok ==> p.View() == Secret(plain, Fingered(c, plain, ct))
    ensures !ok ==> p.buffer[..HEAD_LEN] == Head(Secret(plain, ct))
  {
    ghost var marked := Head(Secret(plain, ct));
    assert p.View() == marked + (ct + []);
    var tag := HeadTag(p.View());
    assert tag == HeadTag(plain);
    ok := p.SetDataLen(p.dataLen + c.FingerLen());
    if ok {
      SetFinger(c, p, tag, p.dataLen - c.FingerLen(), marked, ct, []);
      assert ct + [] == ct;
      assert Secret(plain, Fingered(c, plain, ct)) == marked + Fingered(c, plain, ct);
    }
  }

  method EncryptSm4(c: Cipher, p: NetPacket, random: seq<byte>) returns (ok: bool)
    requires c.Valid() && p.Valid() && |random| == BLOCK
    modifies p`dataLen, p.buffer
    ensures p.Valid()
    ensures var x := Sm4Encrypted(c, old(p.buffer[..]), old(p.dataLen), random);
            ok == x.Some? && (ok ==> p.View() == x.value)
    ensures !ok ==> p.buffer[..HEAD_LEN] == old(p.buffer[..HEAD_LEN])
  {
    ghost var plain: Packet := p.buffer[..p.dataLen];
    assert old(p.buffer[..])[..p.dataLen] == plain && p.buffer[..HEAD_LEN] == Head(plain);
    if p.dataLen > SM4_BUFFER - 32 {
      return false;
    }
    var tag := HeadTag(p.View());
    var ct := c.suite.CbcEncrypt(random, Pad(p.View()));
    ok := WriteSm4(c, p, ct, random, plain);
    if ok {
      Finish(c, p, tag, plain, Sm4Secret(c, plain, random));
    }
  }

  /** Replaces the payload by the blocks and the iv, and makes room for the finger. */
  method WriteSm4(c: Cipher, p: NetPacket, ct: seq<byte>, iv: seq<byte>, ghost plain: Packet) returns (ok: bool)
    requires p.Valid() && |iv| == BLOCK && p.buffer[..HEAD_LEN] == Head(plain)
    modifies p`dataLen, p.buffer
    ensures p.Valid()
    ensures ok <==> HEAD_LEN + |ct| + BLOCK + c.FingerLen() <= p.buffer.Length
    ensures ok ==> p.dataLen == HEAD_LEN + |ct| + BLOCK + c.FingerLen()
    ensures ok ==> p.buffer[..HEAD_LEN + |ct| + BLOCK] == Head(plain) + (ct + iv)
    ensures p.buffer[..HEAD_LEN] == Head(plain)
  {
    ok := p.SetDataLen(HEAD_LEN + |ct| + BLOCK);
    if ok {
      WriteSealed(p, ct, iv, Head(plain));
      ok := p.SetDataLen(p.dataLen + c.FingerLen());
    }
  }

  method XorPayload(p: NetPacket, key: seq<byte>)
    requires p.Valid() && |key| == 32
    modifies p.buffer
    ensures p.View() == Head(old(p.View())) + XorBytes(Payload(old(p.View())), key)
  {
    for i := HEAD_LEN to p.dataLen
      invariant forall j :: 0 <= j < HEAD_LEN || i <= j < p.dataLen ==> p.buffer[j] == old(p.buffer[j])
      invariant forall j :: HEAD_LEN <= j < i ==> p.buffer[j] == XorByte(old(p.buffer[j]), key[(j - HEAD_LEN) % 32])
    {
      p.buffer[i] := XorByte(p.buffer[i], key[(i - HEAD_LEN) % 32]);
    }
    ghost var was := old(p.View());
    assert p.View()[HEAD_LEN..] == XorBytes(Payload(was), key);
    assert p.View() == p.View()[..HEAD_LEN] + p.View()[HEAD_LEN..];
    assert p.View()[..HEAD_LEN] == Head(was);
  }

  /** Encrypts a packet, if the mode can: the buffer must have room for what the mode adds.  A failure
      leaves the head alone, except for the mark that AES-ECB may have set. */
  method EncryptIpv4(c: Cipher, p: NetPacket, random: seq<byte>) returns (ok: bool)
    requires c.Valid() && p.Valid() && |random| == BLOCK
    modifies p`dataLen, p.buffer
    ensures p.Valid()
    ensures var x := Encrypted(c, old(p.buffer[..]), old(p.dataLen), random);
            ok == x.Some? && (ok ==> p.View() == x.value)
    ensures !ok ==> var blocks := PaddedLen(old(p.dataLen));
                    p.buffer[..HEAD_LEN] == Head(if c.mode.AesEcb? && blocks <= 5120 && HEAD_LEN + blocks <= p.buffer.Length
                                                 then WithFlag(old(p.View()), ENCRYPTED, true) else old(p.View()))
  {
    assert p.buffer[..][..p.dataLen] == p.View() && p.buffer[..HEAD_LEN] == Head(p.View());
    match c.mode
    case Plain => ok := true;
    case Xor(key) =>
      ghost var plain := p.View();
      p.SetFlag(ENCRYPTED, true);
      XorPayload(p, key);
      assert Head(WithFlag(plain, ENCRYPTED, true)) == Head(Secret(plain, []));
      ok := true;
    case AesGcm => ok := EncryptGcm(c, p, random);
    case ChaCha20Poly1305 => ok := EncryptPoly(c, p, random);
    case ChaCha20 => ok := EncryptStream(c, p, random);
    case AesCbc => ok := EncryptCbc(c, p, random);
    case AesEcb => ok := EncryptEcb(c, p, random);
    case Sm4Cbc => ok := EncryptSm4(c, p, random);
  }

  // ----- decryption

  method DecryptGcm(c: Cipher, p: NetPacket) returns (ok: bool)
    requires c.Valid() && p.Valid() && HasFlag(p.View(), ENCRYPTED)
    modifies p`dataLen, p.buffer
    ensures p.Valid()
    ensures var x := GcmDecrypted(c, old(p.View())); ok == x.Some? && (ok ==> p.View() == x.value)
  {
    var secret := p.View();
    var tag, body, f := HeadTag(secret), Payload(secret), c.FingerLen();
    if |body| < AES_GCM_RESERVED || |body| > MAX_SECRET {
      return false;
    }
    var en := ButLast(body, f);
    ok := FingerMatches(c, tag, en, Last(body, f));
    if ok {
      var plain := c.suite.Open(tag, ButLast(en, TAG_RESERVED), Last(en, TAG_RESERVED));
      ok := plain.Some?;
      if ok {
        Reveal(p, plain.value, |body| - AES_GCM_RESERVED, secret);
      }
    }
  }

  method DecryptPoly(c: Cipher, p: NetPacket) returns (ok: bool)
    requires c.Valid() && p.Valid() && HasFlag(p.View(), ENCRYPTED)
    modifies p`dataLen, p.buffer
    ensures p.Valid()
    ensures var x := PolyDecrypted(c, old(p.View())); ok == x.Some? && (ok ==> p.View() == x.value)
  {
    var secret := p.View();
    var tag, body, f := HeadTag(secret), Payload(secret), c.FingerLen();
    if |body| < TAG_RESERVED + RANDOM_RESERVED + f || |body| > MAX_SECRET {
      return false;
    }
    var en := ButLast(body, f + RANDOM_RESERVED);
    ok := FingerMatches(c, tag, en, Last(body, f));
    if ok {
      var nonce := Nonce(tag, Last(ButLast(body, f), RANDOM_RESERVED));
      var plain := c.suite.Open(nonce, ButLast(en, TAG_RESERVED), Last(en, TAG_RESERVED));
      ok := plain.Some?;
      if ok {
        Reveal(p, plain.value, |plain.value|, secret);
      }
    }
  }

  method DecryptStream(c: Cipher, p: NetPacket) returns (ok: bool)
    requires c.Valid() && p.Valid() && HasFlag(p.View(), ENCRYPTED)
    modifies p`dataLen, p.buffer
    ensures p.Valid()
    ensures var x := StreamDecrypted(c, old(p.View())); ok == x.Some? && (ok ==> p.View() == x.value)
  {
    var secret := p.View();
    var tag, body, f := HeadTag(secret), Payload(secret), c.FingerLen();
    if |body| < RANDOM_RESERVED + f || |body| > MAX_SECRET {
      return false;
    }
    var en := ButLast(body, f + RANDOM_RESERVED);
    ok := FingerMatches(c, tag, en, Last(body, f));
    if ok {
      var plain := c.suite.Keystream(Nonce(tag, Last(ButLast(body, f), RANDOM_RESERVED)), en);
      Reveal(p, plain, |plain|, secret);
    }
  }

  method DecryptCbc(c: Cipher, p: NetPacket) returns (ok: bool)
    requires c.Valid() && p.Valid() && HasFlag(p.View(), ENCRYPTED)
    modifies p`dataLen, p.buffer
    ensures p.Valid()
    ensures var x := CbcDecrypted(c, old(p.View())); ok == x.Some? && (ok ==> p.View() == x.value)
  {
    var secret := p.View();
    var tag, body, f := HeadTag(secret), Payload(secret), c.FingerLen();
    if |body| < BLOCK || |body| > MAX_SECRET {
      return false;
    }
    var en := ButLast(body, f);
    ok := FingerMatches(c, tag, en, Last(body, f));
    if !ok || !WholeBlocks(|en|) {
      return false;
    }
    var plain := Unpad(c.suite.CbcDecrypt(c.CbcIv(tag), en));
    // without the random number there is nothing left to keep
    ok := plain.Some? && |plain.value| >= RANDOM_RESERVED;
    if ok {
      Reveal(p, plain.value, |plain.value| - RANDOM_RESERVED, secret);
    }
  }

  /** Puts the payload of the inner packet of a whole-packet mode in place, if the heads agree. */
  method Unwrap(p: NetPacket, inner: Option<seq<byte>>, secret: Packet) returns (ok: bool)
    requires p.Valid() && (inner.Some? ==> |inner.value| <= p.dataLen)
    requires Head(p.View()) == Head(secret)
    modifies p`dataLen, p.buffer
    ensures p.Valid()
    ensures var x := Unwrapped(secret, inner); ok == x.Some? && (ok ==> p.View() == x.value)
  {
    ok := inner.Some? && |inner.value| >= HEAD_LEN && HeadTag(inner.value) == HeadTag(secret);
    if ok {
      var payload := Payload(inner.value);
      Reveal(p, payload, |payload|, secret);
    }
  }

  method DecryptEcb(c: Cipher, p: NetPacket) returns (ok: bool)
    requires c.Valid() && p.Valid() && HasFlag(p.View(), ENCRYPTED)
    modifies p`dataLen, p.buffer
    ensures p.Valid()
    ensures var x := EcbDecrypted(c, old(p.View())); ok == x.Some? && (ok ==> p.View() == x.value)
  {
    var secret := p.View();
    var tag, body, f := HeadTag(secret), Payload(secret), c.FingerLen();
    if |body| < f {
      return false;
    }
    var en := ButLast(body, f);
    ok := FingerMatches(c, tag, en, Last(body, f));
    if !ok || |en| < BLOCK || !WholeBlocks(|en|) || |en| > ECB_BUFFER {
      return false;
    }
    ok := Unwrap(p, Unpad(c.suite.EcbDecrypt(en)), secret);
  }

  method DecryptSm4(c: Cipher, p: NetPacket) returns (ok: bool)
    requires c.Valid() && p.Valid() && HasFlag(p.View(), ENCRYPTED)
    modifies p`dataLen, p.buffer
    ensures p.Valid()
    ensures var x := Sm4Decrypted(c, old(p.View())); ok == x.Some? && (ok ==> p.View() == x.value)
  {
    var secret := p.View();
    var tag, body, f := HeadTag(secret), Payload(secret), c.FingerLen();
    if |body| < f {
      return false;
    }
    var en := ButLast(body, f);
    ok := FingerMatches(c, tag, en, Last(body, f));
    if !ok || |en| < BLOCK || |en| > SM4_BUFFER || !WholeBlocks(|en|) {
      return false;
    }
    ok := Unwrap(p, Unpad(c.suite.CbcDecrypt(Last(en, BLOCK), ButLast(en, BLOCK))), secret);
  }

  /** Decrypts a packet in place, or refuses it. */
  method DecryptIpv4(c: Cipher, p: NetPacket) returns (ok: bool)
    requires c.Valid() && p.Valid()
    modifies p`dataLen, p.buffer
    ensures p.Valid()
    ensures var x := Decrypted(c, old(p.View())); ok == x.Some? && (ok ==> p.View() == x.value)
  {
    if c.mode.Plain? {
      return !HasFlag(p.View(), ENCRYPTED);
    }
    if !HasFlag(p.View(), ENCRYPTED) {
      return false;
    }
    match c.mode
    case Xor(key) =>
      ghost var secret := p.View();
      XorPayload(p, key);
      p.SetFlag(ENCRYPTED, false);
      assert p.View() == Revealed(secret, XorBytes(Payload(secret), key));
      ok := true;
    case AesGcm => ok := DecryptGcm(c, p);
    case ChaCha20Poly1305 => ok := DecryptPoly(c, p);
    case ChaCha20 => ok := DecryptStream(c, p);
    case AesCbc => ok := DecryptCbc(c, p);
    case AesEcb => ok := DecryptEcb(c, p);
    case Sm4Cbc => ok := DecryptSm4(c, p);
  }
}
