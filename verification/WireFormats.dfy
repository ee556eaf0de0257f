/**
What the ciphers put on the wire and what they take off it, byte by byte and in terms of the primitives:
the layouts, the fingers, the nonces, and where a random number makes a difference.
*/
module WireFormats {
  import opened Wrappers
  import opened Net
  import opened Bits
  import opened Packets
  import opened Ciphers

  /** The finger over a tag and some bytes, empty without a token. */
  ghost function FingerOver(c: Cipher, tag: seq<byte>, bytes: seq<byte>): seq<byte>
    requires c.suite.Lawful()
  {
    assert c.suite.HashLaw(tag + bytes + if c.finger.Some? then c.finger.value else []);
    if c.finger.Some? then c.suite.sha256(tag + bytes + c.finger.value)[20..] else []
  }

  /** The check asks for the mark, and for the hash of the tag, the body and the token in the last twelve
      bytes. */
  lemma KeylessCheckExactly(c: Cipher, p: Packet)
    requires c.Valid() && c.finger.Some?
    ensures KeylessCheck(c, p)
      <==> && p[0] / 0x80 % 2 == 1 && |p| >= 24
           && p[|p| - 12..] == FingerOver(c, HeadTag(p), p[12..|p| - 12])
  {
    if |p| >= 24 {
      assert ButLast(Payload(p), FINGER_RESERVED) == p[12..|p| - 12];
      assert Last(Payload(p), FINGER_RESERVED) == p[|p| - 12..];
    }
  }

  // ----- what travels

  /** The bytes of an encrypted packet: its head with the mark, then what the primitives make of payload or
      packet, the tag as nonce or iv, the random number where the receiver looks for it, and the finger
      last. */
  lemma WireLayout(c: Cipher, buf: seq<byte>, len: nat, random: seq<byte>)
    requires c.Valid() && Encryptable(c, buf, len, random) && Encrypted(c, buf, len, random).Some?
    ensures var x, p := Encrypted(c, buf, len, random).value, buf[..len];
            var tag, r, plain := HeadTag(p), random[..4], p[12..];
      match c.mode
      case Plain => x == p
      case Xor(key) => |x| == len && forall i :: 0 <= i < |plain| ==> x[12 + i] == XorByte(plain[i], key[i % 32])
      case AesGcm =>
        var (ct, t) := c.suite.seal(tag, plain + buf[len..len + (if c.finger.Some? then 0 else 12)] + r);
        x[12..] == ct + t + FingerOver(c, tag, ct + t)
      case ChaCha20Poly1305 =>
        var (ct, t) := c.suite.seal(Nonce(tag, r), plain);
        x[12..] == ct + t + r + FingerOver(c, tag, ct + t)
      case ChaCha20 =>
        var ct := c.suite.keystream(Nonce(tag, r), plain);
        x[12..] == ct + r + FingerOver(c, tag, ct)
      case AesCbc =>
        var iv := tag + if c.finger.Some? then c.finger.value[..4] else [0, 0, 0, 0];
        var ct := c.suite.cbcEncrypt(iv, Pad(plain + r));
        x[12..] == ct + FingerOver(c, tag, ct)
      case AesEcb =>
        var ct := c.suite.ecbEncrypt(Pad(p));
        x[12..] == ct + FingerOver(c, tag, ct)
      case Sm4Cbc =>
        var ct := c.suite.cbcEncrypt(random, Pad(p));
        x[12..] == ct + random + FingerOver(c, tag, ct + random)
  {
  }

  /** The nonce keeps the addresses and takes in the random number, so that different numbers give different
      nonces. */
  lemma NonceMixes(tag: seq<byte>, r: seq<byte>, r': seq<byte>)
    requires |tag| == 12 && |r| == |r'| == 4
    ensures Nonce(tag, r)[..8] == tag[..8]
    ensures forall i :: 0 <= i < 4 ==> Nonce(tag, r)[8 + i] == XorByte(r[i], tag[8 + i])
    ensures Nonce(tag, r) == Nonce(tag, r') <==> r == r'
  {
    if Nonce(tag, r) == Nonce(tag, r') {
      forall i | 0 <= i < 4 ensures r[i] == r'[i] {
        EightBits();
        assert Nonce(tag, r)[8 + i] == Nonce(tag, r')[8 + i];
        XorUndone(8, r[i], tag[8 + i]);
        XorUndone(8, r'[i], tag[8 + i]);
      }
    }
  }

  lemma XorByteAt(a: byte, b: byte, k: nat)
    requires k < 8
    ensures Bit(k, XorByte(a, b)) == 1 <==> Bit(k, a) != Bit(k, b)
  {
    EightBits();
    XorBitsAt(8, a, b, k);
  }

  // ----- where the random number makes a difference

  lemma GcmIsRandom(c: Cipher, p: Packet, filler: seq<byte>, random: seq<byte>, random': seq<byte>)
    requires c.Valid() && |filler| + c.FingerLen() == FINGER_RESERVED && |random| == |random'| == BLOCK
    requires GcmBody(c, p, filler, random) == GcmBody(c, p, filler, random')
    ensures random[..4] == random'[..4]
  {
    var x, x' := Payload(p) + filler + random[..4], Payload(p) + filler + random'[..4];
    var tag := HeadTag(p);
    assert c.suite.SealLaw(tag, x) && c.suite.SealLaw(tag, x');
    FingerChecks(c, p, GcmSecret(c, p, filler, random), tag);
    FingerChecks(c, p, GcmSecret(c, p, filler, random'), tag);
    var (ct, t) := c.suite.Seal(tag, x);
    var (ct', t') := c.suite.Seal(tag, x');
    SplitBack(ct, t);
    SplitBack(ct', t');
    assert x == x';
    SplitBack(Payload(p) + filler, random[..4]);
    SplitBack(Payload(p) + filler, random'[..4]);
  }

  lemma PolyIsRandom(c: Cipher, p: Packet, random: seq<byte>, random': seq<byte>)
    requires c.Valid() && |random| == |random'| == BLOCK
    requires PolyBody(c, p, random) == PolyBody(c, p, random')
    ensures random[..4] == random'[..4]
  {
    var (ct, t) := c.suite.Seal(Nonce(HeadTag(p), random[..4]), Payload(p));
    var (ct', t') := c.suite.Seal(Nonce(HeadTag(p), random'[..4]), Payload(p));
    SplitBack(ct + t + random[..4], c.Finger(HeadTag(p), ct + t));
    SplitBack(ct' + t' + random'[..4], c.Finger(HeadTag(p), ct' + t'));
    SplitBack(ct + t, random[..4]);
    SplitBack(ct' + t', random'[..4]);
  }

  lemma StreamIsRandom(c: Cipher, p: Packet, random: seq<byte>, random': seq<byte>)
    requires c.Valid() && |random| == |random'| == BLOCK
    requires StreamBody(c, p, random) == StreamBody(c, p, random')
    ensures random[..4] == random'[..4]
  {
    var ct := c.suite.Keystream(Nonce(HeadTag(p), random[..4]), Payload(p));
    var ct' := c.suite.Keystream(Nonce(HeadTag(p), random'[..4]), Payload(p));
    SplitBack(ct + random[..4], c.Finger(HeadTag(p), ct));
    SplitBack(ct' + random'[..4], c.Finger(HeadTag(p), ct'));
    SplitBack(ct, random[..4]);
    SplitBack(ct', random'[..4]);
  }

  lemma CbcIsRandom(c: Cipher, p: Packet, random: seq<byte>, random': seq<byte>)
    requires c.Valid() && |random| == |random'| == BLOCK
    requires CbcBody(c, p, random) == CbcBody(c, p, random')
    ensures random[..4] == random'[..4]
  {
    var iv := c.CbcIv(HeadTag(p));
    FingerChecks(c, p, CbcSecret(c, p, random), HeadTag(p));
    FingerChecks(c, p, CbcSecret(c, p, random'), HeadTag(p));
    CbcUndone(c, iv, Payload(p) + random[..4]);
    CbcUndone(c, iv, Payload(p) + random'[..4]);
    SplitBack(Payload(p), random[..4]);
    SplitBack(Payload(p), random'[..4]);
  }

  lemma Sm4IsRandom(c: Cipher, p: Packet, random: seq<byte>, random': seq<byte>)
    requires c.Valid() && |random| == |random'| == BLOCK
    requires Sm4Body(c, p, random) == Sm4Body(c, p, random')
    ensures random == random'
  {
    FingerChecks(c, p, Sm4Secret(c, p, random), HeadTag(p));
    FingerChecks(c, p, Sm4Secret(c, p, random'), HeadTag(p));
    SplitBack(c.suite.CbcEncrypt(random, Pad(p)), random);
    SplitBack(c.suite.CbcEncrypt(random', Pad(p)), random');
  }

  /** The same packet is encrypted to the same bytes twice exactly if the mode uses no random number, or the
      part it uses is the same: four bytes, or all sixteen for SM4. */
  lemma SameBytesExactly(c: Cipher, buf: seq<byte>, len: nat, random: seq<byte>, random': seq<byte>)
    requires c.Valid() && Encryptable(c, buf, len, random) && Encryptable(c, buf, len, random')
    requires Encrypted(c, buf, len, random).Some? && Encrypted(c, buf, len, random').Some?
    ensures Encrypted(c, buf, len, random) == Encrypted(c, buf, len, random')
      <==> || c.mode.Plain? || c.mode.Xor? || c.mode.AesEcb?
           || random == random'
           || (!c.mode.Sm4Cbc? && random[..4] == random'[..4])
  {
    var p: Packet := buf[..len];
    var x, x' := Encrypted(c, buf, len, random).value, Encrypted(c, buf, len, random').value;
    if x == x' {
      match c.mode
      case AesGcm =>
        var filler := buf[len..len + FINGER_RESERVED - c.FingerLen()];
        SecretPayload(p, GcmBody(c, p, filler, random));
        SecretPayload(p, GcmBody(c, p, filler, random'));
        GcmIsRandom(c, p, filler, random, random');
      case ChaCha20Poly1305 =>
        SecretPayload(p, PolyBody(c, p, random));
        SecretPayload(p, PolyBody(c, p, random'));
        PolyIsRandom(c, p, random, random');
      case ChaCha20 =>
        SecretPayload(p, StreamBody(c, p, random));
        SecretPayload(p, StreamBody(c, p, random'));
        StreamIsRandom(c, p, random, random');
      case AesCbc =>
        SecretPayload(p, CbcBody(c, p, random));
        SecretPayload(p, CbcBody(c, p, random'));
        CbcIsRandom(c, p, random, random');
      case Sm4Cbc =>
        SecretPayload(p, Sm4Body(c, p, random));
        SecretPayload(p, Sm4Body(c, p, random'));
        Sm4IsRandom(c, p, random, random');
      case _ =>
    }
  }

  // ----- what is accepted

  /** A packet that decrypts carries the right finger, if there is a token: over everything before it, except
      that the ChaCha modes leave out the random number. */
  lemma AcceptedHasFinger(c: Cipher, p: Packet)
    requires c.Valid() && c.finger.Some? && Decrypted(c, p).Some? && !c.mode.Plain? && !c.mode.Xor?
    ensures var covered := |p| - if c.mode.ChaCha20Poly1305? || c.mode.ChaCha20? then 16 else 12;
            covered >= 12 && p[|p| - 12..] == FingerOver(c, HeadTag(p), p[12..covered])
  {
    var body := Payload(p);
    assert Last(body, 12) == p[|p| - 12..];
    if c.mode.ChaCha20Poly1305? || c.mode.ChaCha20? {
      assert ButLast(body, 16) == p[12..|p| - 16];
    } else {
      assert ButLast(body, 12) == p[12..|p| - 12];
    }
  }

  /** What is delivered comes out of the primitives: opened under the tag as nonce, or padded plaintext, or a
      padded packet inside that repeats the tag; and the head stays but for the mark. */
  ghost predicate Opened(c: Cipher, p: Packet, x: Packet)
    requires c.Valid()
  {
    var tag, f := HeadTag(p), if c.finger.Some? then 12 else 0;
    var n := |p| - f;
    && p[0] / 0x80 % 2 == 1 && x[..12] == WithFlag(p, ENCRYPTED, false)[..12]
    && match c.mode
       case AesGcm =>
         && 44 <= |p| <= 65507
         && var y := c.suite.open(tag, p[12..n - 16], p[n - 16..n]);
            y.Some? && |p| - 44 <= |y.value| && x[12..] == y.value[..|p| - 44]
       case ChaCha20Poly1305 =>
         && n >= 32 && |p| <= 65507
         && c.suite.open(Nonce(tag, p[n - 4..n]), p[12..n - 20], p[n - 20..n - 4]) == Some(x[12..])
       case ChaCha20 =>
         n >= 16 && |p| <= 65507 && x[12..] == c.suite.keystream(Nonce(tag, p[n - 4..n]), p[12..n - 4])
       case AesCbc =>
         && n >= 12 && |p| <= 65507
         && var plain := c.suite.cbcDecrypt(CbcIvOf(c, tag), p[12..n]); exists r :: IsPadded(plain, x[12..], r)
       case AesEcb => n >= 12 && var plain := c.suite.ecbDecrypt(p[12..n]); exists inner :: Wraps(plain, inner, tag, x)
       case Sm4Cbc =>
         && n >= 28
         && var plain := c.suite.cbcDecrypt(p[n - 16..n], p[12..n - 16]); exists inner :: Wraps(plain, inner, tag, x)
       case _ => true
  }

  ghost function CbcIvOf(c: Cipher, tag: seq<byte>): seq<byte> {
    tag + if c.finger.Some? && |c.finger.value| >= 4 then c.finger.value[..4] else [0, 0, 0, 0]
  }

  /** A payload and a random number, padded. */
  ghost predicate IsPadded(plain: seq<byte>, payload: seq<byte>, r: seq<byte>) {
    |r| == 4 && plain == Pad(payload + r)
  }

  /** A packet with the tag and the payload of `x`, padded. */
  ghost predicate Wraps(plain: seq<byte>, inner: Packet, tag: seq<byte>, x: Packet) {
    plain == Pad(inner) && HeadTag(inner) == tag && x[12..] == inner[12..]
  }

  /** The end of a slice comes off as a slice. */
  lemma TakeOff(p: seq<byte>, from: nat, to: nat, k: nat)
    requires from + k <= to <= |p|
    ensures ButLast(p[from..to], k) == p[from..to - k] && Last(p[from..to], k) == p[to - k..to]
  {
  }

  lemma GcmIsOpened(c: Cipher, p: Packet)
    requires c.Valid() && c.mode.AesGcm? && Decrypted(c, p).Some?
    ensures Opened(c, p, Decrypted(c, p).value)
  {
    var body, f, x := Payload(p), c.FingerLen(), Decrypted(c, p).value;
    assert p[12..|p|] == body;
    TakeOff(p, 12, |p|, f);
    TakeOff(p, 12, |p| - f, 16);
    RevealedParts(p, x[12..]);
  }

  lemma PolyIsOpened(c: Cipher, p: Packet)
    requires c.Valid() && c.mode.ChaCha20Poly1305? && Decrypted(c, p).Some?
    ensures Opened(c, p, Decrypted(c, p).value)
  {
    var body, f, x := Payload(p), c.FingerLen(), Decrypted(c, p).value;
    var n := |p| - f;
    assert p[12..|p|] == body;
    TakeOff(p, 12, |p|, f);
    TakeOff(p, 12, |p|, f + 4);
    TakeOff(p, 12, n, 4);
    TakeOff(p, 12, n - 4, 16);
    RevealedParts(p, x[12..]);
  }

  lemma StreamIsOpened(c: Cipher, p: Packet)
    requires c.Valid() && c.mode.ChaCha20? && Decrypted(c, p).Some?
    ensures Opened(c, p, Decrypted(c, p).value)
  {
    var body, f, x := Payload(p), c.FingerLen(), Decrypted(c, p).value;
    var n := |p| - f;
    assert p[12..|p|] == body;
    TakeOff(p, 12, |p|, f);
    TakeOff(p, 12, |p|, f + 4);
    TakeOff(p, 12, n, 4);
    RevealedParts(p, x[12..]);
  }

  lemma CbcIsOpened(c: Cipher, p: Packet)
    requires c.Valid() && c.mode.AesCbc? && Decrypted(c, p).Some?
    ensures Opened(c, p, Decrypted(c, p).value)
  {
    var f, x := c.FingerLen(), Decrypted(c, p).value;
    var en := ButLast(Payload(p), f);
    assert en == p[12..|p| - f];
    var padded := c.suite.CbcDecrypt(c.CbcIv(HeadTag(p)), en);
    var plain := Unpad(padded).value;
    PadUnpad(padded);
    RevealedParts(p, ButLast(plain, 4));
    assert x[12..] + Last(plain, 4) == plain;
    assert IsPadded(padded, x[12..], Last(plain, 4));
  }

  lemma EcbIsOpened(c: Cipher, p: Packet)
    requires c.Valid() && c.mode.AesEcb? && Decrypted(c, p).Some?
    ensures Opened(c, p, Decrypted(c, p).value)
  {
    var f, x := c.FingerLen(), Decrypted(c, p).value;
    var en := ButLast(Payload(p), f);
    assert en == p[12..|p| - f];
    WrappedIsOpened(p, c.suite.EcbDecrypt(en), x);
  }

  lemma Sm4IsOpened(c: Cipher, p: Packet)
    requires c.Valid() && c.mode.Sm4Cbc? && Decrypted(c, p).Some?
    ensures Opened(c, p, Decrypted(c, p).value)
  {
    var f, x := c.FingerLen(), Decrypted(c, p).value;
    var en := ButLast(Payload(p), f);
    assert p[12..|p|] == Payload(p);
    TakeOff(p, 12, |p|, f);
    TakeOff(p, 12, |p| - f, 16);
    WholeBlocksAreMultiples(|en|);
    WholeBlocksAreMultiples(|en| - 16);
    WrappedIsOpened(p, c.suite.CbcDecrypt(Last(en, BLOCK), ButLast(en, BLOCK)), x);
  }

  lemma WrappedIsOpened(p: Packet, padded: seq<byte>, x: Packet)
    requires WholeBlocks(|padded|) && Unwrapped(p, Unpad(padded)) == Some(x)
    ensures Wraps(padded, Unpad(padded).value, HeadTag(p), x) && x[..12] == WithFlag(p, ENCRYPTED, false)[..12]
  {
    PadUnpad(padded);
    RevealedParts(p, Payload(Unpad(padded).value));
  }

  lemma RevealedParts(p: Packet, payload: seq<byte>)
    ensures Revealed(p, payload)[..12] == WithFlag(p, ENCRYPTED, false)[..12] && Revealed(p, payload)[12..] == payload
  {
  }

  lemma AcceptedIsOpened(c: Cipher, p: Packet)
    requires c.Valid() && Decrypted(c, p).Some? && !c.mode.Plain? && !c.mode.Xor?
    ensures Opened(c, p, Decrypted(c, p).value)
  {
    match c.mode
    case AesGcm => GcmIsOpened(c, p);
    case ChaCha20Poly1305 => PolyIsOpened(c, p);
    case ChaCha20 => StreamIsOpened(c, p);
    case AesCbc => CbcIsOpened(c, p);
    case AesEcb => EcbIsOpened(c, p);
    case Sm4Cbc => Sm4IsOpened(c, p);
  }
}
