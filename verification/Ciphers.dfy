/**
What encrypting and decrypting do to a packet, for every cipher the engine offers.

The block, stream and authenticated ciphers and the hash are not modelled: a `Suite` is any
functions that satisfy their laws.  Padding, layouts, limits and the checks on the head are.
*/
module Ciphers {
  import opened Wrappers
  import opened Net
  import opened Bits
  import opened Packets

  const BLOCK := 16
  const RANDOM_RESERVED := 4
  const FINGER_RESERVED := 12
  const TAG_RESERVED := 16
  const AES_GCM_RESERVED := 32
  /** The longest payload of the authenticated, stream and AES-CBC layouts. */
  const MAX_SECRET := 65495
  const ECB_BUFFER := 5120
  const SM4_BUFFER := 4096

  /** The primitives under one key. */
  datatype Suite = Suite(
    sha256: seq<byte> -> seq<byte>,
    seal: (seq<byte>, seq<byte>) -> (seq<byte>, seq<byte>),
    open: (seq<byte>, seq<byte>, seq<byte>) -> Option<seq<byte>>,
    keystream: (seq<byte>, seq<byte>) -> seq<byte>,
    cbcEncrypt: (seq<byte>, seq<byte>) -> seq<byte>,
    cbcDecrypt: (seq<byte>, seq<byte>) -> seq<byte>,
    ecbEncrypt: seq<byte> -> seq<byte>,
    ecbDecrypt: seq<byte> -> seq<byte>)
  {
    predicate HashLaw(x: seq<byte>) {
      |sha256(x)| == 32
    }

    predicate SealLaw(n: seq<byte>, x: seq<byte>) {
      var (ct, t) := seal(n, x);
      |ct| == |x| && |t| == TAG_RESERVED && open(n, ct, t) == Some(x)
    }

    predicate OpenLaw(n: seq<byte>, x: seq<byte>, t: seq<byte>) {
      open(n, x, t).Some? ==> |open(n, x, t).value| == |x|
    }

    predicate StreamLaw(n: seq<byte>, x: seq<byte>) {
      |keystream(n, x)| == |x| && keystream(n, keystream(n, x)) == x
    }

    predicate CbcLaw(iv: seq<byte>, x: seq<byte>) {
      && |cbcEncrypt(iv, x)| == |x| == |cbcDecrypt(iv, x)|
      && (WholeBlocks(|x|) ==> cbcDecrypt(iv, cbcEncrypt(iv, x)) == x)
    }

    predicate EcbLaw(x: seq<byte>) {
      && |ecbEncrypt(x)| == |x| == |ecbDecrypt(x)|
      && (WholeBlocks(|x|) ==> ecbDecrypt(ecbEncrypt(x)) == x)
    }

    /** Lengths, and decryption undoes encryption under the same nonce or iv. */
    ghost predicate Lawful() {
      && (forall x :: HashLaw(x))
      && (forall n, x :: SealLaw(n, x))
      && (forall n, x, t :: OpenLaw(n, x, t))
      && (forall n, x :: StreamLaw(n, x))
      && (forall iv, x :: CbcLaw(iv, x))
      && (forall x :: EcbLaw(x))
    }

    // the primitives with what is known of their lengths

    function Hash(x: seq<byte>): (r: seq<byte>)
      requires Lawful()
      ensures |r| == 32
    {
      assert HashLaw(x);
      sha256(x)
    }

    function Seal(n: seq<byte>, x: seq<byte>): (r: (seq<byte>, seq<byte>))
      requires Lawful()
      ensures |r.0| == |x| && |r.1| == TAG_RESERVED
    {
      assert SealLaw(n, x);
      seal(n, x)
    }

    function Open(n: seq<byte>, x: seq<byte>, t: seq<byte>): (r: Option<seq<byte>>)
      requires Lawful()
      ensures r.Some? ==> |r.value| == |x|
    {
      assert OpenLaw(n, x, t);
      open(n, x, t)
    }

    function Keystream(n: seq<byte>, x: seq<byte>): (r: seq<byte>)
      requires Lawful()
      ensures |r| == |x|
    {
      assert StreamLaw(n, x);
      keystream(n, x)
    }

    function CbcEncrypt(iv: seq<byte>, x: seq<byte>): (r: seq<byte>)
      requires Lawful()
      ensures |r| == |x|
    {
      assert CbcLaw(iv, x);
      cbcEncrypt(iv, x)
    }

    function CbcDecrypt(iv: seq<byte>, x: seq<byte>): (r: seq<byte>)
      requires Lawful()
      ensures |r| == |x|
    {
      assert CbcLaw(iv, x);
      cbcDecrypt(iv, x)
    }

    function EcbEncrypt(x: seq<byte>): (r: seq<byte>)
      requires Lawful()
      ensures |r| == |x|
    {
      assert EcbLaw(x);
      ecbEncrypt(x)
    }

    function EcbDecrypt(x: seq<byte>): (r: seq<byte>)
      requires Lawful()
      ensures |r| == |x|
    {
      assert EcbLaw(x);
      ecbDecrypt(x)
    }
  }

  datatype Mode = AesGcm | AesCbc | AesEcb | ChaCha20Poly1305 | ChaCha20 | Sm4Cbc | Xor(key: seq<byte>) | Plain

  /** `finger` is the hash of the group token, when fingers are on. */
  datatype Cipher = Cipher(mode: Mode, suite: Suite, finger: Option<seq<byte>>) {
    ghost predicate Valid() {
      && suite.Lawful()
      && (finger.Some? ==> |finger.value| == 32)
      && (mode.Xor? ==> |mode.key| == 32)
    }

    function FingerLen(): nat {
      if finger.Some? then FINGER_RESERVED else 0
    }

    /** The finger of a body, empty when fingers are off. */
    function Finger(tag: seq<byte>, body: seq<byte>): (f: seq<byte>)
      requires suite.Lawful()
      ensures |f| == FingerLen()
    {
      if finger.Some? then suite.Hash(tag + body + finger.value)[20..] else []
    }

    function CbcIv(tag: seq<byte>): seq<byte>
      requires Valid()
    {
      tag + if finger.Some? then finger.value[..4] else [0, 0, 0, 0]
    }
  }

  // ----- PKCS #7 padding (section 6.3 of RFC 5652) to blocks of 16

  predicate WholeBlocks(n: nat) {
    n == 0 || (n >= BLOCK && WholeBlocks(n - BLOCK))
  }

  lemma {:induction false} WholeBlocksAreMultiples(n: nat)
    ensures WholeBlocks(n) <==> n % BLOCK == 0
  {
    if n >= BLOCK {
      WholeBlocksAreMultiples(n - BLOCK);
    }
  }

  /** The next whole number of blocks, one more block if the length is whole already. */
  function PaddedLen(n: nat): (r: nat)
    ensures n < r <= n + BLOCK && WholeBlocks(r)
  {
    if n < BLOCK then BLOCK else BLOCK + PaddedLen(n - BLOCK)
  }

  function Pad(x: seq<byte>): (r: seq<byte>)
    ensures |r| == PaddedLen(|x|)
    ensures r[..|x|] == x
    // each byte that is added says how many there are
    ensures forall i :: |x| <= i < |r| ==> r[i] == |r| - |x|
  {
    var n := PaddedLen(|x|) - |x|;
    x + seq(n, _ => n)
  }

  function Unpad(y: seq<byte>): (r: Option<seq<byte>>)
    ensures r.Some? ==> |y| - BLOCK <= |r.value| < |y|
  {
    if |y| == 0 then None
    else
      var n := y[|y| - 1];
      if 1 <= n <= BLOCK && n <= |y| && forall i :: |y| - n <= i < |y| ==> y[i] == n
      then Some(y[..|y| - n]) else None
  }

  lemma UnpadPad(x: seq<byte>)
    ensures Unpad(Pad(x)) == Some(x)
  {
  }

  lemma {:induction false} PaddedLenIsNext(n: nat, r: nat)
    requires WholeBlocks(r) && n < r <= n + BLOCK
    ensures PaddedLen(n) == r
  {
    if n >= BLOCK {
      PaddedLenIsNext(n - BLOCK, r - BLOCK);
    }
  }

  lemma {:induction false} PaddedLenFits(n: nat, room: nat)
    requires WholeBlocks(room)
    ensures PaddedLen(n) <= room <==> n < room
  {
    if n >= BLOCK && room >= BLOCK {
      PaddedLenFits(n - BLOCK, room - BLOCK);
    }
  }

  /** Unpadding accepts only what padding produces. */
  lemma PadUnpad(y: seq<byte>)
    requires WholeBlocks(|y|) && Unpad(y).Some?
    ensures Pad(Unpad(y).value) == y
  {
    PaddedLenIsNext(|Unpad(y).value|, |y|);
  }

  // ----- helpers of the layouts

  function Last(x: seq<byte>, n: nat): seq<byte>
    requires n <= |x|
  {
    x[|x| - n..]
  }

  function ButLast(x: seq<byte>, n: nat): seq<byte>
    requires n <= |x|
  {
    x[..|x| - n]
  }

  function XorByte(a: byte, b: byte): byte {
    EightBits();
    XorBits(8, a, b)
  }

  function XorBytes(x: seq<byte>, key: seq<byte>): (r: seq<byte>)
    requires |key| == 32
    ensures |r| == |x|
  {
    seq(|x|, i requires 0 <= i < |x| => XorByte(x[i], key[i % 32]))
  }

  /** Mixes four random bytes into the last four of the tag. */
  function Nonce(tag: seq<byte>, random: seq<byte>): seq<byte>
    requires |tag| == 12 && |random| == 4
  {
    tag[..8] + seq(4, i requires 0 <= i < 4 => XorByte(random[i], tag[8 + i]))
  }

  /** The packet with the head of `p`, marked as encrypted, and a new payload. */
  function Secret(p: Packet, payload: seq<byte>): Packet {
    Head(WithFlag(p, ENCRYPTED, true)) + payload
  }

  function Revealed(p: Packet, payload: seq<byte>): Packet {
    Head(WithFlag(p, ENCRYPTED, false)) + payload
  }

  // ----- encryption
  //
  // Each function encrypts the first `len` bytes of a buffer, if the result fits the buffer and the
  // limits of the mode.  `random` is what the random number generator returns.

  predicate Encryptable(c: Cipher, buf: seq<byte>, len: nat, random: seq<byte>) {
    HEAD_LEN <= len <= |buf| && |random| == BLOCK
  }

  /** A body and the finger over it and the tag. */
  function Fingered(c: Cipher, p: Packet, en: seq<byte>): (r: seq<byte>)
    requires c.Valid()
    ensures |r| == |en| + c.FingerLen()
  {
    en + c.Finger(HeadTag(p), en)
  }

  /** payload, random, tag, finger; without finger twelve filler bytes are sealed along. */
  function GcmBody(c: Cipher, p: Packet, filler: seq<byte>, random: seq<byte>): (r: seq<byte>)
    requires c.Valid() && |filler| + c.FingerLen() == FINGER_RESERVED && |random| == BLOCK
    ensures |r| == |Payload(p)| + AES_GCM_RESERVED
  {
    Fingered(c, p, GcmSecret(c, p, filler, random))
  }

  function GcmSecret(c: Cipher, p: Packet, filler: seq<byte>, random: seq<byte>): (r: seq<byte>)
    requires c.Valid() && |filler| + c.FingerLen() == FINGER_RESERVED && |random| == BLOCK
    ensures |r| + c.FingerLen() == |Payload(p)| + AES_GCM_RESERVED
  {
    var (ct, t) := c.suite.Seal(HeadTag(p), Payload(p) + filler + random[..4]);
    ct + t
  }

  function GcmEncrypted(c: Cipher, buf: seq<byte>, len: nat, random: seq<byte>): Option<Packet>
    requires c.Valid() && Encryptable(c, buf, len, random)
  {
    if |buf| - len < AES_GCM_RESERVED || len - HEAD_LEN + AES_GCM_RESERVED > MAX_SECRET then None
    else Some(Secret(buf[..len], GcmBody(c, buf[..len], buf[len..len + FINGER_RESERVED - c.FingerLen()], random)))
  }

  /** payload, tag, random, finger; the random number is mixed into the nonce but not fingered. */
  function PolyBody(c: Cipher, p: Packet, random: seq<byte>): (r: seq<byte>)
    requires c.Valid() && |random| == BLOCK
    ensures |r| == |Payload(p)| + TAG_RESERVED + RANDOM_RESERVED + c.FingerLen()
  {
    var (ct, t) := c.suite.Seal(Nonce(HeadTag(p), random[..4]), Payload(p));
    ct + t + random[..4] + c.Finger(HeadTag(p), ct + t)
  }

  function PolyEncrypted(c: Cipher, buf: seq<byte>, len: nat, random: seq<byte>): Option<Packet>
    requires c.Valid() && Encryptable(c, buf, len, random)
  {
    var extra := TAG_RESERVED + RANDOM_RESERVED + c.FingerLen();
    if |buf| - len < extra || len - HEAD_LEN + extra > MAX_SECRET then None
    else Some(Secret(buf[..len], PolyBody(c, buf[..len], random)))
  }

  /** payload, random, finger; here too the finger leaves out the random number. */
  function StreamBody(c: Cipher, p: Packet, random: seq<byte>): (r: seq<byte>)
    requires c.Valid() && |random| == BLOCK
    ensures |r| == |Payload(p)| + RANDOM_RESERVED + c.FingerLen()
  {
    var ct := c.suite.Keystream(Nonce(HeadTag(p), random[..4]), Payload(p));
    ct + random[..4] + c.Finger(HeadTag(p), ct)
  }

  function StreamEncrypted(c: Cipher, buf: seq<byte>, len: nat, random: seq<byte>): Option<Packet>
    requires c.Valid() && Encryptable(c, buf, len, random)
  {
    var extra := RANDOM_RESERVED + c.FingerLen();
    if |buf| - len < extra || len - HEAD_LEN + extra > MAX_SECRET then None
    else Some(Secret(buf[..len], StreamBody(c, buf[..len], random)))
  }

  /** payload and random number padded to blocks, then the finger. */
  function CbcBody(c: Cipher, p: Packet, random: seq<byte>): (r: seq<byte>)
    requires c.Valid() && |random| == BLOCK
    ensures |r| == PaddedLen(|Payload(p)| + RANDOM_RESERVED) + c.FingerLen()
  {
    Fingered(c, p, CbcSecret(c, p, random))
  }

  function CbcSecret(c: Cipher, p: Packet, random: seq<byte>): (r: seq<byte>)
    requires c.Valid() && |random| == BLOCK
    ensures |r| == PaddedLen(|Payload(p)| + RANDOM_RESERVED)
  {
    c.suite.CbcEncrypt(c.CbcIv(HeadTag(p)), Pad(Payload(p) + random[..4]))
  }

  /** AES-CBC first checks the length with the random number, then the one with the padding; the
      latter goes unchecked against the limit when there is no finger. */
  predicate CbcAccepts(f: nat, paddedLen: nat, len: nat, room: nat)
    requires len >= HEAD_LEN
  {
    && len + RANDOM_RESERVED + f <= room
    && len - HEAD_LEN + RANDOM_RESERVED + f <= MAX_SECRET
    && HEAD_LEN + paddedLen + f <= room
    && (f > 0 ==> paddedLen + f <= MAX_SECRET)
  }

  function CbcEncrypted(c: Cipher, buf: seq<byte>, len: nat, random: seq<byte>): Option<Packet>
    requires c.Valid() && Encryptable(c, buf, len, random)
  {
    if !CbcAccepts(c.FingerLen(), PaddedLen(len - HEAD_LEN + RANDOM_RESERVED), len, |buf|) then None
    else Some(Secret(buf[..len], CbcBody(c, buf[..len], random)))
  }

  /** The whole packet, head included, padded to blocks, then the finger. */
  function EcbBody(c: Cipher, p: Packet): (r: seq<byte>)
    requires c.Valid()
    ensures |r| == PaddedLen(|p|) + c.FingerLen()
  {
    Fingered(c, p, EcbSecret(c, p))
  }

  function EcbSecret(c: Cipher, p: Packet): (r: seq<byte>)
    requires c.Valid()
    ensures |r| == PaddedLen(|p|)
  {
    c.suite.EcbEncrypt(Pad(p))
  }

  function EcbEncrypted(c: Cipher, buf: seq<byte>, len: nat, random: seq<byte>): Option<Packet>
    requires c.Valid() && Encryptable(c, buf, len, random)
  {
    if PaddedLen(len) > ECB_BUFFER || HEAD_LEN + PaddedLen(len) + c.FingerLen() > |buf| then None
    else Some(Secret(buf[..len], EcbBody(c, buf[..len])))
  }

  /** The whole packet padded to blocks, the iv, the finger. */
  function Sm4Body(c: Cipher, p: Packet, random: seq<byte>): (r: seq<byte>)
    requires c.Valid() && |random| == BLOCK
    ensures |r| == PaddedLen(|p|) + BLOCK + c.FingerLen()
  {
    Fingered(c, p, Sm4Secret(c, p, random))
  }

  function Sm4Secret(c: Cipher, p: Packet, random: seq<byte>): (r: seq<byte>)
    requires c.Valid() && |random| == BLOCK
    ensures |r| == PaddedLen(|p|) + BLOCK
  {
    c.suite.CbcEncrypt(random, Pad(p)) + random
  }

  function Sm4Encrypted(c: Cipher, buf: seq<byte>, len: nat, random: seq<byte>): Option<Packet>
    requires c.Valid() && Encryptable(c, buf, len, random)
  {
    if len > SM4_BUFFER - 32 || HEAD_LEN + PaddedLen(len) + BLOCK + c.FingerLen() > |buf| then None
    else Some(Secret(buf[..len], Sm4Body(c, buf[..len], random)))
  }

  function Encrypted(c: Cipher, buf: seq<byte>, len: nat, random: seq<byte>): Option<Packet>
    requires c.Valid() && Encryptable(c, buf, len, random)
  {
    match c.mode
    case Plain => Some(buf[..len])
    case Xor(key) => Some(Secret(buf[..len], XorBytes(Payload(buf[..len]), key)))
    case AesGcm => GcmEncrypted(c, buf, len, random)
    case ChaCha20Poly1305 => PolyEncrypted(c, buf, len, random)
    case ChaCha20 => StreamEncrypted(c, buf, len, random)
    case AesCbc => CbcEncrypted(c, buf, len, random)
    case AesEcb => EcbEncrypted(c, buf, len, random)
    case Sm4Cbc => Sm4Encrypted(c, buf, len, random)
  }

  // ----- decryption

  function GcmDecrypted(c: Cipher, p: Packet): Option<Packet>
    requires c.Valid()
  {
    var tag, body, f := HeadTag(p), Payload(p), c.FingerLen();
    if |body| < AES_GCM_RESERVED || |body| > MAX_SECRET then None
    else
      var en := ButLast(body, f);
      if c.Finger(tag, en) != Last(body, f) then None
      else
        var plain := c.suite.Open(tag, ButLast(en, TAG_RESERVED), Last(en, TAG_RESERVED));
        if plain.None? then None else Some(Revealed(p, plain.value[..|body| - AES_GCM_RESERVED]))
  }

  function PolyDecrypted(c: Cipher, p: Packet): Option<Packet>
    requires c.Valid()
  {
    var tag, body, f := HeadTag(p), Payload(p), c.FingerLen();
    if |body| < TAG_RESERVED + RANDOM_RESERVED + f || |body| > MAX_SECRET then None
    else
      var random := Last(ButLast(body, f), RANDOM_RESERVED);
      var en := ButLast(body, f + RANDOM_RESERVED);
      if c.Finger(tag, en) != Last(body, f) then None
      else
        var plain := c.suite.Open(Nonce(tag, random), ButLast(en, TAG_RESERVED), Last(en, TAG_RESERVED));
        if plain.None? then None else Some(Revealed(p, plain.value))
  }

  function StreamDecrypted(c: Cipher, p: Packet): Option<Packet>
    requires c.Valid()
  {
    var tag, body, f := HeadTag(p), Payload(p), c.FingerLen();
    if |body| < RANDOM_RESERVED + f || |body| > MAX_SECRET then None
    else
      var random := Last(ButLast(body, f), RANDOM_RESERVED);
      var en := ButLast(body, f + RANDOM_RESERVED);
      if c.Finger(tag, en) != Last(body, f) then None
      else Some(Revealed(p, c.suite.Keystream(Nonce(tag, random), en)))
  }

  function CbcDecrypted(c: Cipher, p: Packet): Option<Packet>
    requires c.Valid()
  {
    var tag, body, f := HeadTag(p), Payload(p), c.FingerLen();
    if |body| < BLOCK || |body| > MAX_SECRET then None
    else
      var en := ButLast(body, f);
      if c.Finger(tag, en) != Last(body, f) || !WholeBlocks(|en|) then None
      else
        // the random number at the end goes too
        var plain := Unpad(c.suite.CbcDecrypt(c.CbcIv(tag), en));
        if plain.None? || |plain.value| < RANDOM_RESERVED then None
        else Some(Revealed(p, ButLast(plain.value, RANDOM_RESERVED)))
  }

  /** The inner packet of the whole-packet modes must repeat the head it travelled under. */
  function Unwrapped(p: Packet, inner: Option<seq<byte>>): Option<Packet> {
    if inner.None? || |inner.value| < HEAD_LEN || HeadTag(inner.value) != HeadTag(p) then None
    else Some(Revealed(p, Payload(inner.value)))
  }

  function EcbDecrypted(c: Cipher, p: Packet): Option<Packet>
    requires c.Valid()
  {
    var tag, body, f := HeadTag(p), Payload(p), c.FingerLen();
    if |body| < f then None
    else
      var en := ButLast(body, f);
      if c.Finger(tag, en) != Last(body, f) || |en| < BLOCK || !WholeBlocks(|en|) || |en| > ECB_BUFFER then None
      else Unwrapped(p, Unpad(c.suite.EcbDecrypt(en)))
  }

  function Sm4Decrypted(c: Cipher, p: Packet): Option<Packet>
    requires c.Valid()
  {
    var tag, body, f := HeadTag(p), Payload(p), c.FingerLen();
    if |body| < f then None
    else
      var en := ButLast(body, f);
      if || c.Finger(tag, en) != Last(body, f)
         || |en| < BLOCK || |en| > SM4_BUFFER || !WholeBlocks(|en|)
      then None
      else Unwrapped(p, Unpad(c.suite.CbcDecrypt(Last(en, BLOCK), ButLast(en, BLOCK))))
  }

  function Decrypted(c: Cipher, p: Packet): Option<Packet>
    requires c.Valid()
  {
    if c.mode.Plain? then if HasFlag(p, ENCRYPTED) then None else Some(p)
    else if !HasFlag(p, ENCRYPTED) then None
    else
      match c.mode
      case Xor(key) => Some(Revealed(p, XorBytes(Payload(p), key)))
      case AesGcm => GcmDecrypted(c, p)
      case ChaCha20Poly1305 => PolyDecrypted(c, p)
      case ChaCha20 => StreamDecrypted(c, p)
      case AesCbc => CbcDecrypted(c, p)
      case AesEcb => EcbDecrypted(c, p)
      case Sm4Cbc => Sm4Decrypted(c, p)
      // excluded above
      case Plain => None
  }

  // ----- the round trip

  /** What a receiver sees of a packet that some relays have passed on. */
  function Relayed(x: Packet, ttl: byte): Packet
    requires ttl <= MAX_TTL
  {
    WithTtl(x, ttl)
  }

  /** The packet the receiver should end up with. */
  function Delivered(p: Packet, ttl: byte): Packet
    requires ttl <= MAX_TTL
  {
    WithFlag(WithTtl(p, ttl), ENCRYPTED, false)
  }

  /** Taking the secret form of `p` apart again: its tag is the one of `p`, and replacing the payload
      by the original one gives `p` back but for the TTL. */
  lemma SecretFacts(p: Packet, payload: seq<byte>, ttl: byte)
    requires ttl <= MAX_TTL
    ensures var y := Relayed(Secret(p, payload), ttl);
            && HeadTag(y) == HeadTag(p) && Payload(y) == payload && HasFlag(y, ENCRYPTED)
            && Revealed(y, Payload(p)) == Delivered(p, ttl)
  {
    var y := Relayed(Secret(p, payload), ttl);
    assert Head(y) == Head(WithFlag(WithTtl(p, ttl), ENCRYPTED, true));
    HeadTagIgnores(p, y, ttl, true);
    assert Payload(y) == payload;
    assert Revealed(y, Payload(p)) == Delivered(p, ttl);
  }

  lemma SplitBack(x: seq<byte>, y: seq<byte>)
    ensures ButLast(x + y, |y|) == x && Last(x + y, |y|) == y
  {
  }

  /** A body with its finger passes the check of a receiver that sees the same tag. */
  lemma FingerChecks(c: Cipher, p: Packet, en: seq<byte>, tag: seq<byte>)
    requires c.Valid() && tag == HeadTag(p)
    ensures ButLast(Fingered(c, p, en), c.FingerLen()) == en
    ensures Last(Fingered(c, p, en), c.FingerLen()) == c.Finger(tag, en)
  {
  }

  lemma GcmRoundTrip(c: Cipher, p: Packet, filler: seq<byte>, random: seq<byte>, y: Packet)
    requires c.Valid() && |filler| + c.FingerLen() == FINGER_RESERVED && |random| == BLOCK
    requires HeadTag(y) == HeadTag(p) && Payload(y) == GcmBody(c, p, filler, random)
    requires |Payload(y)| <= MAX_SECRET
    ensures GcmDecrypted(c, y) == Some(Revealed(y, Payload(p)))
  {
    var plain := Payload(p) + filler + random[..4];
    var (ct, t) := c.suite.Seal(HeadTag(p), plain);
    assert c.suite.SealLaw(HeadTag(p), plain);
    FingerChecks(c, p, GcmSecret(c, p, filler, random), HeadTag(y));
    SplitBack(ct, t);
    assert plain[..|Payload(p)|] == Payload(p);
  }

  lemma PolyRoundTrip(c: Cipher, p: Packet, random: seq<byte>, y: Packet)
    requires c.Valid() && |random| == BLOCK
    requires HeadTag(y) == HeadTag(p) && Payload(y) == PolyBody(c, p, random)
    requires |Payload(y)| <= MAX_SECRET
    ensures PolyDecrypted(c, y) == Some(Revealed(y, Payload(p)))
  {
    var (ct, t) := c.suite.Seal(Nonce(HeadTag(p), random[..4]), Payload(p));
    assert c.suite.SealLaw(Nonce(HeadTag(p), random[..4]), Payload(p));
    var f := c.Finger(HeadTag(p), ct + t);
    SplitBack(ct + t + random[..4], f);
    SplitBack(ct + t, random[..4]);
    SplitBack(ct, t);
    assert ButLast(Payload(y), c.FingerLen() + RANDOM_RESERVED) == ct + t;
  }

  lemma StreamRoundTrip(c: Cipher, p: Packet, random: seq<byte>, y: Packet)
    requires c.Valid() && |random| == BLOCK
    requires HeadTag(y) == HeadTag(p) && Payload(y) == StreamBody(c, p, random)
    requires |Payload(y)| <= MAX_SECRET
    ensures StreamDecrypted(c, y) == Some(Revealed(y, Payload(p)))
  {
    var ct := c.suite.Keystream(Nonce(HeadTag(p), random[..4]), Payload(p));
    assert c.suite.StreamLaw(Nonce(HeadTag(p), random[..4]), Payload(p));
    var f := c.Finger(HeadTag(p), ct);
    SplitBack(ct + random[..4], f);
    SplitBack(ct, random[..4]);
    assert ButLast(Payload(y), c.FingerLen() + RANDOM_RESERVED) == ct;
  }

  lemma CbcUndone(c: Cipher, iv: seq<byte>, x: seq<byte>)
    requires c.Valid()
    ensures |c.suite.CbcEncrypt(iv, Pad(x))| == PaddedLen(|x|)
    ensures Unpad(c.suite.CbcDecrypt(iv, c.suite.CbcEncrypt(iv, Pad(x)))) == Some(x)
  {
    assert c.suite.CbcLaw(iv, Pad(x));
    UnpadPad(x);
  }

  lemma CbcRoundTrip(c: Cipher, p: Packet, random: seq<byte>, y: Packet)
    requires c.Valid() && |random| == BLOCK
    requires HeadTag(y) == HeadTag(p) && Payload(y) == CbcBody(c, p, random)
    ensures CbcDecrypted(c, y) == if |Payload(y)| <= MAX_SECRET then Some(Revealed(y, Payload(p))) else None
  {
    var plain := Payload(p) + random[..4];
    CbcUndone(c, c.CbcIv(HeadTag(p)), plain);
    FingerChecks(c, p, CbcSecret(c, p, random), HeadTag(y));
    SplitBack(Payload(p), random[..4]);
  }

  lemma EcbRoundTrip(c: Cipher, p: Packet, y: Packet)
    requires c.Valid() && PaddedLen(|p|) <= ECB_BUFFER
    requires HeadTag(y) == HeadTag(p) && Payload(y) == EcbBody(c, p)
    ensures EcbDecrypted(c, y) == Some(Revealed(y, Payload(p)))
  {
    FingerChecks(c, p, EcbSecret(c, p), HeadTag(y));
    EcbOpens(c, p);
  }

  lemma EcbOpens(c: Cipher, p: Packet)
    requires c.Valid()
    ensures Unpad(c.suite.EcbDecrypt(EcbSecret(c, p))) == Some(p)
  {
    assert c.suite.EcbLaw(Pad(p));
    UnpadPad(p);
  }

  lemma Sm4RoundTrip(c: Cipher, p: Packet, random: seq<byte>, y: Packet)
    requires c.Valid() && |random| == BLOCK && |p| <= SM4_BUFFER - 32
    requires HeadTag(y) == HeadTag(p) && Payload(y) == Sm4Body(c, p, random)
    ensures Sm4Decrypted(c, y) == Some(Revealed(y, Payload(p)))
  {
    FingerChecks(c, p, Sm4Secret(c, p, random), HeadTag(y));
    Sm4Opens(c, p, random);
  }

  lemma Sm4Opens(c: Cipher, p: Packet, random: seq<byte>)
    requires c.Valid() && |random| == BLOCK && |p| <= SM4_BUFFER - 32
    ensures var en := Sm4Secret(c, p, random);
            && BLOCK <= |en| <= SM4_BUFFER && WholeBlocks(|en|)
            && Unpad(c.suite.CbcDecrypt(Last(en, BLOCK), ButLast(en, BLOCK))) == Some(p)
  {
    CbcUndone(c, random, p);
    SplitBack(c.suite.CbcEncrypt(random, Pad(p)), random);
    Sm4Limit(|p|);
  }

  /** Whatever SM4 encryption accepts stays within the limit of its decryption, which the longest
      packet meets exactly. */
  lemma Sm4Limit(n: nat)
    requires n <= SM4_BUFFER - 32
    ensures PaddedLen(n) + BLOCK <= SM4_BUFFER
    ensures n == SM4_BUFFER - 32 ==> PaddedLen(n) + BLOCK == SM4_BUFFER
    ensures WholeBlocks(PaddedLen(n) + BLOCK)
  {
    WholeBlocksAreMultiples(SM4_BUFFER - BLOCK);
    PaddedLenFits(n, SM4_BUFFER - BLOCK);
    if n == SM4_BUFFER - 32 {
      PaddedLenIsNext(n, SM4_BUFFER - BLOCK);
    }
  }

  lemma XorRoundTrip(x: seq<byte>, key: seq<byte>)
    requires |key| == 32
    ensures XorBytes(XorBytes(x, key), key) == x
  {
    forall i | 0 <= i < |x| ensures XorByte(XorByte(x[i], key[i % 32]), key[i % 32]) == x[i] {
      EightBits();
      XorUndone(8, x[i], key[i % 32]);
    }
  }

  /** Every cipher leaves the head alone but for the encryption flag, which it sets. */
  lemma EncryptedIsSecret(c: Cipher, buf: seq<byte>, len: nat, random: seq<byte>, ttl: byte)
    requires c.Valid() && !c.mode.Plain? && Encryptable(c, buf, len, random) && ttl <= MAX_TTL
    requires Encrypted(c, buf, len, random).Some?
    ensures var x := Encrypted(c, buf, len, random).value;
            && x == Secret(buf[..len], Payload(x))
            && HasFlag(Relayed(x, ttl), ENCRYPTED)
            && HeadTag(Relayed(x, ttl)) == HeadTag(buf[..len])
            && Payload(Relayed(x, ttl)) == Payload(x)
            && Revealed(Relayed(x, ttl), Payload(buf[..len])) == Delivered(buf[..len], ttl)
  {
    var x := Encrypted(c, buf, len, random).value;
    SecretFacts(buf[..len], Payload(x), ttl);
  }

  /** Padding may take an AES-CBC payload past the limit that decryption enforces. */
  predicate PaddingOverflows(c: Cipher, len: nat)
    requires len >= HEAD_LEN
  {
    c.mode.AesCbc? && PaddedLen(len - HEAD_LEN + RANDOM_RESERVED) + c.FingerLen() > MAX_SECRET
  }

  /** `y` carries the payload that encryption produced, under a head with the same tag. */
  ghost predicate Carries(c: Cipher, buf: seq<byte>, len: nat, random: seq<byte>, y: Packet)
    requires c.Valid() && Encryptable(c, buf, len, random)
  {
    && Encrypted(c, buf, len, random).Some?
    && HeadTag(y) == HeadTag(buf[..len]) && HasFlag(y, ENCRYPTED)
    && Payload(y) == Payload(Encrypted(c, buf, len, random).value)
  }

  lemma SecretLength(p: Packet, payload: seq<byte>)
    ensures |Secret(p, payload)| == HEAD_LEN + |payload|
  {
  }

  lemma SecretPayload(p: Packet, payload: seq<byte>)
    ensures Payload(Secret(p, payload)) == payload
  {
  }

  lemma GcmArrives(c: Cipher, buf: seq<byte>, len: nat, random: seq<byte>, y: Packet)
    requires c.Valid() && Encryptable(c, buf, len, random) && Carries(c, buf, len, random, y)
    requires c.mode.AesGcm?
    ensures Decrypted(c, y) == Some(Revealed(y, Payload(buf[..len])))
  {
    var filler := buf[len..len + FINGER_RESERVED - c.FingerLen()];
    SecretPayload(buf[..len], GcmBody(c, buf[..len], filler, random));
    GcmRoundTrip(c, buf[..len], filler, random, y);
  }

  lemma PolyArrives(c: Cipher, buf: seq<byte>, len: nat, random: seq<byte>, y: Packet)
    requires c.Valid() && Encryptable(c, buf, len, random) && Carries(c, buf, len, random, y)
    requires c.mode.ChaCha20Poly1305?
    ensures Decrypted(c, y) == Some(Revealed(y, Payload(buf[..len])))
  {
    SecretPayload(buf[..len], PolyBody(c, buf[..len], random));
    PolyRoundTrip(c, buf[..len], random, y);
  }

  lemma StreamArrives(c: Cipher, buf: seq<byte>, len: nat, random: seq<byte>, y: Packet)
    requires c.Valid() && Encryptable(c, buf, len, random) && Carries(c, buf, len, random, y)
    requires c.mode.ChaCha20?
    ensures Decrypted(c, y) == Some(Revealed(y, Payload(buf[..len])))
  {
    SecretPayload(buf[..len], StreamBody(c, buf[..len], random));
    StreamRoundTrip(c, buf[..len], random, y);
  }

  lemma XorArrives(c: Cipher, buf: seq<byte>, len: nat, random: seq<byte>, y: Packet)
    requires c.Valid() && Encryptable(c, buf, len, random) && Carries(c, buf, len, random, y)
    requires c.mode.Xor?
    ensures Decrypted(c, y) == Some(Revealed(y, Payload(buf[..len])))
  {
    SecretPayload(buf[..len], XorBytes(Payload(buf[..len]), c.mode.key));
    XorRoundTrip(Payload(buf[..len]), c.mode.key);
  }

  lemma CbcOverflows(c: Cipher, p: Packet, random: seq<byte>)
    requires c.Valid() && |random| == BLOCK && c.mode.AesCbc?
    ensures |CbcBody(c, p, random)| > MAX_SECRET <==> PaddingOverflows(c, |p|)
  {
    assert |Payload(p)| == |p| - HEAD_LEN;
  }

  lemma CbcArrives(c: Cipher, buf: seq<byte>, len: nat, random: seq<byte>, y: Packet)
    requires c.Valid() && Encryptable(c, buf, len, random) && Carries(c, buf, len, random, y)
    requires c.mode.AesCbc?
    ensures Decrypted(c, y) == if PaddingOverflows(c, len) then None else Some(Revealed(y, Payload(buf[..len])))
  {
    SecretPayload(buf[..len], CbcBody(c, buf[..len], random));
    CbcRoundTrip(c, buf[..len], random, y);
    CbcOverflows(c, buf[..len], random);
  }

  lemma EcbArrives(c: Cipher, buf: seq<byte>, len: nat, random: seq<byte>, y: Packet)
    requires c.Valid() && Encryptable(c, buf, len, random) && Carries(c, buf, len, random, y)
    requires c.mode.AesEcb?
    ensures Decrypted(c, y) == Some(Revealed(y, Payload(buf[..len])))
  {
    SecretPayload(buf[..len], EcbBody(c, buf[..len]));
    EcbRoundTrip(c, buf[..len], y);
  }

  lemma Sm4Arrives(c: Cipher, buf: seq<byte>, len: nat, random: seq<byte>, y: Packet)
    requires c.Valid() && Encryptable(c, buf, len, random) && Carries(c, buf, len, random, y)
    requires c.mode.Sm4Cbc?
    ensures Decrypted(c, y) == Some(Revealed(y, Payload(buf[..len])))
  {
    SecretPayload(buf[..len], Sm4Body(c, buf[..len], random));
    Sm4RoundTrip(c, buf[..len], random, y);
  }

  /** Decryption undoes encryption in every mode, after any number of relays: the original packet
      arrives, with the encryption flag clear and the TTL the relays left.  It fails exactly when
      there is no cipher and the flag was set from the start, or when AES-CBC padding took the
      payload past the limit (which encryption without finger does not check). */
  lemma RoundTrip(c: Cipher, buf: seq<byte>, len: nat, random: seq<byte>, ttl: byte)
    requires c.Valid() && Encryptable(c, buf, len, random) && ttl <= MAX_TTL
    requires Encrypted(c, buf, len, random).Some?
    ensures Decrypted(c, Relayed(Encrypted(c, buf, len, random).value, ttl))
         == if (c.mode.Plain? && HasFlag(buf[..len], ENCRYPTED)) || PaddingOverflows(c, len) then None
            else Some(Delivered(buf[..len], ttl))
  {
    var y := Relayed(Encrypted(c, buf, len, random).value, ttl);
    if c.mode.Plain? {
      assert !HasFlag(buf[..len], ENCRYPTED) ==> Delivered(buf[..len], ttl) == y;
    } else {
      EncryptedIsSecret(c, buf, len, random, ttl);
      match c.mode
      case AesGcm => GcmArrives(c, buf, len, random, y);
      case ChaCha20Poly1305 => PolyArrives(c, buf, len, random, y);
      case ChaCha20 => StreamArrives(c, buf, len, random, y);
      case Xor(_) => XorArrives(c, buf, len, random, y);
      case AesCbc => CbcArrives(c, buf, len, random, y);
      case AesEcb => EcbArrives(c, buf, len, random, y);
      case Sm4Cbc => Sm4Arrives(c, buf, len, random, y);
    }
  }

  /** For instance: without finger, AES-CBC encrypts every packet of 65500 bytes in a buffer of 65536, to
      one that its own decryption refuses. */
  lemma RefusesItsOwn(c: Cipher, buf: seq<byte>, random: seq<byte>, ttl: byte)
    requires c.Valid() && c.mode.AesCbc? && c.finger.None?
    requires |buf| == 65536 && |random| == BLOCK && ttl <= MAX_TTL
    ensures Encrypted(c, buf, 65500, random).Some?
    ensures Decrypted(c, Relayed(Encrypted(c, buf, 65500, random).value, ttl)) == None
  {
    WholeBlocksAreMultiples(65504);
    PaddedLenIsNext(65492, 65504);
    assert CbcAccepts(0, PaddedLen(65492), 65500, 65536);
    RoundTrip(c, buf, 65500, random, ttl);
  }

  // ----- sizes

  /** How many bytes a mode needs beyond the packet. */
  function Growth(c: Cipher, len: nat): nat {
    match c.mode
    case Plain => 0
    case Xor(_) => 0
    case AesGcm => AES_GCM_RESERVED
    case ChaCha20Poly1305 => TAG_RESERVED + RANDOM_RESERVED + c.FingerLen()
    case ChaCha20 => RANDOM_RESERVED + c.FingerLen()
    case AesCbc => if len < HEAD_LEN then 0 else HEAD_LEN + PaddedLen(len - HEAD_LEN + RANDOM_RESERVED) - len + c.FingerLen()
    case AesEcb => HEAD_LEN + PaddedLen(len) - len + c.FingerLen()
    case Sm4Cbc => HEAD_LEN + PaddedLen(len) - len + BLOCK + c.FingerLen()
  }

  /** The longest packet a mode accepts, if any. */
  predicate WithinLimit(c: Cipher, len: nat) {
    match c.mode
    case Plain => true
    case Xor(_) => true
    case AesEcb => len < ECB_BUFFER
    case Sm4Cbc => len <= SM4_BUFFER - 32
    case AesCbc =>
      && len - HEAD_LEN + RANDOM_RESERVED + c.FingerLen() <= MAX_SECRET
      && (c.finger.Some? && len >= HEAD_LEN ==> PaddedLen(len - HEAD_LEN + RANDOM_RESERVED) + FINGER_RESERVED <= MAX_SECRET)
    case _ => len - HEAD_LEN + Growth(c, len) <= MAX_SECRET
  }

  predicate FitsExactly(c: Cipher, buf: seq<byte>, len: nat, x: Option<Packet>)
    requires len <= |buf|
  {
    && (x.Some? <==> |buf| - len >= Growth(c, len) && WithinLimit(c, len))
    && (x.Some? ==> |x.value| == len + Growth(c, len))
  }

  lemma SealedFits(c: Cipher, buf: seq<byte>, len: nat, random: seq<byte>)
    requires c.Valid() && Encryptable(c, buf, len, random)
    requires c.mode.AesGcm? || c.mode.ChaCha20Poly1305? || c.mode.ChaCha20?
    ensures FitsExactly(c, buf, len, Encrypted(c, buf, len, random))
  {
  }

  lemma CbcFits(c: Cipher, buf: seq<byte>, len: nat, random: seq<byte>)
    requires c.Valid() && Encryptable(c, buf, len, random) && c.mode.AesCbc?
    ensures FitsExactly(c, buf, len, Encrypted(c, buf, len, random))
  {
    SecretLength(buf[..len], CbcBody(c, buf[..len], random));
    assert |Payload(buf[..len])| == len - HEAD_LEN;
    assert Encrypted(c, buf, len, random) == CbcEncrypted(c, buf, len, random);
  }

  lemma EcbFits(c: Cipher, buf: seq<byte>, len: nat, random: seq<byte>)
    requires c.Valid() && Encryptable(c, buf, len, random) && c.mode.AesEcb?
    ensures FitsExactly(c, buf, len, Encrypted(c, buf, len, random))
  {
    assert Encrypted(c, buf, len, random) == EcbEncrypted(c, buf, len, random);
    WholeBlocksAreMultiples(ECB_BUFFER);
    PaddedLenFits(len, ECB_BUFFER);
  }

  lemma Sm4Fits(c: Cipher, buf: seq<byte>, len: nat, random: seq<byte>)
    requires c.Valid() && Encryptable(c, buf, len, random) && c.mode.Sm4Cbc?
    ensures FitsExactly(c, buf, len, Encrypted(c, buf, len, random))
  {
    SecretLength(buf[..len], Sm4Body(c, buf[..len], random));
    assert Encrypted(c, buf, len, random) == Sm4Encrypted(c, buf, len, random);
  }

  /** Encryption succeeds exactly when the buffer has room for the growth of the mode and the packet
      is within its limit; the result then has exactly grown by that much. */
  lemma EncryptsExactly(c: Cipher, buf: seq<byte>, len: nat, random: seq<byte>)
    requires c.Valid() && Encryptable(c, buf, len, random)
    ensures FitsExactly(c, buf, len, Encrypted(c, buf, len, random))
  {
    if c.mode.AesCbc? {
      CbcFits(c, buf, len, random);
    } else if c.mode.AesEcb? {
      EcbFits(c, buf, len, random);
    } else if c.mode.Sm4Cbc? {
      Sm4Fits(c, buf, len, random);
    } else if !c.mode.Plain? && !c.mode.Xor? {
      SealedFits(c, buf, len, random);
    }
  }

  /** No mode grows a packet by more than 56 bytes. */
  lemma GrowthBound(c: Cipher, len: nat)
    requires len >= HEAD_LEN
    ensures Growth(c, len) <= 56
  {
  }

  /** The sixty reserved bytes are enough: with them encryption succeeds, in every mode, exactly on
      packets within the limit of the mode. */
  lemma ReserveSuffices(c: Cipher, buf: seq<byte>, len: nat, random: seq<byte>)
    requires c.Valid() && Encryptable(c, buf, len, random)
    requires |buf| - len >= ENCRYPTION_RESERVED
    ensures Encrypted(c, buf, len, random).Some? <==> WithinLimit(c, len)
  {
    GrowthBound(c, len);
    EncryptsExactly(c, buf, len, random);
  }

  /** 56 is reached. */
  lemma WorstGrowth(c: Cipher)
    requires c.mode.Sm4Cbc? && c.finger.Some?
    ensures Growth(c, 16) == 56
  {
  }

  // ----- the finger that can be checked without the key

  /** `check_finger` of somebody who knows the token hash but not the key. */
  predicate KeylessCheck(c: Cipher, p: Packet)
    requires c.Valid() && c.finger.Some?
  {
    && HasFlag(p, ENCRYPTED)
    && |Payload(p)| >= FINGER_RESERVED
    && c.Finger(HeadTag(p), ButLast(Payload(p), FINGER_RESERVED)) == Last(Payload(p), FINGER_RESERVED)
  }

  /** Whatever the receiver would accept passes this check on the way, in the modes that hash the
      whole body; the ChaCha modes leave the random number out of the hash. */
  lemma AcceptedImpliesKeylessCheck(c: Cipher, p: Packet)
    requires c.Valid() && c.finger.Some?
    requires c.mode.AesGcm? || c.mode.AesCbc? || c.mode.AesEcb? || c.mode.Sm4Cbc?
    requires Decrypted(c, p).Some?
    ensures KeylessCheck(c, p)
  {
  }

  /** So the check accepts what these modes produce, before and after any relays. */
  lemma KeylessCheckAccepts(c: Cipher, buf: seq<byte>, len: nat, random: seq<byte>, ttl: byte)
    requires c.Valid() && c.finger.Some? && Encryptable(c, buf, len, random) && ttl <= MAX_TTL
    requires c.mode.AesGcm? || c.mode.AesCbc? || c.mode.AesEcb? || c.mode.Sm4Cbc?
    requires Encrypted(c, buf, len, random).Some?
    ensures KeylessCheck(c, Relayed(Encrypted(c, buf, len, random).value, ttl))
  {
    RoundTrip(c, buf, len, random, ttl);
    AcceptedImpliesKeylessCheck(c, Relayed(Encrypted(c, buf, len, random).value, ttl));
  }

  // ----- the laws can be met

  /** The laws of a suite contradict nothing: ciphers that leave their input alone meet them. */
  lemma SomeSuiteIsLawful()
    ensures exists suite: Suite :: suite.Lawful()
  {
    var tag := seq(TAG_RESERVED, _ => 0);
    var idle := (n: seq<byte>, x: seq<byte>) => x;
    var suite := Suite(
      x => seq(32, _ => 0),
      (n, x) => (x, tag),
      (n, x, t) => Some(x),
      idle, idle, idle,
      x => x, x => x);
    assert suite.Lawful();
  }
}
