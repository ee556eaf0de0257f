/**
The internet checksum (section 4.1 of RFC 1071) as the engine computes it: 16-bit words are added up
in 32-bit arithmetic that wraps around, carries are folded, and the result is complemented.
*/
module Checksum {
  import opened Wrappers
  import opened Net

  /** One more than the greatest 32-bit sum. */
  const TWO_TO_THE_32 := 0x1_0000_0000

  function Word(hi: byte, lo: byte): u16 {
    hi * 0x100 + lo
  }

  /** The big-endian 16-bit words of a buffer, added up without any overflow; an odd last byte is
      the high half of a word. */
  function WordSum(buf: seq<byte>): nat {
    var n := |buf|;
    if n == 0 then 0
    else if n % 2 == 1 then WordSum(buf[..n - 1]) + Word(buf[n - 1], 0)
    else WordSum(buf[..n - 2]) + Word(buf[n - 2], buf[n - 1])
  }

  /** The one's complement value of a sum: what is left after casting out multiples of 65535, where
      only 0 itself gives 0. */
  function OnesSum(sum: nat): u16 {
    if sum <= 0xffff then sum else OnesSum(sum - 0xffff)
  }

  /** The checksum RFC 1071 asks for. */
  function Rfc1071(seed: nat, buf: seq<byte>): u16 {
    0xffff - OnesSum(seed + WordSum(buf))
  }

  /** What is left of a sum in 32-bit arithmetic. */
  function Wrap32(sum: nat): (r: nat)
    ensures r < TWO_TO_THE_32
  {
    if sum < TWO_TO_THE_32 then sum else Wrap32(sum - TWO_TO_THE_32)
  }

  lemma {:induction false} Wrap32IsModulo(sum: nat)
    ensures Wrap32(sum) == sum % TWO_TO_THE_32
  {
    if sum >= TWO_TO_THE_32 {
      Wrap32IsModulo(sum - TWO_TO_THE_32);
    }
  }

  lemma {:induction false} WrapAdd(a: nat, b: nat)
    ensures Wrap32(Wrap32(a) + b) == Wrap32(a + b)
  {
    if a >= TWO_TO_THE_32 {
      WrapAdd(a - TWO_TO_THE_32, b);
    }
  }

  /** The checksum of the engine, whose 32-bit sum wraps around. */
  function Sum32(seed: nat, buf: seq<byte>): u16 {
    0xffff - OnesSum(Wrap32(seed + WordSum(buf)))
  }

  /** What the addresses, the protocol and the length contribute for UDP and TCP. */
  function PseudoHeaderSum(src: Ipv4Addr, dst: Ipv4Addr, protocol: byte, length: nat): nat {
    Word(src.o0, src.o1) + Word(src.o2, src.o3) + Word(dst.o0, dst.o1) + Word(dst.o2, dst.o3)
    + Word(0, protocol) + length % TWO_TO_THE_32
  }

  /** Where the last word of a buffer starts, */
  function LastAt(n: nat): nat
    requires n > 0
  {
    if n % 2 == 1 then n - 1 else n - 2
  }

  /** and what it is. */
  function LastWordOf(buf: seq<byte>): u16
    requires buf != []
  {
    if |buf| % 2 == 1 then Word(buf[|buf| - 1], 0) else Word(buf[|buf| - 2], buf[|buf| - 1])
  }

  lemma WordSumOfLast(buf: seq<byte>)
    requires buf != []
    ensures WordSum(buf) == WordSum(buf[..LastAt(|buf|)]) + LastWordOf(buf)
  {
  }

  lemma SameLastWord(a: seq<byte>, b: seq<byte>, whole: seq<byte>)
    requires |a| % 2 == 0 && whole == a + b && b != []
    ensures LastWordOf(whole) == LastWordOf(b) && LastAt(|whole|) == |a| + LastAt(|b|)
    ensures whole[..LastAt(|whole|)] == a + b[..LastAt(|b|)]
  {
  }

  /** The sum is built from the words: two bytes make a word, greater half first; an odd byte is the
      greater half of one; and buffers of whole words add up. */
  lemma {:induction false} WordSumAppend(a: seq<byte>, b: seq<byte>)
    requires |a| % 2 == 0
    ensures WordSum(a + b) == WordSum(a) + WordSum(b)
    decreases |b|
  {
    if b == [] {
      assert a + b == a;
    } else {
      WordSumAppend(a, b[..LastAt(|b|)]);
      AppendLastWord(a, b, a + b);
    }
  }

  lemma AppendLastWord(a: seq<byte>, b: seq<byte>, whole: seq<byte>)
    requires |a| % 2 == 0 && whole == a + b && b != []
    ensures WordSum(whole) - WordSum(a + b[..LastAt(|b|)]) == WordSum(b) - WordSum(b[..LastAt(|b|)])
  {
    SameLastWord(a, b, whole);
    WordSumOfLast(b);
    WordSumOfLast(whole);
  }

  lemma WordSumOfOne(hi: byte, lo: byte)
    ensures WordSum([hi, lo]) == 0x100 * hi + lo && WordSum([hi]) == 0x100 * hi && WordSum([]) == 0
  {
    assert [hi, lo][..0] == [] && [hi][..0] == [];
  }

  /** Casting out keeps the remainder modulo 65535. */
  lemma {:induction false} OnesSumModulo(sum: nat)
    ensures OnesSum(sum) % 0xffff == sum % 0xffff
  {
    if sum > 0xffff {
      OnesSumModulo(sum - 0xffff);
      var rest: nat, left: int := sum - 0xffff, OnesSum(sum);
      assert sum % 0xffff == rest % 0xffff;
    }
  }

  /** The example of section 3 of RFC 1071. */
  lemma RfcExample()
    ensures WordSum([0x00, 0x01, 0xf2, 0x03, 0xf4, 0xf5, 0xf6, 0xf7]) == 0x2ddf0
    ensures Rfc1071(0, [0x00, 0x01, 0xf2, 0x03, 0xf4, 0xf5, 0xf6, 0xf7]) == 0x220d
  {
    WordSumOfOne(0x00, 0x01);
    WordSumOfOne(0xf2, 0x03);
    WordSumOfOne(0xf4, 0xf5);
    WordSumOfOne(0xf6, 0xf7);
    WordSumAppend([0x00, 0x01], [0xf2, 0x03]);
    WordSumAppend([0xf4, 0xf5], [0xf6, 0xf7]);
    WordSumAppend([0x00, 0x01] + [0xf2, 0x03], [0xf4, 0xf5] + [0xf6, 0xf7]);
    assert [0x00, 0x01] + [0xf2, 0x03] + ([0xf4, 0xf5] + [0xf6, 0xf7])
        == [0x00, 0x01, 0xf2, 0x03, 0xf4, 0xf5, 0xf6, 0xf7];
    OnesSumShift(2, 0xddf2);
  }

  /** The pseudo header of UDP (RFC 768) and TCP: both addresses, a zero, the protocol and the length. */
  function PseudoHeader(src: Ipv4Addr, dst: Ipv4Addr, protocol: byte, length: nat): (h: seq<byte>)
    requires length <= 0xffff
    ensures |h| == 12
  {
    [src.o0, src.o1, src.o2, src.o3, dst.o0, dst.o1, dst.o2, dst.o3, 0, protocol, length / 0x100, length % 0x100]
  }

  /** What is added up for it is what its words add up to. */
  lemma PseudoHeaderIsAdded(src: Ipv4Addr, dst: Ipv4Addr, protocol: byte, length: nat)
    requires length <= 0xffff
    ensures PseudoHeaderSum(src, dst, protocol, length) == WordSum(PseudoHeader(src, dst, protocol, length))
    ensures PseudoHeader(src, dst, protocol, length)
         == Octets(src) + Octets(dst) + [0, protocol, length / 0x100, length % 0x100]
  {
    var h: byte, l: byte := length / 0x100, length % 0x100;
    FourBytes(src.o0, src.o1, src.o2, src.o3);
    FourBytes(dst.o0, dst.o1, dst.o2, dst.o3);
    FourBytes(0, protocol, h, l);
    WordSumAppend(Octets(src), Octets(dst));
    WordSumAppend(Octets(src) + Octets(dst), [0, protocol, h, l]);
    assert Octets(src) + Octets(dst) + [0, protocol, h, l] == PseudoHeader(src, dst, protocol, length);
    assert Word(h, l) == length;
  }

  lemma FourBytes(a: byte, b: byte, c: byte, d: byte)
    ensures WordSum([a, b, c, d]) == Word(a, b) + Word(c, d)
  {
    WordSumOfOne(a, b);
    WordSumOfOne(c, d);
    WordSumAppend([a, b], [c, d]);
    assert [a, b] + [c, d] == [a, b, c, d];
  }

  lemma SeedIsPseudoHeader(src: Ipv4Addr, dst: Ipv4Addr, protocol: byte, buf: seq<byte>)
    requires |buf| <= 0xffff
    ensures Rfc1071(PseudoHeaderSum(src, dst, protocol, |buf|), buf)
         == Rfc1071(0, PseudoHeader(src, dst, protocol, |buf|) + buf)
  {
    PseudoHeaderIsAdded(src, dst, protocol, |buf|);
    SeedIsPrefix(PseudoHeader(src, dst, protocol, |buf|), buf);
  }

  lemma SeedIsPrefix(header: seq<byte>, buf: seq<byte>)
    requires |header| % 2 == 0
    ensures Rfc1071(WordSum(header), buf) == Rfc1071(0, header + buf)
  {
    WordSumAppend(header, buf);
    assert WordSum(header) + WordSum(buf) == 0 + WordSum(header + buf);
  }

  lemma {:induction false} OnesSumShift(k: nat, m: nat)
    requires m > 0
    ensures OnesSum(0xffff * k + m) == OnesSum(m)
  {
    if k > 0 {
      OnesSumShift(k - 1, m);
    }
  }

  lemma {:induction false} OnesSumFull(sum: nat)
    ensures OnesSum(sum) == 0xffff <==> sum > 0 && sum % 0xffff == 0
    ensures OnesSum(sum) == 0 <==> sum == 0
  {
    if sum > 0xffff {
      OnesSumFull(sum - 0xffff);
    }
  }

  /** Adding the carries back in preserves the one's complement value. */
  lemma FoldPreserves(sum: nat)
    requires sum >= 0x1_0000
    ensures OnesSum(sum % 0x1_0000 + sum / 0x1_0000) == OnesSum(sum)
  {
    OnesSumShift(sum / 0x1_0000, sum % 0x1_0000 + sum / 0x1_0000);
  }

  /** Folds the carries of a 32-bit sum, which takes at most two rounds. */
  method Fold(input: nat) returns (sum: u16, ghost rounds: nat)
    requires input < TWO_TO_THE_32
    ensures sum == OnesSum(input)
    ensures rounds <= 2
  {
    var s: nat := input;
    rounds := 0;
    while s / 0x1_0000 != 0
      decreases 2 - rounds
      invariant OnesSum(s) == OnesSum(input)
      invariant rounds <= 2
      invariant rounds == 0 ==> s < TWO_TO_THE_32
      invariant rounds == 1 ==> s <= 0x1fffe
      invariant rounds == 2 ==> s <= 0xffff
    {
      FoldPreserves(s);
      s := s % 0x1_0000 + s / 0x1_0000;
      rounds := rounds + 1;
    }
    sum := s;
  }

  lemma WordSumOfPrefix(buf: seq<byte>, pos: nat)
    requires pos % 2 == 0 && pos + 2 <= |buf|
    ensures WordSum(buf[..pos + 2]) == WordSum(buf[..pos]) + Word(buf[pos], buf[pos + 1])
  {
    assert buf[..pos + 2][..pos] == buf[..pos];
  }

  lemma WordSumOfOdd(buf: seq<byte>)
    requires |buf| % 2 == 1
    ensures WordSum(buf) == WordSum(buf[..|buf| - 1]) + Word(buf[|buf| - 1], 0)
  {
  }

  lemma WrappingAdd(sum: nat, total: nat, value: nat)
    requires sum == Wrap32(total)
    ensures (sum + value) % TWO_TO_THE_32 == Wrap32(total + value)
  {
    WrapAdd(total, value);
    Wrap32IsModulo(sum + value);
  }

  /** The loops of both checksum functions: `seed` is what was added up before the buffer. */
  method AddWords(seed: nat, buffer: seq<byte>) returns (sum: nat)
    requires seed < TWO_TO_THE_32
    ensures sum == Wrap32(seed + WordSum(buffer))
  {
    var length, pos := |buffer|, 0;
    sum := seed;
    ghost var total: nat := seed;
    while pos + 2 <= length
      invariant 0 <= pos <= length && pos % 2 == 0
      invariant total == seed + WordSum(buffer[..pos]) && sum == Wrap32(total)
    {
      var value := Word(buffer[pos], buffer[pos + 1]);
      WordSumOfPrefix(buffer, pos);
      WrappingAdd(sum, total, value);
      sum, total := (sum + value) % TWO_TO_THE_32, total + value;
      pos := pos + 2;
    }
    assert buffer[..length] == buffer;
    if length % 2 == 1 {
      var value := Word(buffer[pos], 0);
      WordSumOfOdd(buffer);
      WrappingAdd(sum, total, value);
      sum := (sum + value) % TWO_TO_THE_32;
    }
  }

  method CalChecksum(buffer: seq<byte>) returns (checksum: u16)
    ensures checksum == Sum32(0, buffer)
    ensures |buffer| <= 131074 ==> checksum == Rfc1071(0, buffer)
  {
    if |buffer| <= 131074 {
      NoOverflow(buffer);
    }
    var sum := AddWords(0, buffer);
    var folded, _ := Fold(sum);
    checksum := 0xffff - folded;
  }

  method Ipv4CalChecksum(buffer: seq<byte>, src: Ipv4Addr, dst: Ipv4Addr, protocol: byte) returns (checksum: u16)
    ensures checksum == Sum32(PseudoHeaderSum(src, dst, protocol, |buffer|), buffer)
    ensures |buffer| <= 0xffff ==> checksum == Rfc1071(0, PseudoHeader(src, dst, protocol, |buffer|) + buffer)
  {
    if |buffer| <= 0xffff {
      NoOverflowIpv4(buffer, src, dst, protocol);
      SeedIsPseudoHeader(src, dst, protocol, buffer);
    }
    var sum := Word(src.o0, src.o1) + Word(src.o2, src.o3) + Word(dst.o0, dst.o1) + Word(dst.o2, dst.o3);
    sum := sum + Word(0, protocol);
    sum := sum + |buffer| % TWO_TO_THE_32;
    WrapAdd(sum, WordSum(buffer));
    Wrap32IsModulo(sum);
    sum := AddWords(sum % TWO_TO_THE_32, buffer);
    var folded, _ := Fold(sum);
    checksum := 0xffff - folded;
  }

  // ----- what the 32-bit arithmetic loses

  lemma {:induction false} WordSumBound(buf: seq<byte>)
    ensures WordSum(buf) <= 0xffff * (|buf| / 2) + if |buf| % 2 == 1 then 0xff00 else 0
  {
    var n := |buf|;
    if n != 0 {
      WordSumBound(buf[..if n % 2 == 1 then n - 1 else n - 2]);
    }
  }

  /** A sum in terms of what 32-bit arithmetic drops and what it keeps: 2^32 is 1 modulo 65535. */
  lemma DroppedAndKept(sum: nat)
    ensures sum == 0xffff * (65537 * (sum / TWO_TO_THE_32)) + (sum / TWO_TO_THE_32 + Wrap32(sum))
  {
    Wrap32IsModulo(sum);
  }

  lemma SameOnesSum(dropped: nat, kept: nat)
    requires dropped > 0
    ensures OnesSum(dropped + kept) == OnesSum(kept) <==> dropped % 0xffff == 0 && kept > 0
  {
    if OnesSum(dropped + kept) == OnesSum(kept) {
      var k := OnesSumCasts(dropped + kept);
      var l := OnesSumCasts(kept);
      assert dropped == 0xffff * (k - l);
    } else if dropped % 0xffff == 0 && kept > 0 {
      assert dropped == 0xffff * (dropped / 0xffff);
      OnesSumShift(dropped / 0xffff, kept);
    }
  }

  /** The checksum is the one of RFC 1071 exactly if the sum stays within 32 bits, or it drops a multiple
      of 65535 times 2^32 and keeps something. */
  lemma WrappedSumIsRight(seed: nat, buf: seq<byte>)
    ensures var sum := seed + WordSum(buf);
            Sum32(seed, buf) == Rfc1071(seed, buf)
            <==> sum < TWO_TO_THE_32 || ((sum / TWO_TO_THE_32) % 0xffff == 0 && sum % TWO_TO_THE_32 > 0)
  {
    var sum := seed + WordSum(buf);
    var dropped := sum / TWO_TO_THE_32;
    Wrap32IsModulo(sum);
    if sum >= TWO_TO_THE_32 {
      DroppedAndKept(sum);
      OnesSumShift(65537 * dropped, dropped + Wrap32(sum));
      SameOnesSum(dropped, Wrap32(sum));
    }
  }

  /** Any overflow of a sum that is not astronomic gives a wrong checksum. */
  lemma OverflowIsWrong(seed: nat, buf: seq<byte>)
    requires TWO_TO_THE_32 <= seed + WordSum(buf) < 0xffff * TWO_TO_THE_32
    ensures Sum32(seed, buf) != Rfc1071(seed, buf)
  {
    WrappedSumIsRight(seed, buf);
    var dropped := (seed + WordSum(buf)) / TWO_TO_THE_32;
    assert 0 < dropped < 0xffff;
  }

  /** `words` words of ones, then a byte `half`, then zeros up to `n` bytes. */
  function Loud(words: nat, half: byte, n: nat): (buf: seq<byte>)
    requires 2 * words + 1 <= n
    ensures |buf| == n
  {
    seq(2 * words, _ => 0xff) + [half] + seq(n - 2 * words - 1, _ => 0)
  }

  lemma {:induction false} WordSumOfLoud(words: nat, half: byte, n: nat)
    requires 2 * words + 1 <= n
    ensures WordSum(Loud(words, half, n)) == 0xffff * words + half * 0x100
    decreases words, n
  {
    var buf := Loud(words, half, n);
    if n > 2 * words + 2 {
      var m := if n % 2 == 1 then n - 1 else n - 2;
      assert buf[..m] == Loud(words, half, m);
      WordSumOfLoud(words, half, m);
      TrailingZeros(buf, m);
    } else {
      WordSumOfOnes(words);
      assert buf[..2 * words] == seq(2 * words, _ => 0xff);
      LastWord(buf, half);
    }
  }

  lemma TrailingZeros(buf: seq<byte>, m: nat)
    requires |buf| > 0 && m == (if |buf| % 2 == 1 then |buf| - 1 else |buf| - 2)
    requires buf[m] == 0 && buf[|buf| - 1] == 0
    ensures WordSum(buf) == WordSum(buf[..m])
  {
  }

  lemma LastWord(buf: seq<byte>, half: byte)
    requires |buf| > 0
    requires var m := if |buf| % 2 == 1 then |buf| - 1 else |buf| - 2;
             buf[m] == half && (m < |buf| - 1 ==> buf[|buf| - 1] == 0)
    ensures var m := if |buf| % 2 == 1 then |buf| - 1 else |buf| - 2;
            WordSum(buf) == WordSum(buf[..m]) + half * 0x100
  {
  }

  lemma {:induction false} WordSumOfOnes(words: nat)
    ensures WordSum(seq(2 * words, _ => 0xff)) == 0xffff * words
  {
    var buf: seq<byte> := seq(2 * words, _ => 0xff);
    if words != 0 {
      assert buf[..|buf| - 2] == seq(2 * (words - 1), _ => 0xff);
      WordSumOfOnes(words - 1);
    }
  }

  /** Up to 131074 bytes no addition of `cal_checksum` overflows, and the result is the RFC's. */
  lemma NoOverflow(buf: seq<byte>)
    requires |buf| <= 131074
    ensures WordSum(buf) < TWO_TO_THE_32
    ensures Sum32(0, buf) == Rfc1071(0, buf)
  {
    WordSumBound(buf);
    WrappedSumIsRight(0, buf);
  }

  /** `cal_checksum` is right for every buffer of a length exactly up to 131074 bytes. */
  lemma LengthLimit(n: nat)
    ensures (forall buf: seq<byte> :: |buf| == n ==> Sum32(0, buf) == Rfc1071(0, buf)) <==> n <= 131074
  {
    if n <= 131074 {
      forall buf: seq<byte> | |buf| == n ensures Sum32(0, buf) == Rfc1071(0, buf) {
        NoOverflow(buf);
      }
    } else {
      var buf := Loud(65537, 0xff, n);
      WordSumOfLoud(65537, 0xff, n);
      OverflowIsWrong(0, buf);
    }
  }

  /** One byte more: 131075 bytes of ones come out wrong. */
  lemma OverflowLosesACarry()
    ensures Sum32(0, Loud(65537, 0xff, 131075)) != Rfc1071(0, Loud(65537, 0xff, 131075))
  {
    WordSumOfLoud(65537, 0xff, 131075);
    OverflowIsWrong(0, Loud(65537, 0xff, 131075));
  }

  lemma PseudoHeaderBound(src: Ipv4Addr, dst: Ipv4Addr, protocol: byte, length: nat)
    ensures PseudoHeaderSum(src, dst, protocol, length) <= 4 * 0xffff + 0xff + length
    ensures PseudoHeaderSum(src, dst, protocol, length) < 2 * TWO_TO_THE_32
  {
  }

  /** With the pseudo header this holds up to 131061 bytes, beyond any IPv4 packet. */
  lemma NoOverflowIpv4(buf: seq<byte>, src: Ipv4Addr, dst: Ipv4Addr, protocol: byte)
    requires |buf| <= 131061
    ensures PseudoHeaderSum(src, dst, protocol, |buf|) + WordSum(buf) < TWO_TO_THE_32
    ensures PseudoHeaderIsRight(buf, src, dst, protocol)
  {
    WordSumBound(buf);
    PseudoHeaderBound(src, dst, protocol, |buf|);
    WrappedSumIsRight(PseudoHeaderSum(src, dst, protocol, |buf|), buf);
  }

  predicate PseudoHeaderIsRight(buf: seq<byte>, src: Ipv4Addr, dst: Ipv4Addr, protocol: byte) {
    var seed := PseudoHeaderSum(src, dst, protocol, |buf|);
    Sum32(seed, buf) == Rfc1071(seed, buf)
  }

  /** With the pseudo header, whatever it holds, 131061 bytes are the exact limit. */
  lemma LengthLimitIpv4(n: nat)
    ensures (forall buf: seq<byte>, src, dst, protocol: byte :: |buf| == n ==> PseudoHeaderIsRight(buf, src, dst, protocol))
      <==> n <= 131061
  {
    if n <= 131061 {
      forall buf: seq<byte>, src, dst, protocol: byte | |buf| == n ensures PseudoHeaderIsRight(buf, src, dst, protocol) {
        NoOverflowIpv4(buf, src, dst, protocol);
      }
    } else {
      var all := Ipv4Addr(0xff, 0xff, 0xff, 0xff);
      var buf := LoudestOf(n);
      PseudoHeaderBound(all, all, 0xff, n);
      OverflowIsWrong(PseudoHeaderSum(all, all, 0xff, n), buf);
      assert !PseudoHeaderIsRight(buf, all, all, 0xff);
    }
  }

  /** A buffer that is loud enough for an overflow together with a pseudo header of ones. */
  lemma LoudestOf(n: nat) returns (buf: seq<byte>)
    requires n > 131061
    ensures |buf| == n
    ensures TWO_TO_THE_32 <= WordSum(buf) + 4 * 0xffff + 0xff + n % TWO_TO_THE_32
    ensures WordSum(buf) < 2 * TWO_TO_THE_32
  {
    if n == 131062 {
      buf := seq(2 * 65531, _ => 0xff);
      WordSumOfOnes(65531);
    } else if n < 131075 {
      buf := Loud(65531, 0, n);
      WordSumOfLoud(65531, 0, n);
    } else {
      buf := Loud(65537, 0xff, n);
      WordSumOfLoud(65537, 0xff, n);
    }
  }

  // ----- the field that holds the checksum

  function HighByte(value: u16): byte {
    value / 0x100
  }

  function LowByte(value: u16): byte {
    value % 0x100
  }

  /** `buf` with the 16-bit field at `off` set to `value`. */
  function Stored(buf: seq<byte>, off: nat, value: u16): (r: seq<byte>)
    requires off + 2 <= |buf|
    ensures |r| == |buf|
    ensures forall i :: 0 <= i < |buf| && i != off && i != off + 1 ==> r[i] == buf[i]
  {
    buf[off := HighByte(value)][off + 1 := LowByte(value)]
  }

  lemma WordOfBytes(x: u16)
    ensures Word(HighByte(x), LowByte(x)) == x
  {
  }

  lemma StoredBytes(buf: seq<byte>, off: nat, x: u16)
    requires off + 2 <= |buf|
    ensures Stored(buf, off, x) == buf[..off] + [HighByte(x), LowByte(x)] + buf[off + 2..]
  {
  }

  lemma ThreeParts(a: seq<byte>, hi: byte, lo: byte, b: seq<byte>)
    requires |a| % 2 == 0
    ensures WordSum(a + [hi, lo] + b) == WordSum(a) + Word(hi, lo) + WordSum(b)
  {
    WordSumAppend(a, [hi, lo]);
    WordSumAppend(a + [hi, lo], b);
    WordSumOfOne(hi, lo);
  }

  lemma WordSumOfStored(buf: seq<byte>, off: nat, x: u16, y: u16)
    requires off % 2 == 0 && off + 2 <= |buf|
    ensures WordSum(Stored(buf, off, y)) - y == WordSum(Stored(buf, off, x)) - x
  {
    StoredBytes(buf, off, x);
    StoredBytes(buf, off, y);
    ThreeParts(buf[..off], HighByte(x), LowByte(x), buf[off + 2..]);
    ThreeParts(buf[..off], HighByte(y), LowByte(y), buf[off + 2..]);
    WordOfBytes(x);
    WordOfBytes(y);
  }

  /** Completing a 32-bit sum to a positive multiple of 65535 never leaves 32 bits, because
      2^32 - 1 is such a multiple. */
  lemma Complete(w: nat)
    requires w < TWO_TO_THE_32
    ensures 0 < w + (0xffff - OnesSum(w)) < TWO_TO_THE_32
    ensures OnesSum(w + (0xffff - OnesSum(w))) == 0xffff
  {
    var k := OnesSumCasts(w);
    if w > 0 {
      OnesSumShift(k, 0xffff);
    }
  }

  lemma {:induction false} OnesSumCasts(sum: nat) returns (k: nat)
    ensures sum == 0xffff * k + OnesSum(sum)
    ensures sum > 0 ==> OnesSum(sum) > 0
  {
    k := 0;
    if sum > 0xffff {
      var l := OnesSumCasts(sum - 0xffff);
      k := l + 1;
    }
  }

  lemma CompletedSum(sum: nat)
    ensures OnesSum(Wrap32(sum + (0xffff - OnesSum(Wrap32(sum))))) == 0xffff
  {
    Complete(Wrap32(sum));
    WrapAdd(sum, 0xffff - OnesSum(Wrap32(sum)));
  }

  /** Writing the checksum, computed with the field zeroed, into an even-aligned field makes the
      recomputation give 0.  This needs no length limit: even a sum that wrapped is completed
      without wrapping once more. */
  lemma StoringTheChecksumValidates(seed: nat, buf: seq<byte>, off: nat)
    requires off % 2 == 0 && off + 2 <= |buf|
    ensures Sum32(seed, Stored(buf, off, Sum32(seed, Stored(buf, off, 0)))) == 0
  {
    var c := Sum32(seed, Stored(buf, off, 0));
    var sum := seed + WordSum(Stored(buf, off, 0));
    CompletedSum(sum);
    WordSumOfStored(buf, off, 0, c);
    assert seed + WordSum(Stored(buf, off, c)) == sum + c;
  }

  lemma OneWord(rest: nat, x: u16, y: u16)
    requires OnesSum(rest + x) == 0xffff
    ensures OnesSum(rest + y) == 0xffff <==>
              x == y || (x == 0 && y == 0xffff) || (x == 0xffff && y == 0 && rest > 0)
  {
    OnesSumFull(rest + x);
    OnesSumFull(rest + y);
    var p, q := (rest + x) / 0xffff, (rest + y) / 0xffff;
    assert OnesSum(rest + y) == 0xffff ==> x - y == 0xffff * (p - q);
    if (x == 0 && y == 0xffff) || (x == 0xffff && y == 0 && rest > 0) {
      OnesSumShift(1, rest);
    }
  }

  lemma Sum32OfStored(seed: nat, buf: seq<byte>, off: nat, x: u16)
    requires off % 2 == 0 && off + 2 <= |buf|
    ensures Sum32(seed, Stored(buf, off, x)) == 0xffff - OnesSum(Wrap32(Wrap32(seed + WordSum(Stored(buf, off, 0))) + x))
  {
    WordSumOfStored(buf, off, 0, x);
    WrapAdd(seed + WordSum(Stored(buf, off, 0)), x);
  }

  /** So close to 2^32 that some word makes the sum wrap, only one word completes it. */
  lemma NearTheTop(rest: nat, x: u16)
    requires rest < TWO_TO_THE_32 <= rest + 0xffff
    ensures OnesSum(Wrap32(rest + x)) == 0xffff <==> rest + x == TWO_TO_THE_32 - 1
  {
    OnesSumFull(Wrap32(rest + x));
    assert TWO_TO_THE_32 - 1 == 0xffff * 65537;
  }

  /** Which corruptions of one word a valid checksum misses: only swapping 0 and 0xffff, if the rest of
      the sum leaves room for both. */
  lemma OneWordCorruption(seed: nat, buf: seq<byte>, off: nat, x: u16, y: u16)
    requires off % 2 == 0 && off + 2 <= |buf|
    ensures Sum32(seed, Stored(buf, off, x)) == 0 ==>
            var rest := Wrap32(seed + WordSum(Stored(buf, off, 0)));
            (Sum32(seed, Stored(buf, off, y)) == 0 <==>
              || x == y
              || (rest + 0xffff < TWO_TO_THE_32 && x == 0 && y == 0xffff)
              || (rest + 0xffff < TWO_TO_THE_32 && x == 0xffff && y == 0 && rest > 0))
  {
    var rest := Wrap32(seed + WordSum(Stored(buf, off, 0)));
    Sum32OfStored(seed, buf, off, x);
    Sum32OfStored(seed, buf, off, y);
    if Sum32(seed, Stored(buf, off, x)) == 0 {
      if rest + 0xffff < TWO_TO_THE_32 {
        OneWord(rest, x, y);
      } else {
        NearTheTop(rest, x);
        NearTheTop(rest, y);
      }
    }
  }

  // ----- the three packet types

  /** An ICMP message: the checksum at offset 2 covers the message alone. */
  class IcmpPacket {
    const buffer: array<byte>

    constructor (buffer: array<byte>)
      requires buffer.Length >= 8
      ensures this.buffer == buffer && Valid()
    {
      this.buffer := buffer;
    }

    /** A message has at least 8 bytes. */
    static method New(buffer: array<byte>) returns (packet: Option<IcmpPacket>)
      ensures packet.Some? <==> buffer.Length >= 8
      ensures packet.Some? ==> fresh(packet.value) && packet.value.Valid() && packet.value.buffer == buffer
    {
      if buffer.Length < 8 {
        return None;
      }
      var p := new IcmpPacket(buffer);
      return Some(p);
    }

    ghost predicate Valid() {
      buffer.Length >= 8
    }

    method IsValid() returns (valid: bool)
      requires Valid()
      ensures valid <==> Word(buffer[2], buffer[3]) == 0 || Sum32(0, buffer[..]) == 0
    {
      var sum := CalChecksum(buffer[..]);
      valid := Word(buffer[2], buffer[3]) == 0 || sum == 0;
    }

    method UpdateChecksum()
      requires Valid()
      modifies buffer
      ensures buffer[..] == Stored(old(buffer[..]), 2, Sum32(0, Stored(old(buffer[..]), 2, 0)))
      ensures Sum32(0, buffer[..]) == 0
    {
      StoringTheChecksumValidates(0, buffer[..], 2);
      SetField(buffer, 2, 0);
      var checksum := CalChecksum(buffer[..]);
      SetField(buffer, 2, checksum);
    }
  }

  /** A UDP datagram or a TCP segment: the checksum also covers the pseudo header. */
  class TransportPacket {
    const source: Ipv4Addr
    const destination: Ipv4Addr
    const protocol: byte
    const checksumAt: nat
    const buffer: array<byte>

    constructor (source: Ipv4Addr, destination: Ipv4Addr, protocol: byte, checksumAt: nat, buffer: array<byte>)
      requires checksumAt % 2 == 0 && checksumAt + 2 <= buffer.Length
      ensures Valid() && this.buffer == buffer && this.checksumAt == checksumAt && this.protocol == protocol
      ensures this.source == source && this.destination == destination
    {
      this.source, this.destination, this.protocol := source, destination, protocol;
      this.checksumAt, this.buffer := checksumAt, buffer;
    }

    /** A UDP datagram has at least its 8-byte header. */
    static method Udp(source: Ipv4Addr, destination: Ipv4Addr, buffer: array<byte>)
      returns (packet: Option<TransportPacket>)
      ensures packet.Some? <==> buffer.Length >= 8
      ensures packet.Some? ==>
                && fresh(packet.value) && packet.value.Valid() && packet.value.buffer == buffer
                && packet.value.checksumAt == 6 && packet.value.protocol == 17
                && packet.value.source == source && packet.value.destination == destination
    {
      if buffer.Length < 8 {
        return None;
      }
      var p := new TransportPacket(source, destination, 17, 6, buffer);
      return Some(p);
    }

    /** A TCP segment has at least 20 bytes, and as many 32-bit words as its data offset says. */
    static method Tcp(source: Ipv4Addr, destination: Ipv4Addr, buffer: array<byte>)
      returns (packet: Option<TransportPacket>)
      ensures packet.Some? <==> buffer.Length >= 20 && buffer.Length >= buffer[12] / 0x10 * 4
      ensures packet.Some? ==>
                && fresh(packet.value) && packet.value.Valid() && packet.value.buffer == buffer
                && packet.value.checksumAt == 16 && packet.value.protocol == 6
                && packet.value.source == source && packet.value.destination == destination
    {
      if buffer.Length < 20 {
        return None;
      }
      if buffer.Length < buffer[12] / 0x10 * 4 {
        return None;
      }
      var p := new TransportPacket(source, destination, 6, 16, buffer);
      return Some(p);
    }

    ghost predicate Valid() {
      checksumAt % 2 == 0 && checksumAt + 2 <= buffer.Length
    }

    method IsValid() returns (valid: bool)
      requires Valid()
      ensures var seed := PseudoHeaderSum(source, destination, protocol, buffer.Length);
              valid <==> Word(buffer[checksumAt], buffer[checksumAt + 1]) == 0 || Sum32(seed, buffer[..]) == 0
    {
      var sum := Ipv4CalChecksum(buffer[..], source, destination, protocol);
      valid := Word(buffer[checksumAt], buffer[checksumAt + 1]) == 0 || sum == 0;
    }

    method UpdateChecksum()
      requires Valid()
      modifies buffer
      ensures var seed := PseudoHeaderSum(source, destination, protocol, buffer.Length);
        && buffer[..] == Stored(old(buffer[..]), checksumAt, Sum32(seed, Stored(old(buffer[..]), checksumAt, 0)))
        && Sum32(seed, buffer[..]) == 0
    {
      StoringTheChecksumValidates(PseudoHeaderSum(source, destination, protocol, buffer.Length), buffer[..], checksumAt);
      SetField(buffer, checksumAt, 0);
      var checksum := Ipv4CalChecksum(buffer[..], source, destination, protocol);
      SetField(buffer, checksumAt, checksum);
    }
  }

  method SetField(buffer: array<byte>, off: nat, value: u16)
    requires off + 2 <= buffer.Length
    modifies buffer
    ensures buffer[..] == Stored(old(buffer[..]), off, value)
  {
    buffer[off] := value / 0x100;
    buffer[off + 1] := value % 0x100;
  }
}
