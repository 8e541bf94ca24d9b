/** The streaming SHA-1 that WebSocket handshakes are answered with (src/libfootball/sha1.c), against the
    definition of RFC 3174. */
module Sha1 {
  import opened Basics

  /** The buffers A to E, or H0 to H4. */
  datatype Words = Words(a: bv32, b: bv32, c: bv32, d: bv32, e: bv32)

  // ---------------------------------------------------------------- one block (RFC 3174, sections 3, 5 and 6.1)

  function Add(x: bv32, y: bv32): bv32 {
    x + y
  }

  function Rotl1(x: bv32): bv32 {
    (x << 1) | (x >> 31)
  }

  function Rotl5(x: bv32): bv32 {
    (x << 5) | (x >> 27)
  }

  function Rotl30(x: bv32): bv32 {
    (x << 30) | (x >> 2)
  }

  function Xor4(w: bv32, x: bv32, y: bv32, z: bv32): bv32 {
    w ^ x ^ y ^ z
  }

  function Choose(b: bv32, c: bv32, d: bv32): bv32 {
    (b & c) | ((!b) & d)
  }

  function Parity(b: bv32, c: bv32, d: bv32): bv32 {
    b ^ c ^ d
  }

  function Majority(b: bv32, c: bv32, d: bv32): bv32 {
    (b & c) | (b & d) | (c & d)
  }

  /** f(t;B,C,D) */
  function F(t: nat, b: bv32, c: bv32, d: bv32): bv32 {
    if t < 20 then Choose(b, c, d)
    else if t < 40 then Parity(b, c, d)
    else if t < 60 then Majority(b, c, d)
    else Parity(b, c, d)
  }

  /** K(t) */
  function K(t: nat): bv32 {
    if t < 20 then 0x5A827999 else if t < 40 then 0x6ED9EBA1 else if t < 60 then 0x8F1BBCDC else 0xCA62C1D6
  }

  function BigEndian(b0: bv8, b1: bv8, b2: bv8, b3: bv8): bv32 {
    ((b0 as bv32) << 24) | ((b1 as bv32) << 16) | ((b2 as bv32) << 8) | (b3 as bv32)
  }

  /** W(t) */
  function W(block: seq<bv8>, t: nat): bv32
    requires |block| == 64
  {
    if t < 16 then BigEndian(block[4 * t], block[4 * t + 1], block[4 * t + 2], block[4 * t + 3])
    else Rotl1(Xor4(W(block, t - 3), W(block, t - 8), W(block, t - 14), W(block, t - 16)))
  }

  /** Step d of section 6.1 for one t. */
  function Round(s: Words, f: bv32, w: bv32, k: bv32): Words {
    Words(Add(Add(Add(Add(Rotl5(s.a), f), s.e), w), k), s.a, Rotl30(s.b), s.c, s.d)
  }

  function Rounds(s: Words, block: seq<bv8>, t: nat): Words
    requires |block| == 64
  {
    if t == 0 then s
    else
      var r := Rounds(s, block, t - 1);
      Round(r, F(t - 1, r.b, r.c, r.d), W(block, t - 1), K(t - 1))
  }

  // What these come to, bit by bit (section 3, c and e, and section 5).

  predicate Bit(x: bv32, i: bv6)
    requires i < 32
  {
    (x >> i) & 1 == 1
  }

  /** Circular left shifts: every bit moves up by so many places, those at the top to the bottom. */
  lemma RotatesBits(x: bv32, i: bv6)
    requires i < 32
    ensures Bit(Rotl1(x), (i + 1) % 32) <==> Bit(x, i)
    ensures Bit(Rotl5(x), (i + 5) % 32) <==> Bit(x, i)
    ensures Bit(Rotl30(x), (i + 30) % 32) <==> Bit(x, i)
  {
  }

  /** The longer shifts come to the short one, as often as there are bits to shift by. */
  lemma RotatesBack(x: bv32)
    ensures Rotl5(x) == Rotl1(Rotl1(Rotl1(Rotl1(Rotl1(x)))))
    ensures Rotl30(Rotl1(Rotl1(x))) == x
  {
  }

  /** Where bits of the first word are set, those of the second are chosen, and elsewhere of the third. */
  lemma ChoosesBits(b: bv32, c: bv32, d: bv32)
    ensures b & Choose(b, c, d) == b & c && !b & Choose(b, c, d) == !b & d
  {
  }

  /** Where two words agree the majority is theirs, and elsewhere it is with the third. */
  lemma VotesOnBits(b: bv32, c: bv32, d: bv32)
    ensures !(b ^ c) & Majority(b, c, d) == !(b ^ c) & b && (b ^ c) & Majority(b, c, d) == (b ^ c) & d
  {
  }

  /** Taking two words out of the sum leaves the third. */
  lemma AddsBits(b: bv32, c: bv32, d: bv32)
    ensures Parity(b, c, d) ^ b ^ c == d
  {
  }

  /** A word, written as four octets, the highest first, is read back. */
  lemma OctetsAreWord(w: bv32)
    ensures var o := WordOctets(w); BigEndian(o[0], o[1], o[2], o[3]) == w
  {
  }

  /** And four octets, read as a word, are written back. */
  lemma WordIsOctets(b0: bv8, b1: bv8, b2: bv8, b3: bv8)
    ensures WordOctets(BigEndian(b0, b1, b2, b3)) == [b0, b1, b2, b3]
  {
  }

  /** The words of a block, all worked out. */
  predicate Scheduled(words: seq<bv32>, block: seq<bv8>)
    requires |block| == 64
  {
    |words| == 80 && forall t :: 0 <= t < 80 ==> words[t] == W(block, t)
  }

  function Sum(s: Words, r: Words): Words {
    Words(Add(s.a, r.a), Add(s.b, r.b), Add(s.c, r.c), Add(s.d, r.d), Add(s.e, r.e))
  }

  function Compress(h: Words, block: seq<bv8>): Words
    requires |block| == 64
  {
    Sum(h, Rounds(h, block, 80))
  }

  // ---------------------------------------------------------------- a whole message (sections 4 and 6.1)

  const INITIAL := Words(0x67452301, 0xEFCDAB89, 0x98BADCFE, 0x10325476, 0xC3D2E1F0)

  /** The blocks of a message one after the other; what is left over at its end plays no part. */
  function HashBlocks(h: Words, message: seq<bv8>): Words
    decreases |message|
  {
    if |message| < 64 then h else HashBlocks(Compress(h, message[..64]), message[64..])
  }

  function Zeros(n: nat): (r: seq<bv8>)
    ensures |r| == n && forall i :: 0 <= i < n ==> r[i] == 0
  {
    seq(n, i => 0)
  }

  const TWO32: nat := 0x1_0000_0000

  /** The lowest octet of a number. */
  function Octet(n: nat): bv8 {
    (n % 256) as bv8
  }

  /** A 64-bit number in two words, the high one first, as octets. */
  function LengthOctets(high: nat, low: nat): (r: seq<bv8>)
    ensures |r| == 8
  {
    [Octet(high / 0x100_0000), Octet(high / 0x1_0000), Octet(high / 0x100), Octet(high),
     Octet(low / 0x100_0000), Octet(low / 0x1_0000), Octet(low / 0x100), Octet(low)]
  }

  function Power256(k: nat): (r: nat)
    ensures r > 0
  {
    if k == 0 then 1 else 256 * Power256(k - 1)
  }

  /** The octet worth 256^k of a number. */
  function DigitAt(n: nat, k: nat): bv8 {
    Octet(Quotient(n, Power256(k)))
  }

  function Quotient(n: nat, unit: nat): nat
    requires unit > 0
  {
    n / unit
  }

  lemma Powers()
    ensures Power256(0) == 1 && Power256(1) == 0x100 && Power256(2) == 0x1_0000 && Power256(3) == 0x100_0000 && Power256(4) == TWO32
    ensures Power256(5) == TWO32 * 0x100 && Power256(6) == TWO32 * 0x1_0000 && Power256(7) == TWO32 * 0x100_0000
  {
  }

  /** Digits of the high word are digits of the number behind those of the low word, */
  lemma HighDigit(high: nat, low: nat, unit: nat)
    requires low < TWO32 && unit > 0
    ensures (high * TWO32 + low) / (TWO32 * unit) == high / unit
  {
    var n, q, r := high * TWO32 + low, high / unit, high % unit;
    assert high == q * unit + r;
    assert n == q * (TWO32 * unit) + (r * TWO32 + low);
    assert r * TWO32 + low < TWO32 * unit by {
      assert (r + 1) * TWO32 <= unit * TWO32;
    }
    QuotientIs(n, TWO32 * unit, q, r * TWO32 + low);
  }

  lemma QuotientIs(n: nat, unit: nat, q: nat, r: nat)
    requires n == q * unit + r && r < unit
    ensures n / unit == q
  {
    assert n == (n / unit) * unit + n % unit;
    assert (q - n / unit) * unit == n % unit - r;
    OnlyZero(q - n / unit, unit);
  }

  lemma OnlyZero(d: int, unit: int)
    requires 0 - unit < d * unit < unit
    ensures d == 0
  {
  }

  /** and digits of the low word are digits of the number. */
  lemma LowDigit(high: nat, low: nat, unit: nat, more: nat)
    requires unit > 0 && 256 * more * unit == TWO32
    ensures (high * TWO32 + low) / unit % 256 == low / unit % 256
  {
    var n, q, r := high * TWO32 + low, low / unit, low % unit;
    assert low == q * unit + r;
    assert high * TWO32 == 256 * (high * more) * unit;
    assert n == (256 * (high * more) + q) * unit + r;
    QuotientIs(n, unit, 256 * (high * more) + q, r);
    RestIs(high * more, q);
  }

  lemma RestIs(k: nat, q: nat)
    ensures (256 * k + q) % 256 == q % 256
  {
  }

  /** The octets at the end of the padding are the 64-bit number of bits, digit by digit. */
  lemma LengthDigit(high: nat, low: nat, i: nat)
    requires high < TWO32 && low < TWO32 && i < 8
    ensures LengthOctets(high, low)[i] == DigitAt(high * TWO32 + low, 7 - i)
  {
    Powers();
    hide Power256;
    if i < 4 {
      HighDigit(high, low, if i == 0 then 0x100_0000 else if i == 1 then 0x1_0000 else if i == 2 then 0x100 else 1);
    } else {
      LowDigit(high, low, if i == 4 then 0x100_0000 else if i == 5 then 0x1_0000 else if i == 6 then 0x100 else 1,
               if i == 4 then 1 else if i == 5 then 0x100 else if i == 6 then 0x1_0000 else 0x100_0000);
    }
  }

  /** The padding of a message: a one bit, as few zeros as make it fit, and its length in bits. */
  function Padding(length: nat): seq<bv8> {
    [0x80] + Zeros(Gap(length)) + LengthOctets(8 * length / TWO32, 8 * length % TWO32)
  }

  /** The zeros between the one bit and the length. */
  function Gap(length: nat): nat {
    if length % 64 <= 55 then 55 - length % 64 else 119 - length % 64
  }

  function Padded(message: seq<bv8>): seq<bv8> {
    message + Padding(|message|)
  }

  /** Padding is the least that fills the last block. */
  lemma PaddingFits(length: nat)
    ensures |Padding(length)| == 9 + Gap(length) && Gap(length) < 64
    ensures (length + 9 + Gap(length)) % 64 == 0
  {
    hide Zeros, LengthOctets;
    assert length == length / 64 * 64 + length % 64;
  }

  /** What a message digest of less than 2^64 bits is. */
  function Digest(message: seq<bv8>): seq<bv8> {
    Octets(HashBlocks(INITIAL, Padded(message)))
  }

  function WordOctets(w: bv32): seq<bv8> {
    [(w >> 24) as bv8, ((w >> 16) & 0xff) as bv8, ((w >> 8) & 0xff) as bv8, (w & 0xff) as bv8]
  }

  function Octets(h: Words): seq<bv8> {
    WordOctets(h.a) + WordOctets(h.b) + WordOctets(h.c) + WordOctets(h.d) + WordOctets(h.e)
  }

  lemma {:induction false} HashBlocksAppend(h: Words, message: seq<bv8>, more: seq<bv8>)
    requires |message| % 64 == 0
    ensures HashBlocks(h, message + more) == HashBlocks(HashBlocks(h, message), more)
    decreases |message|
  {
    hide Compress;
    if message == [] {
      assert message + more == more;
    } else {
      assert (message + more)[..64] == message[..64] && (message + more)[64..] == message[64..] + more;
      HashBlocksAppend(Compress(h, message[..64]), message[64..], more);
    }
  }

  /** Whole blocks of a message, and what is left over. */
  function Whole(message: seq<bv8>): nat {
    |message| - |message| % 64
  }

  lemma HashWhole(h: Words, message: seq<bv8>, more: seq<bv8>)
    ensures HashBlocks(h, message + more) == HashBlocks(HashBlocks(h, message), message[Whole(message)..] + more)
  {
    hide Compress;
    var whole := message[..Whole(message)];
    var rest := message[Whole(message)..];
    HashBlocksAppend(h, whole, rest);
    HashBlocksAppend(h, whole, rest + more);
    assert whole + rest == message && whole + (rest + more) == message + more;
  }

  lemma HashOne(h: Words, block: seq<bv8>)
    requires |block| == 64
    ensures HashBlocks(h, block) == Compress(h, block)
  {
    hide Compress;
    assert block[..64] == block;
  }

  lemma CompressIs(h: Words, block: seq<bv8>)
    requires |block| == 64
    ensures Compress(h, block) == Sum(h, Rounds(h, block, 80))
  {
    hide Rounds;
  }

  lemma RoundsNone(s: Words, block: seq<bv8>)
    requires |block| == 64
    ensures Rounds(s, block, 0) == s
  {
  }

  lemma Phase0(h: Words, block: seq<bv8>, words: seq<bv32>, t: nat)
    requires |block| == 64 && Scheduled(words, block) && t < 20
    ensures var s := Rounds(h, block, t);
            |words| == 80 && Rounds(h, block, t + 1) == Round(s, Choose(s.b, s.c, s.d), words[t], 0x5A827999)
  {
    hide Round;
  }

  lemma Phase1(h: Words, block: seq<bv8>, words: seq<bv32>, t: nat)
    requires |block| == 64 && Scheduled(words, block) && 20 <= t < 40
    ensures var s := Rounds(h, block, t);
            |words| == 80 && Rounds(h, block, t + 1) == Round(s, Parity(s.b, s.c, s.d), words[t], 0x6ED9EBA1)
  {
    hide Round;
  }

  lemma Phase2(h: Words, block: seq<bv8>, words: seq<bv32>, t: nat)
    requires |block| == 64 && Scheduled(words, block) && 40 <= t < 60
    ensures var s := Rounds(h, block, t);
            |words| == 80 && Rounds(h, block, t + 1) == Round(s, Majority(s.b, s.c, s.d), words[t], 0x8F1BBCDC)
  {
    hide Round;
  }

  lemma Phase3(h: Words, block: seq<bv8>, words: seq<bv32>, t: nat)
    requires |block| == 64 && Scheduled(words, block) && 60 <= t < 80
    ensures var s := Rounds(h, block, t);
            |words| == 80 && Rounds(h, block, t + 1) == Round(s, Parity(s.b, s.c, s.d), words[t], 0xCA62C1D6)
  {
    hide Round;
  }

  // The four loops of SHA1ProcessMessageBlock over the word buffers; the second and the fourth differ in
  // where they start and in their constant.

  method ChooseRounds(words: array<bv32>, start: Words, ghost h: Words, ghost block: seq<bv8>) returns (s: Words)
    requires |block| == 64 && Scheduled(words[..], block) && start == Rounds(h, block, 0)
    ensures s == Rounds(h, block, 20)
  {
    hide Round, Rounds, Scheduled, Choose;
    s := start;
    var t := 0;
    while t < 20
      invariant 0 <= t <= 20 && s == Rounds(h, block, t)
    {
      Phase0(h, block, words[..], t);
      s := Round(s, Choose(s.b, s.c, s.d), words[t], 0x5A827999);
      t := t + 1;
    }
  }

  method ParityRounds(words: array<bv32>, start: Words, from: nat, k: bv32, ghost h: Words, ghost block: seq<bv8>) returns (s: Words)
    requires |block| == 64 && Scheduled(words[..], block) && start == Rounds(h, block, from)
    requires (from == 20 && k == 0x6ED9EBA1) || (from == 60 && k == 0xCA62C1D6)
    ensures s == Rounds(h, block, from + 20)
  {
    hide Round, Rounds, Scheduled, Parity;
    s := start;
    var t := from;
    while t < from + 20
      invariant from <= t <= from + 20 && s == Rounds(h, block, t)
    {
      if from == 20 {
        Phase1(h, block, words[..], t);
      } else {
        Phase3(h, block, words[..], t);
      }
      s := Round(s, Parity(s.b, s.c, s.d), words[t], k);
      t := t + 1;
    }
  }

  method MajorityRounds(words: array<bv32>, start: Words, ghost h: Words, ghost block: seq<bv8>) returns (s: Words)
    requires |block| == 64 && Scheduled(words[..], block) && start == Rounds(h, block, 40)
    ensures s == Rounds(h, block, 60)
  {
    hide Round, Rounds, Scheduled, Majority;
    s := start;
    var t := 40;
    while t < 60
      invariant 40 <= t <= 60 && s == Rounds(h, block, t)
    {
      Phase2(h, block, words[..], t);
      s := Round(s, Majority(s.b, s.c, s.d), words[t], 0x8F1BBCDC);
      t := t + 1;
    }
  }

  // ---------------------------------------------------------------- the streaming form

  const SUCCESS := 0
  const TOO_LONG := 1
  const STATE_ERROR := 3

  /** SHA1Context. */
  class Context {
    var hash: Words
    /** Length in bits, as two words. */
    var lengthLow: nat
    var lengthHigh: nat
    var index: nat
    const block: array<bv8>
    var computed: bool
    var corrupted: nat
    /** All the input since the last reset. */
    ghost var message: seq<bv8>

    ghost predicate Valid()
      reads this, block
    {
      && block.Length == 64 && index < 64
      && lengthLow < TWO32 && lengthHigh < TWO32
      && (corrupted == SUCCESS ==>
            if computed then hash == HashBlocks(INITIAL, Padded(message)) else Streaming())
    }

    /** Everything put in so far is hashed or in the block. */
    ghost predicate Streaming()
      reads this, block
    {
      && block.Length == 64 && index == |message| % 64
      && hash == HashBlocks(INITIAL, message)
      && block[..index] == message[Whole(message)..]
      && Counts(lengthHigh, lengthLow, |message|)
    }

    constructor ()
      ensures Valid() && fresh(block) && Ready()
    {
      hash, lengthLow, lengthHigh, index, computed, corrupted, message := INITIAL, 0, 0, 0, false, SUCCESS, [];
      block := new bv8[64];
    }

    ghost predicate Ready()
      reads this
    {
      !computed && corrupted == SUCCESS && message == []
    }

    /** SHA1Reset. */
    method Reset()
      requires Valid()
      modifies this
      ensures Valid() && Ready()
    {
      hash, lengthLow, lengthHigh, index, computed, corrupted, message := INITIAL, 0, 0, 0, false, SUCCESS, [];
    }

    /** SHA1ProcessMessageBlock. */
    method ProcessMessageBlock()
      requires block.Length == 64
      modifies this`hash, this`index
      ensures hash == Compress(old(hash), block[..]) && index == 0
    {
      ghost var octets := block[..];
      CompressIs(hash, octets);
      hide W, Sum, Scheduled, Rounds, Compress;
      RoundsNone(hash, octets);
      var words := Schedule();
      assert block[..] == octets;
      var s := ChooseRounds(words, hash, hash, octets);
      s := ParityRounds(words, s, 20, 0x6ED9EBA1, hash, octets);
      s := MajorityRounds(words, s, hash, octets);
      s := ParityRounds(words, s, 60, 0xCA62C1D6, hash, octets);
      hash := Sum(hash, s);
      index := 0;
    }

    /** The word sequence of the block. */
    method Schedule() returns (words: array<bv32>)
      requires block.Length == 64
      ensures fresh(words) && words.Length == 80
      ensures Scheduled(words[..], block[..])
    {
      hide BigEndian, Rotl1, Xor4;
      ghost var octets := block[..];
      words := new bv32[80];
      var t := 0;
      while t < 16
        invariant t <= 16
        invariant forall u :: 0 <= u < t ==> words[u] == W(octets, u)
      {
        words[t] := BigEndian(block[t * 4], block[t * 4 + 1], block[t * 4 + 2], block[t * 4 + 3]);
        t := t + 1;
      }
      while t < 80
        invariant 16 <= t <= 80
        invariant forall u :: 0 <= u < t ==> words[u] == W(octets, u)
      {
        words[t] := Rotl1(Xor4(words[t - 3], words[t - 8], words[t - 14], words[t - 16]));
        t := t + 1;
      }
    }

    /** The two words that count the bits, one octet on. */
    method CountOctet()
      modifies this`lengthHigh, this`lengthLow, this`corrupted
      ensures lengthLow == (old(lengthLow) + 8) % TWO32
      ensures lengthHigh == if lengthLow == 0 then (old(lengthHigh) + 1) % TWO32 else old(lengthHigh)
      ensures corrupted == if lengthLow == 0 && lengthHigh == 0 then TOO_LONG else old(corrupted)
    {
      lengthLow := (lengthLow + 8) % TWO32;
      if lengthLow == 0 {
        lengthHigh := (lengthHigh + 1) % TWO32;
        if lengthHigh == 0 {
          corrupted := TOO_LONG;
        }
      }
    }

    method StoreOctet(octet: bv8)
      requires block.Length == 64 && index < 64
      modifies this`index, block
      ensures index == old(index) + 1 && block[..index] == old(block[..index]) + [octet]
    {
      block[index] := octet;
      index := index + 1;
    }

    method HashIfFull()
      requires block.Length == 64 && index <= 64
      modifies this`hash, this`index
      ensures hash == HashBlocks(old(hash), block[..old(index)])
      ensures index == if old(index) == 64 then 0 else old(index)
    {
      hide HashBlocks, Compress;
      if index == 64 {
        assert block[..] == block[..index];
        HashOne(hash, block[..]);
        ProcessMessageBlock();
      } else {
        HashNone(hash, block[..index]);
      }
    }

    /** One turn of the loop in SHA1Input. */
    method InputOctet(octet: bv8)
      requires Valid() && !computed && corrupted == SUCCESS
      modifies this, block
      ensures Valid() && !computed && message == old(message) + [octet]
      ensures corrupted == if 8 * |message| < TWO32 * TWO32 then SUCCESS else TOO_LONG
    {
      hide HashBlocks, Compress, Padded, Whole, Counts;
      HashWhole(INITIAL, message, [octet]);
      WholeStep(message, octet);
      LengthStep(|message|, lengthHigh, lengthLow);
      StoreOctet(octet);
      message := message + [octet];
      CountOctet();
      HashIfFull();
    }

    /** SHA1Input. A call that takes the message to 2^64 bits still reports success; what comes after
        it does not. */
    method Input(data: seq<bv8>) returns (status: nat)
      requires Valid()
      modifies this, block
      ensures Valid() && computed == old(computed)
      ensures data == [] ==> status == SUCCESS && message == old(message) && corrupted == old(corrupted)
      ensures data != [] && old(computed) ==> status == STATE_ERROR && corrupted == STATE_ERROR
      ensures data != [] && !old(computed) && old(corrupted) != SUCCESS ==> status == old(corrupted) && corrupted == old(corrupted)
      ensures data != [] && !old(computed) && old(corrupted) == SUCCESS ==>
                && status == SUCCESS
                && corrupted == (if 8 * (|old(message)| + |data|) < TWO32 * TWO32 then SUCCESS else TOO_LONG)
                && (corrupted == SUCCESS ==> message == old(message) + data)
    {
      if data == [] {
        return SUCCESS;
      }
      if computed {
        corrupted := STATE_ERROR;
        return STATE_ERROR;
      }
      if corrupted != SUCCESS {
        return corrupted;
      }
      var i := 0;
      while i < |data| && corrupted == SUCCESS
        invariant i <= |data| && Valid() && !computed
        invariant message == old(message) + data[..i]
        invariant corrupted == if 8 * |message| < TWO32 * TWO32 then SUCCESS else TOO_LONG
      {
        InputOctet(data[i]);
        i := i + 1;
      }
      return SUCCESS;
    }

    /** Fills the block with zeros up to a place. */
    method FillZeros(limit: nat)
      requires block.Length == 64 && index <= limit <= 64
      modifies this`index, block
      ensures index == limit && block[..limit] == old(block[..index]) + Zeros(limit - old(index))
    {
      while index < limit
        invariant old(index) <= index <= limit
        invariant block[..index] == old(block[..index]) + Zeros(index - old(index))
      {
        block[index] := 0;
        index := index + 1;
      }
    }

    method PutLength()
      requires block.Length == 64
      modifies block
      ensures block[..] == old(block[..56]) + LengthOctets(lengthHigh, lengthLow)
    {
      block[56] := Octet(lengthHigh / 0x100_0000);
      block[57] := Octet(lengthHigh / 0x1_0000);
      block[58] := Octet(lengthHigh / 0x100);
      block[59] := Octet(lengthHigh);
      block[60] := Octet(lengthLow / 0x100_0000);
      block[61] := Octet(lengthLow / 0x1_0000);
      block[62] := Octet(lengthLow / 0x100);
      block[63] := Octet(lengthLow);
    }

    /** Padding that does not fit into the block: the block is hashed and another begun. */
    method PadTwoBlocks(ghost rest: seq<bv8>, ghost length: seq<bv8>)
      requires block.Length == 64 && 55 < index < 64 && block[..index] == rest && |length| == 8
      modifies this`hash, this`index, block
      ensures Compress(hash, block[..56] + length) == HashBlocks(old(hash), rest + ([0x80] + Zeros(119 - |rest|) + length))
    {
      hide HashBlocks, Compress;
      TwoBlocks(hash, rest, length);
      block[index] := 0x80;
      index := index + 1;
      assert block[..index] == rest + [0x80];
      FillZeros(64);
      assert block[..] == block[..64];
      ProcessMessageBlock();
      assert block[..index] == [];
      FillZeros(56);
      assert block[..56] == Zeros(56);
    }

    /** Padding that fits into the block. */
    method PadOneBlock(ghost rest: seq<bv8>, ghost length: seq<bv8>)
      requires block.Length == 64 && index <= 55 && block[..index] == rest && |length| == 8
      modifies this`index, block
      ensures Compress(hash, block[..56] + length) == HashBlocks(hash, rest + ([0x80] + Zeros(55 - |rest|) + length))
    {
      hide HashBlocks, Compress;
      OneBlock(hash, rest, length);
      block[index] := 0x80;
      index := index + 1;
      assert block[..index] == rest + [0x80];
      FillZeros(56);
      assert block[..56] == rest + [0x80] + Zeros(55 - |rest|);
    }

    /** SHA1PadMessage. */
    method PadMessage()
      requires Valid() && !computed && corrupted == SUCCESS
      modifies this`hash, this`index, block
      ensures hash == HashBlocks(INITIAL, Padded(message)) && index == 0
    {
      hide HashBlocks, Compress, LengthOctets;
      ghost var rest, length := message[Whole(message)..], LengthOctets(lengthHigh, lengthLow);
      LengthsAgree(|message|, lengthHigh, lengthLow);
      HashWhole(INITIAL, message, Padding(|message|));
      assert |rest| == index && Padding(|message|) == [0x80] + Zeros(Gap(index)) + length;
      hide Whole, Padding, Zeros;
      if index > 55 {
        PadTwoBlocks(rest, length);
      } else {
        PadOneBlock(rest, length);
      }
      assert HashBlocks(INITIAL, Padded(message)) == Compress(hash, block[..56] + length);
      PutLength();
      ProcessMessageBlock();
    }

    /** SHA1Result. */
    method Result() returns (status: nat, digest: seq<bv8>)
      requires Valid()
      modifies this, block
      ensures Valid() && message == old(message) && corrupted == old(corrupted)
      ensures status == corrupted
      ensures status == SUCCESS ==> computed && digest == Digest(message)
      ensures status != SUCCESS ==> digest == [] && computed == old(computed)
    {
      hide HashBlocks, Padded, Octets, Whole;
      if corrupted != SUCCESS {
        return corrupted, [];
      }
      if !computed {
        PadMessage();
        var i := 0;
        while i < 64
          invariant i <= 64
          modifies block
        {
          block[i] := 0;
          i := i + 1;
        }
        lengthLow, lengthHigh, computed := 0, 0, true;
      }
      return SUCCESS, Octets(hash);
    }
  }

  lemma WholeStep(message: seq<bv8>, octet: bv8)
    ensures var more, n := message + [octet], |message| % 64 + 1;
            && Whole(message) <= |message|
            && (if n == 64 then |more| % 64 == 0 && Whole(more) == |more|
                else |more| % 64 == n && Whole(more) <= |more| && more[Whole(more)..] == message[Whole(message)..] + [octet])
  {
    assert |message| == |message| / 64 * 64 + |message| % 64;
  }

  /** The two words count the bits of so many octets. */
  predicate Counts(high: nat, low: nat, length: nat) {
    high * TWO32 + low == 8 * length
  }

  /** The low word steps by eight up to its end, so both words are 0 again exactly at 2^64. */
  lemma LengthStep(length: nat, high: nat, low: nat)
    requires Counts(high, low, length) && high < TWO32 && low < TWO32
    ensures var low' := (low + 8) % TWO32;
            var high' := if low' == 0 then (high + 1) % TWO32 else high;
            && low' < TWO32 && high' < TWO32
            && (8 * (length + 1) < TWO32 * TWO32 ==> Counts(high', low', length + 1) && !(low' == 0 && high' == 0))
            && (8 * (length + 1) >= TWO32 * TWO32 ==> low' == 0 && high' == 0)
  {
    assert low % 8 == 0;
    assert low + 8 <= TWO32;
  }

  lemma HashNone(h: Words, rest: seq<bv8>)
    requires |rest| < 64
    ensures HashBlocks(h, rest) == h
  {
  }

  /** The two length words make up the length. */
  lemma LengthsAgree(length: nat, high: nat, low: nat)
    requires Counts(high, low, length) && low < TWO32
    ensures 8 * length / TWO32 == high && 8 * length % TWO32 == low
  {
  }

  lemma OneBlock(h: Words, rest: seq<bv8>, length: seq<bv8>)
    requires |rest| <= 55 && |length| == 8
    ensures |rest + [0x80] + Zeros(55 - |rest|) + length| == 64
    ensures HashBlocks(h, rest + ([0x80] + Zeros(55 - |rest|) + length)) == Compress(h, rest + [0x80] + Zeros(55 - |rest|) + length)
  {
    assert rest + ([0x80] + Zeros(55 - |rest|) + length) == rest + [0x80] + Zeros(55 - |rest|) + length;
    HashOne(h, rest + [0x80] + Zeros(55 - |rest|) + length);
  }

  lemma TwoBlocks(h: Words, rest: seq<bv8>, length: seq<bv8>)
    requires 55 < |rest| < 64 && |length| == 8
    ensures HashBlocks(h, rest + ([0x80] + Zeros(119 - |rest|) + length))
         == Compress(Compress(h, rest + [0x80] + Zeros(63 - |rest|)), Zeros(56) + length)
  {
    hide Compress, HashBlocks;
    var first, second := rest + [0x80] + Zeros(63 - |rest|), Zeros(56) + length;
    assert rest + ([0x80] + Zeros(119 - |rest|) + length) == first + second;
    HashBlocksAppend(h, first, second);
    HashOne(h, first);
    HashOne(HashBlocks(h, first), second);
  }

  /** However a message is cut up, its digest is the same, and stays the same when asked for again. */
  method DigestOfPieces(pieces: seq<seq<bv8>>) returns (digest: seq<bv8>, again: seq<bv8>)
    requires 8 * |Joined(pieces)| < TWO32 * TWO32
    ensures digest == Digest(Joined(pieces)) && again == digest
  {
    hide Context.Valid, Digest;
    var context := new Context();
    var i := 0;
    while i < |pieces|
      invariant i <= |pieces| && context.Valid() && fresh(context) && fresh(context.block)
      invariant !context.computed && context.corrupted == SUCCESS && context.message == Joined(pieces[..i])
    {
      JoinedMore(pieces, i);
      JoinedRest(pieces, i + 1);
      var _ := context.Input(pieces[i]);
      i := i + 1;
    }
    assert pieces[..i] == pieces;
    var status;
    status, digest := context.Result();
    status, again := context.Result();
  }
}
